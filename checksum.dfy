/**
 * The layout checksum (`calculateChecksum` in layout.go): a 16-bit
 * accumulator, starting at 0, is rotated right by one bit and then has the
 * next byte added (wrapping at 16 bits); the result is printed as exactly
 * four lower-case hexadecimal digits. tmux recomputes the same sum and
 * refuses a layout whose prefix does not match.
 */
module LayoutChecksum {

  /** Every char of the string stands for one byte. */
  predicate IsByteString(s: string)
  {
    forall i :: 0 <= i < |s| ==> s[i] as int < 256
  }

  /** Go's `uint16`, with its wrap-around written out as `% 0x1_0000`. */
  type Word = c: int | 0 <= c < 0x1_0000

  /**
   * `(csum >> 1) + ((csum & 1) << 15)` on a `uint16`: the low bit moves to
   * the top and every other bit moves down one place.
   */
  function RotateRight1(c: Word): (r: Word)
    ensures r % 0x8000 == c / 2 && r / 0x8000 == c % 2
  {
    c / 2 + (c % 2) * 0x8000
  }

  /** The opposite rotation, by one bit to the left. */
  function RotateLeft1(c: Word): Word
  {
    (c * 2) % 0x1_0000 + c / 0x8000
  }

  /** No bit is lost: the rotation is undone by the opposite one. */
  lemma RotateRoundTrip(c: Word)
    ensures RotateLeft1(RotateRight1(c)) == c
    ensures RotateRight1(RotateLeft1(c)) == c
  {
    var h: int, l: int := c / 2, c % 2;
    var r: int := RotateRight1(c);
    assert r == h + l * 0x8000;
    assert 2 * r == 2 * h + l * 0x1_0000;
    assert (2 * r) % 0x1_0000 == 2 * h;
    assert r / 0x8000 == l;
    var t: int, u: int := c / 0x8000, c % 0x8000;
    assert c * 2 == t * 0x1_0000 + 2 * u;
    assert (c * 2) % 0x1_0000 == 2 * u;
    var q: int := RotateLeft1(c);
    assert q == 2 * u + t;
    assert q / 2 == u && q % 2 == t;
  }

  /** The accumulator after the bytes of `s`, taken in order. */
  function Checksum(s: string): Word
    requires IsByteString(s)
  {
    if |s| == 0 then 0
    else (RotateRight1(Checksum(s[..|s| - 1])) + s[|s| - 1] as int) % 0x1_0000
  }

  predicate IsLowerHexDigit(c: char)
  {
    '0' <= c <= '9' || 'a' <= c <= 'f'
  }

  function HexDigitValue(c: char): (d: nat)
    requires IsLowerHexDigit(c)
    ensures d < 16
  {
    if c <= '9' then c as int - '0' as int else c as int - 'a' as int + 10
  }

  function HexDigit(d: nat): (c: char)
    requires d < 16
    ensures IsLowerHexDigit(c) && HexDigitValue(c) == d
  {
    if d < 10 then ('0' as int + d) as char else ('a' as int + d - 10) as char
  }

  /** The number a string of hexadecimal digits denotes. */
  function HexValue(h: string): nat
    requires forall i :: 0 <= i < |h| ==> IsLowerHexDigit(h[i])
  {
    if |h| == 0 then 0 else 16 * HexValue(h[..|h| - 1]) + HexDigitValue(h[|h| - 1])
  }

  /** `fmt.Sprintf("%04x", c)`: four lower-case hexadecimal digits that read back as `c`. */
  function Hex4(c: Word): (h: string)
    ensures |h| == 4
    ensures forall i :: 0 <= i < 4 ==> IsLowerHexDigit(h[i])
    ensures HexValue(h) == c
  {
    var v := c;
    var a := v / 16;
    var b := a / 16;
    var h := [HexDigit(b / 16), HexDigit(b % 16), HexDigit(a % 16), HexDigit(v % 16)];
    assert h[..1][..0] == [];
    assert h[..2][..1] == h[..1];
    assert h[..3][..2] == h[..2];
    assert h[..4][..3] == h[..3];
    assert HexValue(h[..1]) == b / 16;
    assert HexValue(h[..2]) == b;
    assert HexValue(h[..3]) == a;
    assert h[..4] == h;
    h
  }

  /** `calculateChecksum`: the loop over the bytes, then the formatting. */
  method CalculateChecksum(s: string) returns (hex: string)
    requires IsByteString(s)
    ensures hex == Hex4(Checksum(s))
  {
    var csum: Word := 0;
    for i := 0 to |s|
      invariant csum == Checksum(s[..i])
    {
      assert s[..i + 1][..i] == s[..i];
      csum := csum / 2 + (csum % 2) * 0x8000;
      csum := (csum + s[i] as int) % 0x1_0000;
    }
    assert s[..|s|] == s;
    hex := Hex4(csum);
  }

  /** The sums of a few short bodies: `""`, `"A"` and `"AB"`. */
  lemma ChecksumExamples()
    ensures Checksum("") == 0 && Hex4(0) == "0000"
    ensures Checksum("A") == 0x41 && Hex4(0x41) == "0041"
    ensures Checksum("AB") == 0x8062 && Hex4(0x8062) == "8062"
  {
    assert "AB"[..1] == "A";
    assert "A"[..0] == "";
  }
}
