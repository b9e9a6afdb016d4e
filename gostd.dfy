/**
 * The pieces of Go's standard library that the layout engine and the tmux
 * reply handling rely on, stated in Dafny's terms: `strconv.Atoi`, `%d`
 * formatting, Go's truncating integer division, `strings.Index`,
 * `strings.Split` and `strings.Join`.
 *
 * Strings are byte strings: each `char` stands for one byte, and every
 * delimiter the code looks for is ASCII.
 */
module GoStd {

  datatype Option<T> = None | Some(value: T)

  datatype Result<T, E> = Ok(value: T) | Err(error: E)

  /** Bounds of Go's 64-bit `int`. */
  const MinInt: int := -0x8000_0000_0000_0000
  const MaxInt: int := 0x7fff_ffff_ffff_ffff

  predicate InRange(v: int) { MinInt <= v <= MaxInt }

  // ---------------------------------------------------------------------
  // Decimal digits

  predicate IsDigit(c: char) { '0' <= c <= '9' }

  predicate AllDigits(s: string) { forall i :: 0 <= i < |s| ==> IsDigit(s[i]) }

  function DigitValue(c: char): (d: nat)
    requires IsDigit(c)
    ensures d < 10
  {
    c as int - '0' as int
  }

  function DigitChar(d: nat): (c: char)
    requires d < 10
    ensures IsDigit(c) && DigitValue(c) == d
  {
    ('0' as int + d) as char
  }

  /** The number a digit string denotes, most significant digit first. */
  function DecimalValue(s: string): nat
    requires AllDigits(s)
  {
    if |s| == 0 then 0 else 10 * DecimalValue(s[..|s| - 1]) + DigitValue(s[|s| - 1])
  }

  /** The digits `%d` prints for a non-negative number: no sign, no leading zero. */
  function Decimal(n: nat): (s: string)
    ensures |s| > 0 && AllDigits(s)
    ensures DecimalValue(s) == n
  {
    if n < 10 then [DigitChar(n)]
    else
      var s := Decimal(n / 10) + [DigitChar(n % 10)];
      assert s[..|s| - 1] == Decimal(n / 10);
      s
  }

  // ---------------------------------------------------------------------
  // strconv.Atoi and fmt's %d

  /**
   * What `strconv.Atoi` reports: a value, a syntax error, or a range error
   * together with the clamped value Go returns beside it.
   */
  datatype AtoiResult = Parsed(value: int) | SyntaxError | RangeError(clamped: int)

  /** The largest value of Go's `uint64`, the bound `strconv.ParseUint` checks while it reads digits. */
  const MaxUint64: int := 0xffff_ffff_ffff_ffff

  /** The longest run of decimal digits at the start of `s`. */
  function DigitRun(s: string): (r: string)
    ensures |r| <= |s| && r == s[..|r|] && AllDigits(r)
    ensures |r| < |s| ==> !IsDigit(s[|r|])
  {
    if |s| == 0 || !IsDigit(s[0]) then [] else [s[0]] + DigitRun(s[1..])
  }

  /**
   * `strconv.Atoi`: an optional `+` or `-`, then at least one decimal digit,
   * and the value must fit a 64-bit int. The digits are read left to right
   * and the reading stops with a range error as soon as the digits read so
   * far exceed the `uint64` range, before any later non-digit is seen; that
   * happens exactly when the whole leading run of digits exceeds it.
   */
  function Atoi(s: string): (r: AtoiResult)
    ensures r.Parsed? ==> InRange(r.value)
    ensures s == [] ==> r == SyntaxError
  {
    var digits := if |s| > 0 && (s[0] == '+' || s[0] == '-') then s[1..] else s;
    if DecimalValue(DigitRun(digits)) > MaxUint64 then
      RangeError(if s[0] == '-' then MinInt else MaxInt)
    else if |digits| == 0 || !AllDigits(digits) then SyntaxError
    else
      var v: int := if s[0] == '-' then -(DecimalValue(digits) as int) else DecimalValue(digits);
      if v > MaxInt then RangeError(MaxInt)
      else if v < MinInt then RangeError(MinInt)
      else Parsed(v)
  }

  /**
   * A run of digits beyond the `uint64` range is a range error whatever
   * text follows it, with the value clamped toward the sign.
   */
  lemma AtoiOverflowFirst(d: string, rest: string)
    requires |d| > 0 && AllDigits(d) && DecimalValue(d) > MaxUint64
    requires rest == [] || !IsDigit(rest[0])
    ensures Atoi(d + rest) == RangeError(MaxInt)
    ensures Atoi("+" + (d + rest)) == RangeError(MaxInt)
    ensures Atoi("-" + (d + rest)) == RangeError(MinInt)
  {
    var t := d + rest;
    assert DecimalValue(DigitRun(t)) > MaxUint64 by {
      DigitRunOf(d, rest);
    }
    assert t[0] == d[0];
    RunOverflows(t);
    SignedRunOverflows('+', t);
    SignedRunOverflows('-', t);
  }

  lemma RunOverflows(t: string)
    requires |t| > 0 && t[0] != '+' && t[0] != '-' && DecimalValue(DigitRun(t)) > MaxUint64
    ensures Atoi(t) == RangeError(MaxInt)
  {
  }

  lemma SignedRunOverflows(sign: char, t: string)
    requires sign == '+' || sign == '-'
    requires DecimalValue(DigitRun(t)) > MaxUint64
    ensures Atoi([sign] + t) == RangeError(if sign == '-' then MinInt else MaxInt)
  {
    assert ([sign] + t)[1..] == t;
  }

  /** The leading run of digits of `d + rest` is `d` when `rest` does not go on with a digit. */
  lemma {:induction false} DigitRunOf(d: string, rest: string)
    requires AllDigits(d)
    requires rest == [] || !IsDigit(rest[0])
    ensures DigitRun(d + rest) == d
  {
    if |d| > 0 {
      assert (d + rest)[1..] == d[1..] + rest;
      DigitRunOf(d[1..], rest);
    }
  }

  /**
   * The text `strconv.Atoi` accepts, stated independently of Atoi: an
   * optional sign, digits, and a value in range.
   */
  predicate IsInteger(s: string) {
    if |s| > 0 && s[0] == '-' then
      |s| > 1 && AllDigits(s[1..]) && DecimalValue(s[1..]) <= -MinInt
    else if |s| > 0 && s[0] == '+' then
      |s| > 1 && AllDigits(s[1..]) && DecimalValue(s[1..]) <= MaxInt
    else
      |s| > 0 && AllDigits(s) && DecimalValue(s) <= MaxInt
  }

  /** `strconv.Atoi` accepts exactly the integers in range. */
  lemma AtoiAccepts(s: string)
    ensures Atoi(s).Parsed? <==> IsInteger(s)
  {
    var digits := if |s| > 0 && (s[0] == '+' || s[0] == '-') then s[1..] else s;
    if AllDigits(digits) {
      DigitRunOf(digits, []);
      assert digits + [] == digits;
    }
  }

  /** The integer `strconv.Atoi` returns when its error is ignored. */
  function AtoiValue(s: string): (v: int)
    ensures Atoi(s).Parsed? ==> v == Atoi(s).value
    ensures Atoi(s) == SyntaxError ==> v == 0
    ensures Atoi(s).RangeError? ==> v == Atoi(s).clamped
    ensures InRange(v)
  {
    match Atoi(s)
    case Parsed(v) => v
    case SyntaxError => 0
    case RangeError(c) => c
  }

  /** `fmt.Sprintf("%d", v)`: a minus sign for negatives, then the digits. */
  function Itoa(v: int): (s: string)
    ensures |s| > 0
    ensures IsDigit(s[0]) || s[0] == '-'
    ensures AllDigits(s[1..])
  {
    if v < 0 then "-" + Decimal(-v) else Decimal(v)
  }

  /** Parsing what `%d` printed gives the number back. */
  lemma AtoiItoa(v: int)
    requires InRange(v)
    ensures Atoi(Itoa(v)) == Parsed(v)
  {
    var d := Decimal(if v < 0 then -v else v);
    DigitRunOf(d, []);
    assert d + [] == d;
    if v < 0 {
      assert ("-" + d)[1..] == d;
    }
  }

  /** A char `%d` never prints. */
  predicate NotDecimal(c: char)
  {
    !IsDigit(c) && c != '-'
  }

  lemma NotInItoa(v: int, c: char)
    requires NotDecimal(c)
    ensures c !in Itoa(v)
  {
    var t := Itoa(v);
    forall k | 0 <= k < |t| ensures t[k] != c {
      if k > 0 {
        assert t[k] == t[1..][k - 1];
      }
    }
  }

  // ---------------------------------------------------------------------
  // Integer division

  /**
   * Go's `a / b` for a positive `b`, which truncates toward zero: how many
   * whole times `b` fits into `|a|`, with the sign of `a`. (Dafny's own `/`
   * rounds down instead.)
   */
  function Quot(a: int, b: int): int
    requires b > 0
    decreases if a < 0 then 1 - a else a
  {
    if a < 0 then -Quot(-a, b)
    else if a < b then 0
    else 1 + Quot(a - b, b)
  }

  /** The quotient rounds toward zero: the remainder has the sign of `a` and is smaller than `b`. */
  lemma {:induction false} QuotRemainder(a: int, b: int)
    requires b > 0
    ensures 0 <= a ==> 0 <= a - Quot(a, b) * b < b
    ensures a < 0 ==> -b < a - Quot(a, b) * b <= 0
    ensures 0 <= a ==> 0 <= Quot(a, b) <= a
    decreases if a < 0 then 1 - a else a
  {
    if a < 0 {
      QuotRemainder(-a, b);
      assert Quot(a, b) * b == -(Quot(-a, b) * b);
    } else if a >= b {
      QuotRemainder(a - b, b);
      assert Quot(a, b) * b == b + Quot(a - b, b) * b;
    }
  }

  /** The quotient is the only number that leaves such a remainder. */
  lemma QuotUnique(a: int, b: int, q: int)
    requires a >= 0 && b > 0 && 0 <= a - q * b < b
    ensures Quot(a, b) == q
  {
    var p := Quot(a, b);
    QuotRemainder(a, b);
    assert (p - q) * b == (a - q * b) - (a - p * b);
    if p - q >= 1 { MulMonotone(1, p - q, b); }
    if p - q <= -1 { MulMonotone(p - q, -1, b); }
  }

  lemma MulMonotone(a: int, b: int, c: int)
    requires a <= b && c >= 0
    ensures a * c <= b * c
  {
    assert (b - a) * c >= 0;
  }

  /** A positive factor can be cancelled from both sides of an inequality. */
  lemma CancelFactor(p: int, q: int, d: int)
    requires d > 0 && p * d <= q * d
    ensures p <= q
  {
  }

  /** On numbers that are not negative, a larger dividend never gives a smaller quotient. */
  lemma QuotMonotone(a: int, b: int, d: int)
    requires 0 <= a <= b && d > 0
    ensures Quot(a, d) <= Quot(b, d)
  {
    QuotRemainder(a, d);
    QuotRemainder(b, d);
    var qa, qb := Quot(a, d), Quot(b, d);
    if qa > qb {
      MulMonotone(qb + 1, qa, d);
    }
  }

  /** Dividing a multiple of `d` by `d` is exact. */
  lemma QuotExact(r: int, d: int)
    requires r >= 0 && d > 0
    ensures Quot(r * d, d) == r
  {
    MulMonotone(0, r, d);
    QuotUnique(r * d, d, r);
  }

  // ---------------------------------------------------------------------
  // Searching

  /** `strings.Index` for a one-byte separator: the first position of `c`, or -1. */
  function IndexOf(s: string, c: char): (i: int)
    ensures -1 <= i < |s|
    ensures i == -1 <==> c !in s
    ensures 0 <= i ==> s[i] == c && c !in s[..i]
  {
    if |s| == 0 then -1
    else if s[0] == c then 0
    else
      var j := IndexOf(s[1..], c);
      assert j >= 0 ==> s[1..][..j] == s[1..j + 1];
      if j < 0 then -1 else j + 1
  }

  lemma {:induction false} IndexOfAfter(a: string, c: char, b: string)
    requires c !in a
    ensures IndexOf(a + [c] + b, c) == |a|
  {
    if |a| > 0 {
      assert (a + [c] + b)[1..] == a[1..] + [c] + b;
      IndexOfAfter(a[1..], c, b);
    }
  }

  // ---------------------------------------------------------------------
  // strings.Split and strings.Join with a one-byte separator

  /** `strings.Join`: the parts with one separator between neighbours. */
  function Join(parts: seq<string>, sep: char): string
  {
    if |parts| == 0 then ""
    else if |parts| == 1 then parts[0]
    else parts[0] + [sep] + Join(parts[1..], sep)
  }

  /**
   * `strings.Split`: the maximal separator-free pieces, one more than there
   * are separators (so `""` splits into `[""]`).
   */
  function Split(s: string, sep: char): (parts: seq<string>)
    ensures |parts| >= 1
    ensures forall k :: 0 <= k < |parts| ==> sep !in parts[k]
    ensures Join(parts, sep) == s
    decreases |s|
  {
    var i := IndexOf(s, sep);
    if i < 0 then [s]
    else
      var rest := Split(s[i + 1..], sep);
      var parts := [s[..i]] + rest;
      assert parts[1..] == rest;
      assert s == s[..i] + [sep] + s[i + 1..];
      parts
  }

  /** Splitting a join of separator-free parts gives the parts back. */
  lemma {:induction false} SplitJoin(parts: seq<string>, sep: char)
    requires |parts| >= 1
    requires forall k :: 0 <= k < |parts| ==> sep !in parts[k]
    ensures Split(Join(parts, sep), sep) == parts
  {
    if |parts| > 1 {
      var tail := Join(parts[1..], sep);
      IndexOfAfter(parts[0], sep, tail);
      var s := parts[0] + [sep] + tail;
      assert s[..|parts[0]|] == parts[0];
      assert s[|parts[0]| + 1..] == tail;
      SplitJoin(parts[1..], sep);
    }
  }
}
