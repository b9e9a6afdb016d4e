/**
 * The codec for tmux's window-layout string (`ParseLayout`, `parseNode`,
 * `parseChildren`, `BuildLayout` and `buildNodeString` in layout.go).
 *
 * A layout string is `CSUM,NODE`, where a node is `WxH,X,Y` followed by
 * `,ID` for a pane, `{NODE,...}` for children side by side, or
 * `[NODE,...]` for stacked children. The parser skips everything up to the
 * first comma without checking the checksum; the builder recomputes it.
 */
module LayoutCodec {
  import opened GoStd
  import opened LayoutTree
  import opened LayoutChecksum

  /** The reasons `ParseLayout` and `parseNode` give for refusing a string. */
  datatype ParseError =
    | NoChecksumSeparator   // no comma at all
    | NoX                   // no `x` between width and height
    | BadWidth
    | NoCommaAfterHeight
    | BadHeight
    | NoCommaAfterX
    | BadX
    | BadY
    | BadPaneId
    | UnexpectedCharacter   // the `default:` case after y

  /** A field as the parser reads it: `strconv.Atoi`, any error refuses. */
  function Field(s: string): Option<int>
  {
    match Atoi(s)
    case Parsed(v) => Some(v)
    case _ => None
  }

  /** The two scans of `parseNode`: the y field and the pane id. */
  datatype Scan = YField | PaneIdField

  /**
   * The characters a scan stops at: a comma or a closing bracket, and for
   * the y field also an opening bracket.
   */
  predicate Stops(k: Scan, c: char)
  {
    c == ',' || c == '}' || c == ']' || (k == YField && (c == '{' || c == '['))
  }

  /**
   * A scan of `parseNode` (`endIdx := len(s)`, then the first position
   * holding a stop character): its index, or `|s|` when there is none.
   */
  function ScanTo(s: string, k: Scan): (i: nat)
    ensures i <= |s|
    ensures i < |s| ==> Stops(k, s[i])
    ensures forall j :: 0 <= j < i ==> !Stops(k, s[j])
  {
    if |s| == 0 || Stops(k, s[0]) then 0 else 1 + ScanTo(s[1..], k)
  }

  /**
   * One integer field of `parseNode`: the text up to the first `delim`,
   * read with `strconv.Atoi`, and the text after the delimiter.
   */
  function ReadField(s: string, delim: char, missing: ParseError, bad: ParseError): (r: Result<(int, string), ParseError>)
    ensures r.Ok? ==> |r.value.1| < |s| && InRange(r.value.0)
    ensures r.Err? ==> r.error == missing || r.error == bad
    ensures delim !in s ==> r == Err(missing)
    ensures delim in s ==> (r.Ok? <==> Atoi(s[..IndexOf(s, delim)]).Parsed?)
    ensures delim in s && !Atoi(s[..IndexOf(s, delim)]).Parsed? ==> r == Err(bad)
    ensures r.Ok? ==> Atoi(s[..IndexOf(s, delim)]) == Parsed(r.value.0) && r.value.1 == s[IndexOf(s, delim) + 1..]
  {
    var i := IndexOf(s, delim);
    if i < 0 then Err(missing)
    else
      match Field(s[..i])
      case None => Err(bad)
      case Some(v) => Ok((v, s[i + 1..]))
  }

  /**
   * The first half of `parseNode`: `WxH,X,Y`, with y ended by a comma, a
   * bracket or the end of the text. The node is a pane with id -1 until the
   * rest says otherwise; the text left starts at y's delimiter.
   */
  function ParseGeometry(s: string): (r: Result<(Node, string), ParseError>)
    ensures r.Ok? ==> |r.value.1| + 3 < |s|
    ensures r.Ok? ==> r.value.1 == [] || Stops(YField, r.value.1[0])
    ensures r.Ok? ==> var n := r.value.0;
      InRange(n.width) && InRange(n.height) && InRange(n.x) && InRange(n.y) &&
      n.paneId == -1 && n.split == SplitNone && n.children == []
    ensures r.Err? ==> r.error != NoChecksumSeparator && r.error != BadPaneId && r.error != UnexpectedCharacter
    ensures 'x' !in s ==> r == Err(NoX)
  {
    match ReadField(s, 'x', NoX, BadWidth)
    case Err(e) => Err(e)
    case Ok((width, s1)) =>
      match ReadField(s1, ',', NoCommaAfterHeight, BadHeight)
      case Err(e) => Err(e)
      case Ok((height, s2)) =>
        match ReadField(s2, ',', NoCommaAfterX, BadX)
        case Err(e) => Err(e)
        case Ok((x, s3)) =>
          var yi := ScanTo(s3, YField);
          match Field(s3[..yi])
          case None => Err(BadY)
          case Some(y) => Ok((Node(width, height, x, y, -1, SplitNone, []), s3[yi..]))
  }

  /**
   * `parseNode`: one node and the text after it. A node that ends right
   * after its y field (end of text, `}` or `]`) is read as a pane with
   * id -1.
   */
  function ParseNode(s: string): (r: Result<(Node, string), ParseError>)
    ensures r.Ok? ==> |r.value.1| < |s|
    decreases |s|, 0
  {
    match ParseGeometry(s)
    case Err(e) => Err(e)
    case Ok((node, rest)) => ParseTail(node, rest)
  }

  /**
   * The second half of `parseNode`, the switch on the character after y:
   * children in `{}` or `[]`, a pane id after a comma, or nothing more.
   * The `default:` case cannot be reached from `parseNode`, whose scan for
   * y stops only at the characters the switch handles.
   */
  function ParseTail(node: Node, s: string): (r: Result<(Node, string), ParseError>)
    ensures r.Ok? ==> |r.value.1| <= |s|
    decreases |s|, 0
  {
    if |s| == 0 then Ok((node, ""))
    else if s[0] == '{' then
      match ParseChildren(s[1..], '}')
      case Err(e) => Err(e)
      case Ok((cs, rest)) => Ok((node.(split := SplitHorizontal, children := cs), rest))
    else if s[0] == '[' then
      match ParseChildren(s[1..], ']')
      case Err(e) => Err(e)
      case Ok((cs, rest)) => Ok((node.(split := SplitVertical, children := cs), rest))
    else if s[0] == ',' then
      var id := s[1..];
      var pi := ScanTo(id, PaneIdField);
      match Field(id[..pi])
      case None => Err(BadPaneId)
      case Some(v) => Ok((node.(paneId := v), id[pi..]))
    else if s[0] == '}' || s[0] == ']' then Ok((node, s))
    else Err(UnexpectedCharacter)
  }

  /**
   * `parseChildren`: nodes separated by commas up to `close`, which is
   * consumed if present. Running out of text closes the list as well.
   */
  function ParseChildren(s: string, close: char): (r: Result<(seq<Node>, string), ParseError>)
    ensures r.Ok? ==> |r.value.1| <= |s|
    decreases |s|, 1
  {
    if |s| > 0 && s[0] != close then
      match ParseNode(s)
      case Err(e) => Err(e)
      case Ok((child, rest)) =>
        match ParseChildren(SkipComma(rest), close)
        case Err(e) => Err(e)
        case Ok((siblings, tail)) => Ok(([child] + siblings, tail))
    else
      Ok(([], if |s| > 0 && s[0] == close then s[1..] else s))
  }

  /**
   * What `parseNode` guarantees of what it returns: a tree the printer can
   * write back, and never the `default:` error, since the scan for y stops
   * only at characters the switch handles.
   */
  lemma {:induction false} ParsedNode(s: string)
    ensures ParseNode(s).Ok? ==> Encodable(ParseNode(s).value.0)
    ensures ParseNode(s).Err? ==> ParseNode(s).error != NoChecksumSeparator && ParseNode(s).error != UnexpectedCharacter
    ensures 'x' !in s ==> ParseNode(s) == Err(NoX)
    decreases |s|, 0
  {
    var g := ParseGeometry(s);
    if g.Ok? {
      ParsedTail(g.value.0, g.value.1);
    }
  }

  lemma {:induction false} ParsedTail(node: Node, s: string)
    requires Encodable(node) && node.paneId == -1 && node.split == SplitNone
    ensures ParseTail(node, s).Ok? ==> Encodable(ParseTail(node, s).value.0)
    ensures ParseTail(node, s).Err? ==> ParseTail(node, s).error != NoChecksumSeparator
    ensures ParseTail(node, s) == Err(UnexpectedCharacter) <==> |s| > 0 && !Stops(YField, s[0])
    decreases |s|, 0
  {
    if |s| > 0 && (s[0] == '{' || s[0] == '[') {
      ParsedChildren(s[1..], if s[0] == '{' then '}' else ']');
    }
  }

  lemma {:induction false} ParsedChildren(s: string, close: char)
    ensures ParseChildren(s, close).Ok? ==>
      forall i :: 0 <= i < |ParseChildren(s, close).value.0| ==> Encodable(ParseChildren(s, close).value.0[i])
    ensures ParseChildren(s, close).Err? ==>
      ParseChildren(s, close).error != NoChecksumSeparator && ParseChildren(s, close).error != UnexpectedCharacter
    decreases |s|, 1
  {
    if |s| > 0 && s[0] != close {
      ParsedNode(s);
      ParseChildrenStep(s, close);
      var r := ParseNode(s);
      if r.Ok? {
        var next := SkipComma(r.value.1);
        ParsedChildren(next, close);
        PrefixedEncodable(r.value.0, ParseChildren(next, close));
      }
    }
  }

  /** A tree put in front of trees the printer can write back. */
  lemma PrefixedEncodable(child: Node, rs: Result<(seq<Node>, string), ParseError>)
    requires Encodable(child)
    requires rs.Ok? ==> forall i :: 0 <= i < |rs.value.0| ==> Encodable(rs.value.0[i])
    ensures Prefixed([child], rs).Ok? ==> forall i :: 0 <= i < |Prefixed([child], rs).value.0| ==> Encodable(Prefixed([child], rs).value.0[i])
    ensures Prefixed([child], rs).Err? ==> rs.Err? && Prefixed([child], rs).error == rs.error
  {
    if rs.Ok? {
      var cs := [child] + rs.value.0;
      assert forall i :: 0 < i < |cs| ==> cs[i] == rs.value.0[i - 1];
    }
  }

  /** `done` followed by what a later parse produced; errors pass through. */
  function Prefixed(done: seq<Node>, r: Result<(seq<Node>, string), ParseError>): Result<(seq<Node>, string), ParseError>
  {
    match r
    case Err(e) => Err(e)
    case Ok((cs, tail)) => Ok((done + cs, tail))
  }

  /** The separator between two children, when there is one. */
  function SkipComma(s: string): (r: string)
    ensures |r| <= |s|
  {
    if |s| > 0 && s[0] == ',' then s[1..] else s
  }

  lemma PrefixedNothing(r: Result<(seq<Node>, string), ParseError>)
    ensures Prefixed([], r) == r
  {
    if r.Ok? {
      assert [] + r.value.0 == r.value.0;
    }
  }

  lemma PrefixedTwice(a: seq<Node>, b: seq<Node>, r: Result<(seq<Node>, string), ParseError>)
    ensures Prefixed(a, Prefixed(b, r)) == Prefixed(a + b, r)
  {
    if r.Ok? {
      assert a + (b + r.value.0) == (a + b) + r.value.0;
    }
  }

  /** One round of the loop of `parseChildren`: a child, then the rest of the list. */
  lemma ParseChildrenStep(s: string, close: char)
    requires |s| > 0 && s[0] != close
    ensures ParseNode(s).Err? ==> ParseChildren(s, close) == Err(ParseNode(s).error)
    ensures ParseNode(s).Ok? ==>
      ParseChildren(s, close) == Prefixed([ParseNode(s).value.0], ParseChildren(SkipComma(ParseNode(s).value.1), close))
  {
  }

  /** `parseChildren` as the loop it is: a cursor over the text and a growing list. */
  method ScanChildren(text: string, close: char) returns (r: Result<(seq<Node>, string), ParseError>)
    ensures r == ParseChildren(text, close)
  {
    var children: seq<Node> := [];
    var s := text;
    PrefixedNothing(ParseChildren(text, close));
    while |s| > 0 && s[0] != close
      invariant ParseChildren(text, close) == Prefixed(children, ParseChildren(s, close))
      decreases |s|
    {
      ParseChildrenStep(s, close);
      var step := ParseNode(s);
      if step.Err? {
        return Err(step.error);
      }
      var (child, rest) := step.value;
      PrefixedTwice(children, [child], ParseChildren(SkipComma(rest), close));
      children := children + [child];
      s := SkipComma(rest);
    }
    assert ParseChildren(s, close) == Ok(([], if |s| > 0 && s[0] == close then s[1..] else s));
    if |s| > 0 && s[0] == close {
      s := s[1..];
    }
    assert children + [] == children;
    return Ok((children, s));
  }

  /**
   * `ParseLayout`: drop everything up to the first comma (the checksum,
   * never checked), parse one node, ignore what follows it.
   */
  function ParseLayout(layout: string): (r: Result<Node, ParseError>)
    ensures r == Err(NoChecksumSeparator) <==> ',' !in layout
    ensures r.Ok? ==> Encodable(r.value)
  {
    var i := IndexOf(layout, ',');
    if i < 0 then Err(NoChecksumSeparator)
    else
      ParsedNode(layout[i + 1..]);
      match ParseNode(layout[i + 1..])
      case Err(e) => Err(e)
      case Ok((n, _)) => Ok(n)
  }

  // ---------------------------------------------------------------------
  // Printing


  /** The `WxH,X,Y` every node starts with. */
  function PrintGeometry(n: Node): (s: string)
    ensures |s| > 0 && (IsDigit(s[0]) || s[0] == '-')
  {
    Itoa(n.width) + "x" + Itoa(n.height) + "," + Itoa(n.x) + "," + Itoa(n.y)
  }

  /**
   * `buildNodeString`: `WxH,X,Y` then `,ID` for a pane or the children,
   * joined by commas, inside `{}` or `[]`.
   */
  function PrintNode(n: Node): (s: string)
    ensures |s| > 0 && (IsDigit(s[0]) || s[0] == '-')
    decreases n, 1
  {
    PrintGeometry(n) + PrintTail(n)
  }

  /** What follows the geometry: the pane id or the bracketed children. */
  function PrintTail(n: Node): (s: string)
    ensures |s| > 0 && (s[0] == ',' || s[0] == '{' || s[0] == '[')
    decreases n, 0
  {
    match n.split
    case SplitNone => "," + Itoa(n.paneId)
    case SplitHorizontal => "{" + PrintChildren(n.children) + "}"
    case SplitVertical => "[" + PrintChildren(n.children) + "]"
  }

  /** `strings.Join(childStrs, ",")` over the printed children. */
  function PrintChildren(cs: seq<Node>): string
    decreases cs, 1
  {
    Join(PrintAll(cs), ',')
  }

  /** `childStrs`: each child printed, in order. */
  function PrintAll(cs: seq<Node>): (parts: seq<string>)
    ensures |parts| == |cs|
    decreases cs, 0
  {
    if |cs| == 0 then [] else [PrintNode(cs[0])] + PrintAll(cs[1..])
  }

  lemma ItoaBytes(v: int)
    ensures IsByteString(Itoa(v))
  {
    var t := Itoa(v);
    forall k | 0 <= k < |t| ensures t[k] as int < 256 {
      if k > 0 {
        assert t[k] == t[1..][k - 1];
      }
    }
  }

  lemma BytesConcat(a: string, b: string)
    requires IsByteString(a) && IsByteString(b)
    ensures IsByteString(a + b)
  {
    assert forall k :: |a| <= k < |a + b| ==> (a + b)[k] == b[k - |a|];
  }

  /** The printer writes only ASCII, one byte per char. */
  lemma {:induction false} PrintNodeBytes(n: Node)
    ensures IsByteString(PrintNode(n))
    decreases n, 1
  {
    ItoaBytes(n.width);
    ItoaBytes(n.height);
    ItoaBytes(n.x);
    ItoaBytes(n.y);
    BytesConcat(Itoa(n.width), "x");
    BytesConcat(Itoa(n.width) + "x", Itoa(n.height));
    BytesConcat(Itoa(n.width) + "x" + Itoa(n.height), ",");
    BytesConcat(Itoa(n.width) + "x" + Itoa(n.height) + ",", Itoa(n.x));
    BytesConcat(Itoa(n.width) + "x" + Itoa(n.height) + "," + Itoa(n.x), ",");
    BytesConcat(Itoa(n.width) + "x" + Itoa(n.height) + "," + Itoa(n.x) + ",", Itoa(n.y));
    PrintTailBytes(n);
    BytesConcat(PrintGeometry(n), PrintTail(n));
  }

  lemma {:induction false} PrintTailBytes(n: Node)
    ensures IsByteString(PrintTail(n))
    decreases n, 0
  {
    match n.split
    case SplitNone =>
      ItoaBytes(n.paneId);
      BytesConcat(",", Itoa(n.paneId));
    case _ =>
      var open, close := if n.split == SplitHorizontal then "{" else "[", if n.split == SplitHorizontal then "}" else "]";
      PrintAllBytes(n.children);
      JoinByteString(PrintAll(n.children), ',');
      BytesConcat(open, PrintChildren(n.children));
      BytesConcat(open + PrintChildren(n.children), close);
      assert PrintTail(n) == open + PrintChildren(n.children) + close;
  }

  lemma {:induction false} PrintAllBytes(cs: seq<Node>)
    ensures forall k :: 0 <= k < |cs| ==> IsByteString(PrintAll(cs)[k])
    decreases cs, 0
  {
    if |cs| > 0 {
      PrintNodeBytes(cs[0]);
      PrintAllBytes(cs[1..]);
      var ps := PrintAll(cs);
      assert ps == [PrintNode(cs[0])] + PrintAll(cs[1..]);
      forall k | 0 <= k < |cs| ensures IsByteString(ps[k]) {
        if k > 0 {
          assert ps[k] == PrintAll(cs[1..])[k - 1];
        }
      }
    }
  }

  /** `BuildLayout`: the body prefixed by its own checksum and a comma. */
  function BuildLayout(n: Node): (s: string)
    ensures |s| > 5 && s[4] == ','
    ensures IsByteString(s[5..]) && s[..4] == Hex4(Checksum(s[5..]))
  {
    var body := PrintNode(n);
    PrintNodeBytes(n);
    var s := Hex4(Checksum(body)) + "," + body;
    assert s[5..] == body;
    s
  }

  // ---------------------------------------------------------------------
  // Round trip

  /** What the printer can print and the parser read back. */
  predicate Encodable(n: Node)
  {
    InRange(n.width) && InRange(n.height) && InRange(n.x) && InRange(n.y) && InRange(n.paneId) &&
    (n.split == SplitNone ==> n.children == []) &&
    (n.split != SplitNone ==> n.paneId == -1) &&
    forall i :: 0 <= i < |n.children| ==> Encodable(n.children[i])
  }

  /** The printed children are bytes when each child is. */
  lemma {:induction false} JoinByteString(parts: seq<string>, sep: char)
    requires sep as int < 256
    requires forall k :: 0 <= k < |parts| ==> IsByteString(parts[k])
    ensures IsByteString(Join(parts, sep))
  {
    if |parts| > 1 {
      JoinByteString(parts[1..], sep);
    }
  }

  /** A `%d` field followed by the delimiter the parser looks for. */
  lemma ReadPrintedField(v: int, c: char, rest: string, missing: ParseError, bad: ParseError)
    requires InRange(v) && NotDecimal(c)
    ensures ReadField(Itoa(v) + [c] + rest, c, missing, bad) == Ok((v, rest))
  {
    var s := Itoa(v) + [c] + rest;
    NotInItoa(v, c);
    IndexOfAfter(Itoa(v), c, rest);
    assert s[..|Itoa(v)|] == Itoa(v);
    assert s[|Itoa(v)| + 1..] == rest;
    AtoiItoa(v);
  }

  lemma {:induction false} ScanToAfter(a: string, b: string, k: Scan)
    requires forall j :: 0 <= j < |a| ==> !Stops(k, a[j])
    requires b == [] || Stops(k, b[0])
    ensures ScanTo(a + b, k) == |a|
  {
    if |a| > 0 {
      assert (a + b)[1..] == a[1..] + b;
      ScanToAfter(a[1..], b, k);
    }
  }

  /** A `%d` field ended by one of the scans. */
  lemma ScanPrintedField(v: int, k: Scan, rest: string)
    requires InRange(v)
    requires rest == [] || Stops(k, rest[0])
    ensures ScanTo(Itoa(v) + rest, k) == |Itoa(v)|
    ensures (Itoa(v) + rest)[..|Itoa(v)|] == Itoa(v)
    ensures (Itoa(v) + rest)[|Itoa(v)|..] == rest
    ensures Field(Itoa(v)) == Some(v)
  {
    var t := Itoa(v);
    forall j | 0 <= j < |t| ensures !Stops(k, t[j]) {
      if j > 0 {
        assert t[j] == t[1..][j - 1];
      }
    }
    ScanToAfter(t, rest, k);
    AtoiItoa(v);
  }

  /** The node `ParseGeometry` builds from the printed geometry of `n`. */
  function Geometry(n: Node): Node
  {
    Node(n.width, n.height, n.x, n.y, -1, SplitNone, [])
  }

  /** The geometry reads back, and the parser stops where the printer went on. */
  lemma ParsePrintGeometry(n: Node, rest: string)
    requires InRange(n.width) && InRange(n.height) && InRange(n.x) && InRange(n.y)
    requires rest == [] || Stops(YField, rest[0])
    ensures ParseGeometry(PrintGeometry(n) + rest) == Ok((Geometry(n), rest))
  {
    var s3 := Itoa(n.y) + rest;
    var s2 := Itoa(n.x) + [','] + s3;
    var s1 := Itoa(n.height) + [','] + s2;
    var s := Itoa(n.width) + ['x'] + s1;
    GeometryText(n, rest);
    ReadPrintedField(n.width, 'x', s1, NoX, BadWidth);
    ReadPrintedField(n.height, ',', s2, NoCommaAfterHeight, BadHeight);
    ReadPrintedField(n.x, ',', s3, NoCommaAfterX, BadX);
    ScanPrintedField(n.y, YField, rest);
    GeometryFromFields(s, s1, s2, s3, Geometry(n), rest);
  }

  /** The printed geometry, grouped field by field from the right. */
  lemma GeometryText(n: Node, rest: string)
    ensures PrintGeometry(n) + rest ==
      Itoa(n.width) + ['x'] + (Itoa(n.height) + [','] + (Itoa(n.x) + [','] + (Itoa(n.y) + rest)))
  {
  }

  /** `ParseGeometry` as the sequence of its four fields. */
  lemma GeometryFromFields(s: string, s1: string, s2: string, s3: string, node: Node, rest: string)
    requires ReadField(s, 'x', NoX, BadWidth) == Ok((node.width, s1))
    requires ReadField(s1, ',', NoCommaAfterHeight, BadHeight) == Ok((node.height, s2))
    requires ReadField(s2, ',', NoCommaAfterX, BadX) == Ok((node.x, s3))
    requires Field(s3[..ScanTo(s3, YField)]) == Some(node.y) && s3[ScanTo(s3, YField)..] == rest
    requires node.paneId == -1 && node.split == SplitNone && node.children == []
    ensures ParseGeometry(s) == Ok((node, rest))
  {
  }

  lemma Regroup(a: string, b: string, c: string, d: string, e: string)
    ensures a + b + c + d + e == a + (b + (c + d + e))
  {
  }

  /** A one-char prefix and what follows it. */
  lemma AfterFirst(c: char, t: string, suffix: string)
    ensures ([c] + t + suffix)[0] == c
    ensures ([c] + t + suffix)[1..] == t + suffix
  {
    assert ([c] + t + suffix)[1..] == t + suffix;
  }

  /** The pane-id branch of `ParseTail` on a printed id. */
  lemma ParseTailPaneId(node: Node, s: string, v: int, suffix: string)
    requires Encodable(node) && node.paneId == -1 && node.split == SplitNone
    requires |s| > 0 && s[0] == ',' && s[1..] == Itoa(v) + suffix
    requires InRange(v) && (suffix == [] || Stops(PaneIdField, suffix[0]))
    ensures ParseTail(node, s) == Ok((node.(paneId := v), suffix))
  {
    ScanPrintedField(v, PaneIdField, suffix);
  }

  /** The bracket branches of `ParseTail`, given what the list parses to. */
  lemma ParseTailBracketed(node: Node, s: string, split: SplitType, close: char, cs: seq<Node>, suffix: string)
    requires Encodable(node) && node.paneId == -1 && node.split == SplitNone
    requires (split == SplitHorizontal && |s| > 0 && s[0] == '{' && close == '}') ||
             (split == SplitVertical && |s| > 0 && s[0] == '[' && close == ']')
    requires ParseChildren(s[1..], close) == Ok((cs, suffix))
    ensures ParseTail(node, s) == Ok((node.(split := split, children := cs), suffix))
  {
  }

  /** The printed id or children read back onto the geometry. */
  lemma {:induction false} ParsePrintTail(n: Node, suffix: string)
    requires Encodable(n)
    requires suffix == [] || Stops(PaneIdField, suffix[0])
    ensures ParseTail(Geometry(n), PrintTail(n) + suffix) == Ok((n, suffix))
    decreases n, 1
  {
    match n.split
    case SplitNone =>
      AfterFirst(',', Itoa(n.paneId), suffix);
      ParseTailPaneId(Geometry(n), PrintTail(n) + suffix, n.paneId, suffix);
      assert Geometry(n).(paneId := n.paneId) == n;
    case SplitHorizontal =>
      ParsePrintBracketed(n, '{', '}', suffix);
    case SplitVertical =>
      ParsePrintBracketed(n, '[', ']', suffix);
  }

  lemma {:induction false} ParsePrintBracketed(n: Node, open: char, close: char, suffix: string)
    requires Encodable(n)
    requires (n.split == SplitHorizontal && open == '{' && close == '}') ||
             (n.split == SplitVertical && open == '[' && close == ']')
    requires suffix == [] || Stops(PaneIdField, suffix[0])
    ensures ParseTail(Geometry(n), PrintTail(n) + suffix) == Ok((n, suffix))
    decreases n, 0
  {
    var inner := PrintChildren(n.children) + [close];
    assert PrintTail(n) == [open] + inner;
    AfterFirst(open, inner, suffix);
    ParsePrintChildren(n.children, close, suffix);
    ParseTailBracketed(Geometry(n), PrintTail(n) + suffix, n.split, close, n.children, suffix);
    assert Geometry(n).(split := n.split, children := n.children) == n;
  }

  /** Printing a node and parsing it back, with whatever text follows it. */
  lemma {:induction false} ParsePrintNode(n: Node, suffix: string)
    requires Encodable(n)
    requires suffix == [] || Stops(PaneIdField, suffix[0])
    ensures ParseNode(PrintNode(n) + suffix) == Ok((n, suffix))
    decreases n, 3
  {
    var rest := PrintTail(n) + suffix;
    assert PrintNode(n) + suffix == PrintGeometry(n) + rest;
    ParsePrintGeometry(n, rest);
    ParsePrintTail(n, suffix);
  }

  /** The first child printed, then a comma, then the others. */
  lemma PrintChildrenCons(cs: seq<Node>)
    requires |cs| > 1
    ensures PrintChildren(cs) == PrintNode(cs[0]) + [','] + PrintChildren(cs[1..])
  {
    assert PrintAll(cs)[1..] == PrintAll(cs[1..]);
  }

  /** A single child is printed alone. */
  lemma PrintChildrenOne(cs: seq<Node>)
    requires |cs| == 1
    ensures PrintChildren(cs) == PrintNode(cs[0])
    ensures PrintChildren(cs[1..]) == []
  {
    assert PrintAll(cs[1..]) == [];
    assert PrintAll(cs) == [PrintNode(cs[0])];
  }

  /**
   * The printed list of two or more children split after the first: a
   * comma, then the printed list of the others.
   */
  lemma PrintedChildrenSplit(cs: seq<Node>, close: char, suffix: string) returns (after: string)
    requires |cs| > 1
    ensures PrintChildren(cs) + [close] + suffix == PrintNode(cs[0]) + after
    ensures |after| > 0 && after[0] == ','
    ensures after[1..] == PrintChildren(cs[1..]) + [close] + suffix
  {
    PrintChildrenCons(cs);
    Regroup(PrintNode(cs[0]), [','], PrintChildren(cs[1..]), [close], suffix);
    after := [','] + (PrintChildren(cs[1..]) + [close] + suffix);
  }

  /** An empty list is only its closing bracket. */
  lemma ParseNoChildren(close: char, suffix: string)
    requires close == '}' || close == ']'
    ensures ParseChildren(PrintChildren([]) + [close] + suffix, close) == Ok(([], suffix))
  {
    assert PrintAll([]) == [];
    assert PrintChildren([]) + [close] + suffix == [close] + suffix;
    ClosingBracket(close, suffix);
  }

  /** Printing a list of children with its closing bracket and parsing it back. */
  lemma {:induction false} ParsePrintChildren(cs: seq<Node>, close: char, suffix: string)
    requires close == '}' || close == ']'
    requires forall i :: 0 <= i < |cs| ==> Encodable(cs[i])
    ensures ParseChildren(PrintChildren(cs) + [close] + suffix, close) == Ok((cs, suffix))
    decreases cs, 3
  {
    if |cs| == 0 {
      ParseNoChildren(close, suffix);
    } else if |cs| == 1 {
      ParsePrintOneChild(cs, close, suffix);
    } else {
      assert [cs[0]] + cs[1..] == cs;
      ParsePrintManyChildren(cs[0], cs[1..], close, suffix);
    }
  }

  lemma {:induction false} ParsePrintOneChild(cs: seq<Node>, close: char, suffix: string)
    requires |cs| == 1 && (close == '}' || close == ']')
    requires Encodable(cs[0])
    ensures ParseChildren(PrintChildren(cs) + [close] + suffix, close) == Ok((cs, suffix))
    decreases cs, 1
  {
    var s := OneChildText(cs, close, suffix);
    ParsePrintNode(cs[0], [close] + suffix);
    LastChild(s, cs[0], close, suffix);
    assert [cs[0]] == cs;
  }

  /** A single printed child, its closing bracket and what follows. */
  lemma OneChildText(cs: seq<Node>, close: char, suffix: string) returns (s: string)
    requires |cs| == 1 && (close == '}' || close == ']')
    ensures s == PrintNode(cs[0]) + ([close] + suffix)
    ensures PrintChildren(cs) + [close] + suffix == s
    ensures |s| > 0 && s[0] != close
  {
    PrintChildrenOne(cs);
    s := PrintNode(cs[0]) + ([close] + suffix);
  }

  /** A list whose only child is followed by the closing bracket. */
  lemma LastChild(s: string, child: Node, close: char, suffix: string)
    requires close == '}' || close == ']'
    requires |s| > 0 && s[0] != close
    requires ParseNode(s) == Ok((child, [close] + suffix))
    ensures ParseChildren(s, close) == Ok(([child], suffix))
  {
    ParseChildrenStep(s, close);
    ClosingBracket(close, suffix);
    PrefixedOne(child, ParseChildren([close] + suffix, close), suffix);
  }

  lemma PrefixedOne(child: Node, r: Result<(seq<Node>, string), ParseError>, suffix: string)
    requires r == Ok(([], suffix))
    ensures Prefixed([child], r) == Ok(([child], suffix))
  {
    assert [child] + [] == [child];
  }

  /** The closing bracket ends a list. */
  lemma ClosingBracket(close: char, suffix: string)
    requires close == '}' || close == ']'
    ensures SkipComma([close] + suffix) == [close] + suffix
    ensures ParseChildren([close] + suffix, close) == Ok(([], suffix))
  {
    assert ([close] + suffix)[1..] == suffix;
  }

  lemma {:induction false} ParsePrintManyChildren(head: Node, tail: seq<Node>, close: char, suffix: string)
    requires |tail| > 0 && (close == '}' || close == ']')
    requires Encodable(head)
    requires forall i :: 0 <= i < |tail| ==> Encodable(tail[i])
    ensures ParseChildren(PrintChildren([head] + tail) + [close] + suffix, close) == Ok(([head] + tail, suffix))
    decreases [head] + tail, 2
  {
    var cs := [head] + tail;
    assert cs[0] == head && cs[1..] == tail;
    ParsePrintChildren(tail, close, suffix);
    ParsePrintNextChild(cs, close, suffix);
  }

  /** Once the later children read back, the first one can be put in front. */
  lemma ParsePrintNextChild(cs: seq<Node>, close: char, suffix: string)
    requires |cs| > 1 && (close == '}' || close == ']')
    requires Encodable(cs[0])
    requires ParseChildren(PrintChildren(cs[1..]) + [close] + suffix, close) == Ok((cs[1..], suffix))
    ensures ParseChildren(PrintChildren(cs) + [close] + suffix, close) == Ok(([cs[0]] + cs[1..], suffix))
    decreases cs, 1
  {
    var s, after := ParsePrintFirstChild(cs, close, suffix);
    NextChild(s, cs[0], after, close, cs[1..], suffix);
  }

  /** The first of several printed children reads back, up to the comma after it. */
  lemma {:induction false} ParsePrintFirstChild(cs: seq<Node>, close: char, suffix: string) returns (s: string, after: string)
    requires |cs| > 1 && (close == '}' || close == ']')
    requires Encodable(cs[0])
    ensures s == PrintChildren(cs) + [close] + suffix
    ensures |s| > 0 && s[0] != close
    ensures ParseNode(s) == Ok((cs[0], after))
    ensures |after| > 0 && after[0] == ','
    ensures after[1..] == PrintChildren(cs[1..]) + [close] + suffix
    decreases cs, 0
  {
    after := PrintedChildrenSplit(cs, close, suffix);
    s := PrintNode(cs[0]) + after;
    ParsePrintNode(cs[0], after);
  }

  /** A child followed by a comma and the rest of the list. */
  lemma NextChild(s: string, child: Node, after: string, close: char, others: seq<Node>, suffix: string)
    requires close == '}' || close == ']'
    requires |s| > 0 && s[0] != close
    requires ParseNode(s) == Ok((child, after))
    requires |after| > 0 && after[0] == ','
    requires ParseChildren(after[1..], close) == Ok((others, suffix))
    ensures ParseChildren(s, close) == Ok(([child] + others, suffix))
  {
    ParseChildrenStep(s, close);
    assert SkipComma(after) == after[1..];
  }

  /** Parsing what `BuildLayout` printed gives the tree back. */
  lemma ParseBuildLayout(t: Node)
    requires Encodable(t)
    ensures ParseLayout(BuildLayout(t)) == Ok(t)
  {
    var body := PrintNode(t);
    PrintNodeBytes(t);
    var h := Hex4(Checksum(body));
    assert ',' !in h by {
      forall k | 0 <= k < |h| ensures h[k] != ',' {
        assert IsLowerHexDigit(h[k]);
      }
    }
    IndexOfAfter(h, ',', body);
    assert BuildLayout(t)[|h| + 1..] == body + [];
    ParsePrintNode(t, []);
  }

  /**
   * Any checksum text without a comma in front of a printed tree parses
   * back to that tree: the checksum is never checked.
   */
  lemma ParseAnyChecksum(t: Node, sum: string)
    requires Encodable(t) && ',' !in sum
    ensures ParseLayout(sum + "," + PrintNode(t)) == Ok(t)
  {
    var body := PrintNode(t);
    PrintNodeBytes(t);
    IndexOfAfter(sum, ',', body);
    assert (sum + "," + body)[|sum| + 1..] == body + [];
    ParsePrintNode(t, []);
  }

  /**
   * Decode, encode, decode: every successfully parsed layout is rebuilt
   * into a string that parses to the same tree (only the checksum text may
   * differ from the original's).
   */
  lemma ReparseBuiltLayout(text: string)
    requires ParseLayout(text).Ok?
    ensures ParseLayout(BuildLayout(ParseLayout(text).value)) == ParseLayout(text)
  {
    ParseBuildLayout(ParseLayout(text).value);
  }

  /** The checksum field is skipped, never checked: only the body matters. */
  lemma ChecksumIgnored(sum1: string, sum2: string, body: string)
    requires ',' !in sum1 && ',' !in sum2
    ensures ParseLayout(sum1 + "," + body) == ParseLayout(sum2 + "," + body)
  {
    IndexOfAfter(sum1, ',', body);
    IndexOfAfter(sum2, ',', body);
    assert (sum1 + "," + body)[|sum1| + 1..] == body;
    assert (sum2 + "," + body)[|sum2| + 1..] == body;
  }

  // ---------------------------------------------------------------------
  // How the parser fails

  /** A field followed by its delimiter: `strconv.Atoi`'s value and the text after, or the bad error. */
  lemma ReadFieldOf(f: string, delim: char, rest: string, missing: ParseError, bad: ParseError)
    requires delim !in f
    ensures Atoi(f).Parsed? ==> ReadField(f + [delim] + rest, delim, missing, bad) == Ok((Atoi(f).value, rest))
    ensures !Atoi(f).Parsed? ==> ReadField(f + [delim] + rest, delim, missing, bad) == Err(bad)
  {
    var s := f + [delim] + rest;
    IndexOfAfter(f, delim, rest);
    assert s[..|f|] == f;
    assert s[|f| + 1..] == rest;
  }

  /** The layout fails exactly as its body's first node does. */
  lemma FailingBody(sum: string, body: string)
    requires ',' !in sum && ParseNode(body).Err?
    ensures ParseLayout(sum + "," + body) == Err(ParseNode(body).error)
  {
    IndexOfAfter(sum, ',', body);
    assert (sum + "," + body)[|sum| + 1..] == body;
  }

  /** A body without an `x` fails with the no-`x` error. */
  lemma LayoutNoX(sum: string, body: string)
    requires ',' !in sum && 'x' !in body
    ensures ParseLayout(sum + "," + body) == Err(NoX)
  {
    ParsedNode(body);
    FailingBody(sum, body);
  }

  /** A width that `strconv.Atoi` refuses fails with the bad-width error. */
  lemma LayoutBadWidth(sum: string, w: string, rest: string)
    requires ',' !in sum && 'x' !in w && !Atoi(w).Parsed?
    ensures ParseLayout(sum + "," + (w + "x" + rest)) == Err(BadWidth)
  {
    ReadFieldOf(w, 'x', rest, NoX, BadWidth);
    FailingBody(sum, w + "x" + rest);
  }

  /** A height with no comma after it fails with the missing-comma error. */
  lemma LayoutNoCommaAfterHeight(sum: string, w: string, h: string)
    requires ',' !in sum && 'x' !in w && Atoi(w).Parsed? && ',' !in h
    ensures ParseLayout(sum + "," + (w + "x" + h)) == Err(NoCommaAfterHeight)
  {
    ReadFieldOf(w, 'x', h, NoX, BadWidth);
    FailingBody(sum, w + "x" + h);
  }

  /** A height that `strconv.Atoi` refuses fails with the bad-height error. */
  lemma LayoutBadHeight(sum: string, w: string, h: string, rest: string)
    requires ',' !in sum && 'x' !in w && Atoi(w).Parsed?
    requires ',' !in h && !Atoi(h).Parsed?
    ensures ParseLayout(sum + "," + (w + "x" + (h + "," + rest))) == Err(BadHeight)
  {
    ReadFieldOf(w, 'x', h + "," + rest, NoX, BadWidth);
    ReadFieldOf(h, ',', rest, NoCommaAfterHeight, BadHeight);
    FailingBody(sum, w + "x" + (h + "," + rest));
  }

  /** An x offset with no comma after it fails with the missing-comma error. */
  lemma LayoutNoCommaAfterX(sum: string, w: string, h: string, xs: string)
    requires ',' !in sum && 'x' !in w && Atoi(w).Parsed?
    requires ',' !in h && Atoi(h).Parsed? && ',' !in xs
    ensures ParseLayout(sum + "," + (w + "x" + (h + "," + xs))) == Err(NoCommaAfterX)
  {
    ReadFieldOf(w, 'x', h + "," + xs, NoX, BadWidth);
    ReadFieldOf(h, ',', xs, NoCommaAfterHeight, BadHeight);
    FailingBody(sum, w + "x" + (h + "," + xs));
  }

  /** An x offset that `strconv.Atoi` refuses fails with the bad-x error. */
  lemma LayoutBadX(sum: string, w: string, h: string, xs: string, rest: string)
    requires ',' !in sum && 'x' !in w && Atoi(w).Parsed?
    requires ',' !in h && Atoi(h).Parsed? && ',' !in xs && !Atoi(xs).Parsed?
    ensures ParseLayout(sum + "," + (w + "x" + (h + "," + (xs + "," + rest)))) == Err(BadX)
  {
    ReadFieldOf(w, 'x', h + "," + (xs + "," + rest), NoX, BadWidth);
    ReadFieldOf(h, ',', xs + "," + rest, NoCommaAfterHeight, BadHeight);
    ReadFieldOf(xs, ',', rest, NoCommaAfterX, BadX);
    FailingBody(sum, w + "x" + (h + "," + (xs + "," + rest)));
  }

  /**
   * A y offset that `strconv.Atoi` refuses fails with the bad-y error; y
   * runs up to the first comma or bracket, or to the end.
   */
  lemma LayoutBadY(sum: string, w: string, h: string, xs: string, y: string, rest: string)
    requires ',' !in sum && 'x' !in w && Atoi(w).Parsed?
    requires ',' !in h && Atoi(h).Parsed? && ',' !in xs && Atoi(xs).Parsed?
    requires forall j :: 0 <= j < |y| ==> !Stops(YField, y[j])
    requires rest == [] || Stops(YField, rest[0])
    requires !Atoi(y).Parsed?
    ensures ParseLayout(sum + "," + (w + "x" + (h + "," + (xs + "," + (y + rest))))) == Err(BadY)
  {
    var s3 := y + rest;
    ReadFieldOf(w, 'x', h + "," + (xs + "," + s3), NoX, BadWidth);
    ReadFieldOf(h, ',', xs + "," + s3, NoCommaAfterHeight, BadHeight);
    ReadFieldOf(xs, ',', s3, NoCommaAfterX, BadX);
    ScanToAfter(y, rest, YField);
    assert s3[..|y|] == y;
    FailingBody(sum, w + "x" + (h + "," + (xs + "," + s3)));
  }

  /**
   * A pane id that `strconv.Atoi` refuses fails with the bad-pane-id
   * error; the id runs up to the first comma or closing bracket, or to the
   * end.
   */
  lemma LayoutBadPaneId(sum: string, n: Node, id: string, rest: string)
    requires ',' !in sum
    requires InRange(n.width) && InRange(n.height) && InRange(n.x) && InRange(n.y)
    requires forall j :: 0 <= j < |id| ==> !Stops(PaneIdField, id[j])
    requires rest == [] || Stops(PaneIdField, rest[0])
    requires !Atoi(id).Parsed?
    ensures ParseLayout(sum + "," + (PrintGeometry(n) + ("," + (id + rest)))) == Err(BadPaneId)
  {
    var tail := "," + (id + rest);
    ParsePrintGeometry(n, tail);
    TailBadPaneId(Geometry(n), id, rest);
    FailingBody(sum, PrintGeometry(n) + tail);
  }

  /** The pane-id branch of the switch after y, on an id `strconv.Atoi` refuses. */
  lemma TailBadPaneId(node: Node, id: string, rest: string)
    requires forall j :: 0 <= j < |id| ==> !Stops(PaneIdField, id[j])
    requires rest == [] || Stops(PaneIdField, rest[0])
    requires !Atoi(id).Parsed?
    ensures ParseTail(node, "," + (id + rest)) == Err(BadPaneId)
  {
    var tail := "," + (id + rest);
    assert tail[1..] == id + rest;
    ScanToAfter(id, rest, PaneIdField);
    assert (id + rest)[..|id|] == id;
  }

  /** A layout from the pane-count tests with its width mistyped. */
  lemma BadWidthExample()
    ensures ParseLayout("1234,ax5,0,0,1") == Err(BadWidth)
  {
    assert "1234,ax5,0,0,1" == "1234" + "," + ("a" + "x" + "5,0,0,1");
    assert !Atoi("a").Parsed? by {
      assert !IsDigit('a') && DigitRun("a") == [];
    }
    LayoutBadWidth("1234", "a", "5,0,0,1");
  }

  // ---------------------------------------------------------------------
  // What the parser lets through

  /** Whatever follows the tree (from a comma or a closing bracket on) is ignored. */
  lemma TrailingTextIgnored(t: Node, suffix: string)
    requires Encodable(t)
    requires suffix == [] || Stops(PaneIdField, suffix[0])
    ensures ParseLayout(BuildLayout(t) + suffix) == Ok(t)
  {
    var body := PrintNode(t);
    PrintNodeBytes(t);
    var h := Hex4(Checksum(body));
    assert ',' !in h by {
      forall k | 0 <= k < |h| ensures h[k] != ',' {
        assert IsLowerHexDigit(h[k]);
      }
    }
    assert BuildLayout(t) + suffix == h + "," + (body + suffix);
    ParsePrintNode(t, suffix);
    ReadingBody(h, body + suffix);
  }

  /** A layout that stops right after the y field is read as a pane with id -1. */
  lemma EndsAfterY(sum: string, n: Node)
    requires ',' !in sum
    requires InRange(n.width) && InRange(n.height) && InRange(n.x) && InRange(n.y)
    ensures ParseLayout(sum + "," + PrintGeometry(n)) == Ok(Node(n.width, n.height, n.x, n.y, -1, SplitNone, []))
  {
    var body := PrintGeometry(n);
    var text := sum + "," + body;
    assert text == sum + [','] + body;
    IndexOfAfter(sum, ',', body);
    assert text[|sum| + 1..] == body;
    assert body + [] == body;
    ParsePrintGeometry(n, []);
    assert ParseNode(body) == Ok((Geometry(n), []));
  }

  /** Behind comma-free checksum text, a body whose first node reads makes the layout that node. */
  lemma ReadingBody(sum: string, body: string)
    requires ',' !in sum && ParseNode(body).Ok?
    ensures ParseLayout(sum + "," + body) == Ok(ParseNode(body).value.0)
  {
    IndexOfAfter(sum, ',', body);
    assert (sum + "," + body)[|sum| + 1..] == body;
  }

  /** The body of an unclosed split: the geometry, `{` and one printed child, and nothing after. */
  lemma UnclosedBody(n: Node, child: Node)
    requires InRange(n.width) && InRange(n.height) && InRange(n.x) && InRange(n.y)
    requires Encodable(child)
    ensures ParseNode(PrintGeometry(n) + ("{" + PrintNode(child))) ==
      Ok((Node(n.width, n.height, n.x, n.y, -1, SplitHorizontal, [child]), []))
  {
    var open := "{" + PrintNode(child);
    ParsePrintGeometry(n, open);
    var inner := PrintNode(child);
    assert open[1..] == inner;
    ParsePrintNode(child, []);
    assert inner + [] == inner;
    assert ParseNode(inner) == Ok((child, []));
    ParseChildrenStep(inner, '}');
    assert SkipComma([]) == [] && ParseChildren([], '}') == Ok(([], []));
    PrefixedOne(child, ParseChildren([], '}'), []);
    assert ParseTail(Geometry(n), open) == Ok((Node(n.width, n.height, n.x, n.y, -1, SplitHorizontal, [child]), []));
  }

  /** A side-by-side split of one child whose text ends before its `}` is read as if it were closed. */
  lemma UnclosedBracket(sum: string, n: Node, child: Node)
    requires ',' !in sum
    requires InRange(n.width) && InRange(n.height) && InRange(n.x) && InRange(n.y)
    requires Encodable(child)
    ensures ParseLayout(sum + "," + PrintGeometry(n) + "{" + PrintNode(child)) ==
      Ok(Node(n.width, n.height, n.x, n.y, -1, SplitHorizontal, [child]))
  {
    var body := PrintGeometry(n) + ("{" + PrintNode(child));
    assert sum + "," + PrintGeometry(n) + "{" + PrintNode(child) == sum + "," + body;
    UnclosedBody(n, child);
    ReadingBody(sum, body);
  }

  /**
   * A split of any kind and any number of children whose text ends right
   * before its closing bracket is read as if the bracket were there.
   */
  lemma UnclosedSplit(sum: string, t: Node)
    requires ',' !in sum && Encodable(t)
    requires t.split != SplitNone && |t.children| >= 1
    ensures ParseLayout(sum + "," + PrintNode(t)[..|PrintNode(t)| - 1]) == Ok(t)
  {
    var open := if t.split == SplitHorizontal then '{' else '[';
    var close := if t.split == SplitHorizontal then '}' else ']';
    var inner := [open] + PrintChildren(t.children);
    var body := PrintGeometry(t) + inner;
    assert PrintNode(t) == body + [close];
    assert PrintNode(t)[..|PrintNode(t)| - 1] == body;
    ParsePrintGeometry(t, inner);
    ParseUnclosedChildren(t.children, close);
    assert inner[1..] == PrintChildren(t.children);
    ParseTailBracketed(Geometry(t), inner, t.split, close, t.children, []);
    assert Geometry(t).(split := t.split, children := t.children) == t;
    assert ParseNode(body) == Ok((t, []));
    ReadingBody(sum, body);
  }

  /** Printed children with no closing bracket after them read back, the text used up. */
  lemma {:induction false} ParseUnclosedChildren(cs: seq<Node>, close: char)
    requires close == '}' || close == ']'
    requires |cs| >= 1 && forall i :: 0 <= i < |cs| ==> Encodable(cs[i])
    ensures ParseChildren(PrintChildren(cs), close) == Ok((cs, []))
    decreases cs, 1
  {
    if |cs| == 1 {
      UnclosedLastChild(cs, close);
    } else {
      assert [cs[0]] + cs[1..] == cs;
      UnclosedManyChildren(cs[0], cs[1..], close);
    }
  }

  lemma {:induction false} UnclosedManyChildren(head: Node, tail: seq<Node>, close: char)
    requires |tail| > 0 && (close == '}' || close == ']')
    requires Encodable(head)
    requires forall i :: 0 <= i < |tail| ==> Encodable(tail[i])
    ensures ParseChildren(PrintChildren([head] + tail), close) == Ok(([head] + tail, []))
    decreases [head] + tail, 0
  {
    var cs := [head] + tail;
    assert cs[0] == head && cs[1..] == tail;
    ParseUnclosedChildren(tail, close);
    UnclosedNextChild(cs, close);
  }

  /** Once the later children read back, the first one can be put in front. */
  lemma UnclosedNextChild(cs: seq<Node>, close: char)
    requires close == '}' || close == ']'
    requires |cs| > 1 && Encodable(cs[0])
    requires ParseChildren(PrintChildren(cs[1..]), close) == Ok((cs[1..], []))
    ensures ParseChildren(PrintChildren(cs), close) == Ok(([cs[0]] + cs[1..], []))
  {
    var s, after := UnclosedFirstChild(cs, close);
    NextChild(s, cs[0], after, close, cs[1..], []);
  }

  /** A single printed child with nothing after it. */
  lemma UnclosedLastChild(cs: seq<Node>, close: char)
    requires close == '}' || close == ']'
    requires |cs| == 1 && Encodable(cs[0])
    ensures ParseChildren(PrintChildren(cs), close) == Ok((cs, []))
  {
    PrintChildrenOne(cs);
    var s := PrintNode(cs[0]);
    ParsePrintNode(cs[0], []);
    assert s + [] == s;
    OnlyChild(s, cs[0], close);
    assert [cs[0]] == cs;
  }

  /** A list whose only child uses up the text. */
  lemma OnlyChild(s: string, child: Node, close: char)
    requires close == '}' || close == ']'
    requires |s| > 0 && s[0] != close
    requires ParseNode(s) == Ok((child, []))
    ensures ParseChildren(s, close) == Ok(([child], []))
  {
    ParseChildrenStep(s, close);
    assert SkipComma([]) == [] && ParseChildren([], close) == Ok(([], []));
    PrefixedOne(child, ParseChildren([], close), []);
  }

  /** The first of several printed children, up to the comma before the others. */
  lemma UnclosedFirstChild(cs: seq<Node>, close: char) returns (s: string, after: string)
    requires close == '}' || close == ']'
    requires |cs| > 1 && Encodable(cs[0])
    ensures s == PrintChildren(cs) && |s| > 0 && s[0] != close
    ensures ParseNode(s) == Ok((cs[0], after))
    ensures |after| > 0 && after[0] == ','
    ensures after[1..] == PrintChildren(cs[1..])
  {
    after := ChildrenText(cs);
    s := PrintNode(cs[0]) + after;
    ParsePrintNode(cs[0], after);
  }

  /** Several printed children: the first, then a comma and the others. */
  lemma ChildrenText(cs: seq<Node>) returns (after: string)
    requires |cs| > 1
    ensures PrintChildren(cs) == PrintNode(cs[0]) + after
    ensures |after| > 0 && after[0] == ','
    ensures after[1..] == PrintChildren(cs[1..])
  {
    PrintChildrenCons(cs);
    after := [','] + PrintChildren(cs[1..]);
    Regroup3(PrintNode(cs[0]), [','], PrintChildren(cs[1..]));
  }

  lemma Regroup3(a: string, b: string, c: string)
    ensures a + b + c == a + (b + c)
  {
  }
}
