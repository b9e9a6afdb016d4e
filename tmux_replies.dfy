/**
 * What tmux.go makes of tmux's replies: the zoom percentage option, the
 * focused pane's id, the window size and the pane list.
 *
 * A reply is what `TmuxCmd` hands back: `None` when the tmux command
 * failed, otherwise its output with the surrounding white space already
 * trimmed.
 */
module TmuxReplies {
  import opened GoStd
  import Zoom

  /** Why a query yields no value: tmux failed, or `strconv.Atoi` refused the text. */
  datatype QueryError = CommandFailed | NotAnInteger | OutOfRange

  /** `strconv.Atoi` with its error kept. */
  function ParseInt(s: string): (r: Result<int, QueryError>)
    ensures r.Ok? <==> IsInteger(s)
    ensures r.Ok? ==> Atoi(s) == Parsed(r.value)
  {
    AtoiAccepts(s);
    match Atoi(s)
    case Parsed(v) => Ok(v)
    case SyntaxError => Err(NotAnInteger)
    case RangeError(_) => Err(OutOfRange)
  }

  // ---------------------------------------------------------------------
  // GetZoomPercent

  /**
   * `GetZoomPercent`: the `@focus-zoom-percent` option when it is an
   * integer from 10 to 95, and the default 65 otherwise (tmux failing, the
   * option unset, not a number, or out of that range).
   */
  function ZoomPercent(reply: Option<string>): (p: int)
    ensures 10 <= p <= 95
    ensures p != Zoom.DefaultZoomPercent ==> reply.Some? && Atoi(reply.value) == Parsed(p)
  {
    if reply.None? || reply.value == "" then Zoom.DefaultZoomPercent
    else
      var r := Atoi(reply.value);
      if !r.Parsed? || r.value < 10 || r.value > 95 then Zoom.DefaultZoomPercent
      else r.value
  }

  /**
   * A percentage set in range comes back as set, however it is written
   * (`50`, `050`, `+50`).
   */
  lemma ZoomPercentAsSet(s: string, v: int)
    requires Atoi(s) == Parsed(v) && 10 <= v <= 95
    ensures ZoomPercent(Some(s)) == v
  {
  }

  /** In particular the percentage as `%d` prints it. */
  lemma ZoomPercentPrinted(v: int)
    requires 10 <= v <= 95
    ensures ZoomPercent(Some(Itoa(v))) == v
  {
    AtoiItoa(v);
    ZoomPercentAsSet(Itoa(v), v);
  }

  /** Any integer outside 10..95, or any text that is not an integer, gives the default. */
  lemma ZoomPercentFallsBack(reply: Option<string>)
    ensures reply.None? ==> ZoomPercent(reply) == Zoom.DefaultZoomPercent
    ensures reply.Some? && !IsInteger(reply.value) ==> ZoomPercent(reply) == Zoom.DefaultZoomPercent
    ensures reply.Some? && Atoi(reply.value).Parsed? && !(10 <= Atoi(reply.value).value <= 95) ==>
      ZoomPercent(reply) == Zoom.DefaultZoomPercent
  {
    if reply.Some? {
      AtoiAccepts(reply.value);
    }
  }

  // ---------------------------------------------------------------------
  // GetActivePaneID

  /** The `#{pane_id}` text without its leading `%`, if it has one (only one is removed). */
  function StripPercent(s: string): (t: string)
    ensures |s| > 0 && s[0] == '%' ==> s == "%" + t
    ensures !(|s| > 0 && s[0] == '%') ==> t == s
  {
    if |s| > 0 && s[0] == '%' then s[1..] else s
  }

  /** `GetActivePaneID`: the number after the `%` of the focused pane's id. */
  function ActivePaneId(reply: Option<string>): (r: Result<int, QueryError>)
    ensures reply.None? ==> r == Err(CommandFailed)
    ensures reply.Some? ==> (r.Ok? <==> IsInteger(StripPercent(reply.value)))
    ensures r.Ok? ==> reply.Some? && Atoi(StripPercent(reply.value)) == Parsed(r.value)
  {
    if reply.None? then Err(CommandFailed) else ParseInt(StripPercent(reply.value))
  }

  /** tmux names pane 42 `%42`, and that reads back as 42; so does a bare `42`. */
  lemma ActivePaneIdRoundTrip(id: int)
    requires 0 <= id <= MaxInt
    ensures ActivePaneId(Some("%" + Itoa(id))) == Ok(id)
    ensures ActivePaneId(Some(Itoa(id))) == Ok(id)
  {
    AtoiItoa(id);
    assert ("%" + Itoa(id))[1..] == Itoa(id);
  }

  /** Only one `%` is stripped: `%%42` is an error, as is the bare `%`. */
  lemma ActivePaneIdErrors()
    ensures ActivePaneId(Some("%%42")) == Err(NotAnInteger)
    ensures ActivePaneId(Some("%")) == Err(NotAnInteger)
    ensures ActivePaneId(Some("")) == Err(NotAnInteger)
  {
    assert "%%42"[1..] == "%42";
    assert !IsDigit('%');
  }

  // ---------------------------------------------------------------------
  // GetWindowSize

  /**
   * `GetWindowSize`: the replies to the width and the height queries, both
   * of which must be integers. The errors come in the order the source
   * meets them: the width query, the height query, then parsing the width,
   * then the height.
   */
  function WindowSize(width: Option<string>, height: Option<string>): (r: Result<(int, int), QueryError>)
    ensures r.Ok? <==> width.Some? && height.Some? && IsInteger(width.value) && IsInteger(height.value)
    ensures r.Ok? ==> Atoi(width.value) == Parsed(r.value.0) && Atoi(height.value) == Parsed(r.value.1)
  {
    if width.None? || height.None? then Err(CommandFailed)
    else
      match ParseInt(width.value)
      case Err(e) => Err(e)
      case Ok(w) =>
        match ParseInt(height.value)
        case Err(e) => Err(e)
        case Ok(h) => Ok((w, h))
  }

  /** The size tmux prints reads back as that size. */
  lemma WindowSizeRoundTrip(w: int, h: int)
    requires InRange(w) && InRange(h)
    ensures WindowSize(Some(Itoa(w)), Some(Itoa(h))) == Ok((w, h))
  {
    AtoiItoa(w);
    AtoiItoa(h);
  }

  // ---------------------------------------------------------------------
  // GetPanes

  /** `PaneInfo`: one line of `list-panes`. */
  datatype PaneInfo = PaneInfo(
    id: string, index: int, width: int, height: int, left: int, top: int, active: bool)

  /**
   * One line of the `list-panes` reply: nothing for an empty line or one
   * that does not have exactly seven `:`-separated fields; otherwise the
   * id verbatim, the numbers as `strconv.Atoi` leaves them with its error
   * ignored, and active exactly when the last field is `1`.
   */
  function ParsePaneLine(line: string): (r: Option<PaneInfo>)
    ensures r.Some? <==> line != "" && |Split(line, ':')| == 7
    ensures r.Some? ==> r.value.id == Split(line, ':')[0] && ':' !in r.value.id
    ensures r.Some? ==> (r.value.active <==> Split(line, ':')[6] == "1")
    ensures r.Some? ==> r.value.index == AtoiValue(Split(line, ':')[1])
    ensures r.Some? ==> r.value.width == AtoiValue(Split(line, ':')[2])
    ensures r.Some? ==> r.value.height == AtoiValue(Split(line, ':')[3])
    ensures r.Some? ==> r.value.left == AtoiValue(Split(line, ':')[4])
    ensures r.Some? ==> r.value.top == AtoiValue(Split(line, ':')[5])
  {
    if line == "" then None
    else
      var parts := Split(line, ':');
      if |parts| != 7 then None
      else
        Some(PaneInfo(parts[0], AtoiValue(parts[1]), AtoiValue(parts[2]), AtoiValue(parts[3]),
                      AtoiValue(parts[4]), AtoiValue(parts[5]), parts[6] == "1"))
  }

  /** The panes of the lines that parse, in the order of the lines. */
  function PanesOf(lines: seq<string>): (ps: seq<PaneInfo>)
    ensures |ps| <= |lines|
  {
    if |lines| == 0 then []
    else
      var last := ParsePaneLine(lines[|lines| - 1]);
      PanesOf(lines[..|lines| - 1]) + (if last.Some? then [last.value] else [])
  }

  /** The loop of `GetPanes` over the lines of the `list-panes` reply. */
  method GetPanes(reply: Option<string>) returns (r: Result<seq<PaneInfo>, QueryError>)
    ensures reply.None? ==> r == Err(CommandFailed)
    ensures reply.Some? ==> r == Ok(PanesOf(Split(reply.value, '\n')))
  {
    if reply.None? {
      return Err(CommandFailed);
    }
    var lines := Split(reply.value, '\n');
    var panes: seq<PaneInfo> := [];
    for i := 0 to |lines|
      invariant panes == PanesOf(lines[..i])
    {
      assert lines[..i + 1][..i] == lines[..i];
      var line := lines[i];
      if line == "" {
        continue;
      }
      var parts := Split(line, ':');
      if |parts| != 7 {
        continue;
      }
      var index := AtoiValue(parts[1]);
      var width := AtoiValue(parts[2]);
      var height := AtoiValue(parts[3]);
      var left := AtoiValue(parts[4]);
      var top := AtoiValue(parts[5]);
      var active := parts[6] == "1";
      panes := panes + [PaneInfo(parts[0], index, width, height, left, top, active)];
    }
    assert lines[..|lines|] == lines;
    return Ok(panes);
  }

  /** The panes of two runs of lines are those of the first run, then those of the second. */
  lemma {:induction false} PanesOfAppend(a: seq<string>, b: seq<string>)
    ensures PanesOf(a + b) == PanesOf(a) + PanesOf(b)
    decreases |b|
  {
    if |b| > 0 {
      var m := |b| - 1;
      assert (a + b)[..|a + b| - 1] == a + b[..m];
      assert (a + b)[|a + b| - 1] == b[m];
      PanesOfAppend(a, b[..m]);
    } else {
      assert a + b == a;
    }
  }

  /** A single line gives its pane, or nothing when it does not parse. */
  lemma PanesOfOne(line: string)
    ensures PanesOf([line]) == (if ParsePaneLine(line).Some? then [ParsePaneLine(line).value] else [])
  {
    assert [line][..0] == [];
  }

  /**
   * The line tmux prints for a pane with the `list-panes` format
   * `#{pane_id}:#{pane_index}:#{pane_width}:#{pane_height}:#{pane_left}:#{pane_top}:#{pane_active}`.
   */
  function PaneLine(p: PaneInfo): string
  {
    Join(PaneFields(p), ':')
  }

  /** A pane whose id has no separator in it and whose numbers fit a Go int survives printing. */
  predicate Printable(p: PaneInfo)
  {
    ':' !in p.id && '\n' !in p.id &&
    InRange(p.index) && InRange(p.width) && InRange(p.height) && InRange(p.left) && InRange(p.top)
  }

  /** The fields of the line tmux prints for a pane. */
  function PaneFields(p: PaneInfo): (parts: seq<string>)
    ensures |parts| == 7
  {
    [p.id, Itoa(p.index), Itoa(p.width), Itoa(p.height), Itoa(p.left), Itoa(p.top),
     if p.active then "1" else "0"]
  }

  /** The printed line splits into the pane's fields again. */
  lemma SplitPaneLine(p: PaneInfo)
    requires Printable(p)
    ensures PaneLine(p) != "" && Split(PaneLine(p), ':') == PaneFields(p)
  {
    var parts := PaneFields(p);
    NotInItoa(p.index, ':');
    NotInItoa(p.width, ':');
    NotInItoa(p.height, ':');
    NotInItoa(p.left, ':');
    NotInItoa(p.top, ':');
    assert PaneLine(p) == Join(parts, ':');
    SplitJoin(parts, ':');
    assert Join(parts, ':') == p.id + [':'] + Join(parts[1..], ':');
  }

  /** Parsing the line tmux prints for a pane gives the pane back. */
  lemma ParsePaneLineRoundTrip(p: PaneInfo)
    requires Printable(p)
    ensures ParsePaneLine(PaneLine(p)) == Some(p)
  {
    SplitPaneLine(p);
    AtoiItoa(p.index);
    AtoiItoa(p.width);
    AtoiItoa(p.height);
    AtoiItoa(p.left);
    AtoiItoa(p.top);
  }

  /** A printed line never holds a line break. */
  lemma PaneLineOneLine(p: PaneInfo)
    requires Printable(p)
    ensures '\n' !in PaneLine(p)
  {
    var parts := PaneFields(p);
    NotInItoa(p.index, '\n');
    NotInItoa(p.width, '\n');
    NotInItoa(p.height, '\n');
    NotInItoa(p.left, '\n');
    NotInItoa(p.top, '\n');
    JoinFree(parts, ':', '\n');
  }

  /** Joining parts free of `c` with a separator other than `c` gives a string free of `c`. */
  lemma {:induction false} JoinFree(parts: seq<string>, sep: char, c: char)
    requires sep != c
    requires forall k :: 0 <= k < |parts| ==> c !in parts[k]
    ensures c !in Join(parts, sep)
  {
    if |parts| > 1 {
      JoinFree(parts[1..], sep, c);
    }
  }

  /** The lines tmux prints for a list of panes, one per pane. */
  function PaneLines(ps: seq<PaneInfo>): (lines: seq<string>)
    ensures |lines| == |ps|
  {
    if |ps| == 0 then [] else PaneLines(ps[..|ps| - 1]) + [PaneLine(ps[|ps| - 1])]
  }

  /** The reply tmux gives for a list of panes. */
  function ListReply(ps: seq<PaneInfo>): string
  {
    Join(PaneLines(ps), '\n')
  }

  /** `GetPanes` reads back every pane tmux listed, in order. */
  lemma GetPanesRoundTrip(ps: seq<PaneInfo>)
    requires forall i :: 0 <= i < |ps| ==> Printable(ps[i])
    ensures PanesOf(Split(ListReply(ps), '\n')) == ps
  {
    if |ps| == 0 {
      assert Split("", '\n') == [""];
      PanesOfOne("");
    } else {
      PaneLinesOneLine(ps);
      SplitJoin(PaneLines(ps), '\n');
      PanesOfPaneLines(ps);
    }
  }

  lemma {:induction false} PaneLinesOneLine(ps: seq<PaneInfo>)
    requires forall i :: 0 <= i < |ps| ==> Printable(ps[i])
    ensures forall k :: 0 <= k < |ps| ==> '\n' !in PaneLines(ps)[k]
  {
    if |ps| > 0 {
      var m := |ps| - 1;
      PaneLinesOneLine(ps[..m]);
      PaneLineOneLine(ps[m]);
    }
  }

  /** A last line that parses adds its pane at the end. */
  lemma PanesOfLast(lines: seq<string>, p: PaneInfo)
    requires |lines| > 0 && ParsePaneLine(lines[|lines| - 1]) == Some(p)
    ensures PanesOf(lines) == PanesOf(lines[..|lines| - 1]) + [p]
  {
  }

  /** The printed lines parse back to the panes, in order. */
  lemma {:induction false} PanesOfPaneLines(ps: seq<PaneInfo>)
    requires forall i :: 0 <= i < |ps| ==> Printable(ps[i])
    ensures PanesOf(PaneLines(ps)) == ps
  {
    if |ps| > 0 {
      var m := |ps| - 1;
      var lines := PaneLines(ps);
      assert lines[..m] == PaneLines(ps[..m]);
      PanesOfPaneLines(ps[..m]);
      ParsePaneLineRoundTrip(ps[m]);
      PanesOfLast(lines, ps[m]);
      LastSplit(ps);
    }
  }

  lemma LastSplit<T>(s: seq<T>)
    requires |s| > 0
    ensures s == s[..|s| - 1] + [s[|s| - 1]]
  {
  }
}
