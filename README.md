# tmux-focus-zoom, modelled in Dafny

tmux-focus-zoom enlarges the focused tmux pane. It reads the window's
layout string, parses it into a tree of nodes, and gives the child holding
the focused pane a configured percentage of the space at every split on
the path down to that pane. The other children shrink in proportion to
their old sizes. It then prints the tree back as a layout string with a
fresh checksum, for `select-layout` to apply. When the layout cannot be
parsed, a fallback groups the panes into columns and rows by their
offsets.

This project models that core and proves properties of it:

- `GoStd` (`gostd.dfy`): the Go library behaviour the code relies on.
  This is `strconv.Atoi` (optional sign, 64-bit range, the clamped value
  returned beside a range error), `%d`, truncating `/`, `strings.Index`,
  `strings.Split` and `strings.Join`.
- `LayoutTree` (`layout_tree.dfy`): the layout node and the recursive
  helpers `containsPane`, `countPanes` and `copyLayoutNode`.
- `LayoutChecksum` (`checksum.dfy`): the 16-bit rotate-and-add checksum
  and its four-digit hex form.
- `LayoutCodec` (`layout_codec.dfy`): `ParseLayout`, `parseNode` and
  `parseChildren`, and `BuildLayout` and `buildNodeString`. Proved here:
  - the round trip `ParseLayout(BuildLayout(t)) == t`;
  - the parser's error cases;
  - what the parser accepts although it is not a printed layout.
- `Zoom` (`zoom.dfy`): `applyHorizontalZoom` and `applyVerticalZoom` as
  one algorithm over an axis, and `updateChildWidths` and
  `updateChildHeights` as one function over an axis. It also holds
  `ApplyZoomToLayout`, `applyNestedZoom`, and the tree pipeline of
  `ApplyZoom`.
- `TmuxReplies` (`tmux_replies.dfy`): what `GetZoomPercent`,
  `GetActivePaneID`, `GetWindowSize` and `GetPanes` make of tmux's
  replies.
- `PaneGroups` (`pane_groups.dfy`): `findColumns` and `findRowsInColumn`.
- `ZoomExamples` and `PaneGroupsExamples` (`examples_zoom.dfy`,
  `examples_groups.dfy`): the repository's test scenarios, proved about
  the model. The first is the 255x61 window with panes 26, 41, 36 and 42.
  The second is the four panes of the layout tests.

How the code is modelled:

- The imperative parts of the code, the ones that update variables or a
  node's fields step by step, are methods with a `for` or `while` loop.
  Each such method's postcondition ties its result to a specification
  function, and the lemmas state what the source promises about that
  function. These loops are:
  - the checksum loop;
  - the children loop of `parseChildren`;
  - the `otherWidth`/`newWidths` loops and the placement loop of
    `applyHorizontalZoom`;
  - the search for the child that holds the pane;
  - the line loop of `GetPanes`;
  - the map-building loop and the sort of `findColumns`.
- The other loops only compute a value, and the recursive helpers are
  recursion in the code as well. They are functions: the y and pane-id
  scans of `parseNode` (`ScanTo`), the `childStrs` loop of
  `buildNodeString` (`PrintAll`), `containsPane`, `countPanes`,
  `copyLayoutNode`, the `updateChild*` helpers and `applyNestedZoom`'s
  walk down the path to the pane.

The zoom does not always leave the focused child the largest, even when
the percentage is at least 100/n for n children. With sizes 0, 97 and 1,
98 cells of room and 34%, the shares are 34, 64 and 0, so the middle
sibling stays larger (`ZoomExamples.FocusNotLargest`). What the model
proves instead is the bound the code does keep:

- the active child gets at least its target and at most the available
  space;
- every sibling gets between 0 and the space the target leaves.

## Model

| member | source | states |
|---|---|---|
| GoStd.DigitChar | layout.go:194 | the character printed for a digit is a digit that reads back as that digit |
| GoStd.Decimal | layout.go:194 | `%d`'s digits for a non-negative number are non-empty, all digits, and denote the number |
| GoStd.Atoi | layout.go:59-62 | `strconv.Atoi` parses only in-range values and refuses the empty string |
| GoStd.DigitRun | layout.go:59-62 | the leading run of digits `strconv.Atoi` reads: a prefix of the text, all digits, ended by a non-digit or the end |
| GoStd.DigitRunOf | layout.go:59-62 | the leading digit run of digits followed by a non-digit is exactly those digits |
| GoStd.AtoiOverflowFirst | tmux.go:137-141 | a digit run past 2^64-1 gives a range error with the clamped value, with or without a sign, even when non-digit text follows it |
| GoStd.AtoiAccepts | layout.go:59-62 | `strconv.Atoi` succeeds exactly on an optional sign followed by digits whose value fits 64 bits |
| GoStd.AtoiValue | tmux.go:137-141 | the value kept when the error is ignored: the parsed value, 0 after a syntax error, the clamped value after a range error, always within 64 bits |
| GoStd.Itoa | layout.go:194 | `%d` prints a non-empty string of a sign or digit followed by digits |
| GoStd.AtoiItoa | layout.go:194-198 | parsing what `%d` printed gives the number back, for every 64-bit value |
| GoStd.NotInItoa | layout.go:194 | `%d` never prints a character other than digits and `-` |
| GoStd.Quot | layout.go:318 | Go's integer `/` on a positive divisor, as in the target share (also lines 339 and 342): the quotient rounded toward zero, stated by `GoStd.QuotRemainder` and `GoStd.QuotUnique` |
| GoStd.QuotRemainder | layout.go:318 | Go's `/` truncates toward zero: the remainder has the dividend's sign and is smaller than the divisor |
| GoStd.QuotUnique | layout.go:318 | the truncated quotient is the only number leaving such a remainder |
| GoStd.QuotMonotone | layout.go:339 | on non-negative numbers a larger dividend never gives a smaller quotient |
| GoStd.QuotExact | layout.go:342 | dividing an exact multiple gives the factor back |
| GoStd.IndexOf | layout.go:39 | `strings.Index` for one byte: -1 exactly when absent, otherwise the first position holding it |
| GoStd.IndexOfAfter | layout.go:39-43 | the first separator after separator-free text is found right after that text |
| GoStd.Split | tmux.go:128-132 | `strings.Split` yields at least one part, no part holds the separator, and joining the parts gives the text back |
| GoStd.Join | layout.go:204-210 | `strings.Join(childStrs, ",")`: the parts with the separator between them, undone by `GoStd.Split` as `GoStd.SplitJoin` states |
| GoStd.SplitJoin | tmux.go:128-132 | splitting a join of separator-free parts gives the parts back |
| LayoutTree.ShapeOf | layout.go:25-33 | a node's shape (ids, split kinds, nesting) has one child shape per child |
| LayoutTree.CopyNode | layout.go:288-304 | the deep copy equals the original |
| LayoutTree.FirstContaining | layout.go:235-241 | the index of the first child holding the pane: it holds the pane and no earlier child does, or none holds it |
| LayoutTree.ContainsPane | layout.go:259-269 | `containsPane`: the node's own id is the pane's, or some child contains it; `LayoutTree.ContainsPaneIsLeafId` states what this means in a parsed tree |
| LayoutTree.ContainsPaneIsLeafId | layout.go:259-269 | in a parsed tree, `containsPane` for a non-negative id holds exactly when some pane carries that id |
| LayoutTree.ContainsPaneByShape | layout.go:259-269 | `containsPane` depends only on the tree's shape, never on geometry |
| LayoutTree.FirstContainingByShape | layout.go:235-241 | the search for the child holding the pane depends only on the children's shapes |
| LayoutTree.CountPanesByShape | layout.go:272-285 | `countPanes` depends only on the tree's shape |
| LayoutTree.CountAllByShape | layout.go:280-283 | the children's pane count depends only on their shapes |
| LayoutTree.CountPanes | layout.go:272-285 | `countPanes`: 1 for a pane, otherwise the children's total; bounded by the distinct pane ids in `LayoutTree.CountPanesBoundsIds` and kept by the zoom in `Zoom.ZoomTreeShape` |
| LayoutTree.CountAll | layout.go:280-284 | the loop of `countPanes` over the children: the sum of their counts, bounded in `LayoutTree.CountAllBoundsIds` |
| LayoutTree.CountPanesBoundsIds | layout.go:272-285 | a parsed tree has at least as many panes as distinct pane ids |
| LayoutTree.CountAllBoundsIds | layout.go:280-283 | a run of parsed trees has at least as many panes as distinct pane ids |
| LayoutChecksum.RotateRight1 | layout.go:221 | the rotation moves the low bit to bit 15 and shifts every other bit down one place |
| LayoutChecksum.RotateRoundTrip | layout.go:221 | the rotation loses no bit: rotating left undoes it, and the other way round |
| LayoutChecksum.HexDigit | layout.go:224 | each nibble prints as a lower-case hex digit that reads back as the nibble |
| LayoutChecksum.Hex4 | layout.go:224 | `%04x` prints exactly four lower-case hex digits denoting the sum |
| LayoutChecksum.CalculateChecksum | layout.go:218-225 | the loop leaves the rotate-and-add sum of all the bytes, printed as four hex digits |
| LayoutChecksum.ChecksumExamples | layout.go:218-225 | the empty body sums to `0000`, `A` to `0041` and `AB` to `8062` |
| LayoutCodec.ScanTo | layout.go:91-97 | the y and pane-id scans stop at the first stop character, or at the end when there is none |
| LayoutCodec.ReadField | layout.go:55-88 | a width, height or x field: a missing delimiter gives the missing error; otherwise it reads exactly when `strconv.Atoi` accepts the text before the delimiter, with that value and the text after the delimiter, and text `strconv.Atoi` refuses gives the bad error |
| LayoutCodec.ParseGeometry | layout.go:51-103 | `WxH,X,Y` parses to a pane with id -1 and no children; the text left is empty or starts at a stop character; no `x` gives the no-`x` error (the error of each field is stated by the `LayoutCodec.Layout*` lemmas) |
| LayoutCodec.ParseNode | layout.go:51-157 | a parsed node consumes at least one character |
| LayoutCodec.ParseTail | layout.go:105-156 | the switch after y never lengthens the text left (its pane-id error is `LayoutCodec.TailBadPaneId`) |
| LayoutCodec.ParseChildren | layout.go:160-183 | the children list never lengthens the text left |
| LayoutCodec.ParsedNode | layout.go:51-157 | a parsed node can be printed back; `parseNode` never fails with the unexpected-character error; text without `x` fails with the no-`x` error |
| LayoutCodec.ParsedTail | layout.go:105-156 | the switch gives the unexpected-character error exactly when the next character is not a stop character |
| LayoutCodec.ParsedChildren | layout.go:160-183 | every parsed child can be printed back, and the children never fail with the unexpected-character error |
| LayoutCodec.ParseChildrenStep | layout.go:163-175 | one loop step: a child that fails fails the list; otherwise the child heads the list parsed after the optional comma |
| LayoutCodec.ScanChildren | layout.go:160-183 | the loop of `parseChildren` computes the recursive children parse |
| LayoutCodec.ParseLayout | layout.go:37-47 | the no-separator error is given exactly when the text has no comma; a parsed tree can be printed back (its other errors follow in the `LayoutCodec.Layout*` lemmas) |
| LayoutCodec.PrintGeometry | layout.go:194 | the printed geometry is non-empty and starts with a digit or a minus sign |
| LayoutCodec.PrintNode | layout.go:193-214 | a printed node starts with a digit or a minus sign |
| LayoutCodec.PrintTail | layout.go:196-213 | what follows the geometry starts with `,`, `{` or `[` |
| LayoutCodec.PrintAll | layout.go:200-209 | one printed string per child |
| LayoutCodec.PrintNodeBytes | layout.go:193-214 | the printed body is made of bytes only |
| LayoutCodec.BuildLayout | layout.go:186-190 | the layout is four hex digits, a comma, and a body whose checksum those digits are |
| LayoutCodec.ReadPrintedField | layout.go:59-88 | a printed number followed by its delimiter reads back as the number, leaving the text after the delimiter |
| LayoutCodec.ScanPrintedField | layout.go:91-103 | the y or pane-id scan stops right after a printed number |
| LayoutCodec.ParsePrintGeometry | layout.go:51-103 | printed geometry parses back, whatever stop character follows |
| LayoutCodec.ParsePrintTail | layout.go:105-156 | a printed pane id or bracketed children list parses back |
| LayoutCodec.ParsePrintNode | layout.go:51-157 | a printed node parses back to itself, whatever stop character follows it |
| LayoutCodec.ParsePrintChildren | layout.go:160-183 | a printed children list and its closing bracket parse back to the children |
| LayoutCodec.ParseBuildLayout | layout.go:37-47 | parsing what `BuildLayout` printed gives the tree back, for every printable tree |
| LayoutCodec.ReadFieldOf | layout.go:59-62 | a field followed by its delimiter reads as `strconv.Atoi`'s value with the text after the delimiter left, or fails with the bad error when `strconv.Atoi` refuses it |
| LayoutCodec.FailingBody | layout.go:38-46 | behind comma-free checksum text, a body whose first node fails makes the layout fail with the same error |
| LayoutCodec.LayoutNoX | layout.go:55-58 | a body with no `x` fails with the no-`x` error |
| LayoutCodec.LayoutBadWidth | layout.go:59-62 | a width `strconv.Atoi` refuses fails with the bad-width error |
| LayoutCodec.LayoutNoCommaAfterHeight | layout.go:67-70 | a height with no comma after it fails with the missing-comma error |
| LayoutCodec.LayoutBadHeight | layout.go:71-74 | a height `strconv.Atoi` refuses fails with the bad-height error |
| LayoutCodec.LayoutNoCommaAfterX | layout.go:79-82 | an x offset with no comma after it fails with the missing-comma error |
| LayoutCodec.LayoutBadX | layout.go:83-86 | an x offset `strconv.Atoi` refuses fails with the bad-x error |
| LayoutCodec.LayoutBadY | layout.go:91-101 | a y offset, up to the first comma or bracket, that `strconv.Atoi` refuses fails with the bad-y error |
| LayoutCodec.LayoutBadPaneId | layout.go:132-145 | a pane id after the geometry, up to the first comma or closing bracket, that `strconv.Atoi` refuses fails with the bad-pane-id error |
| LayoutCodec.TailBadPaneId | layout.go:132-145 | the switch after y fails with the bad-pane-id error on a pane id `strconv.Atoi` refuses |
| LayoutCodec.BadWidthExample | layout.go:59-62 | `1234,ax5,0,0,1` fails with the bad-width error |
| LayoutCodec.ParseAnyChecksum | layout.go:37-47 | a printed tree behind any comma-free checksum text, the empty one included, parses back to itself |
| LayoutCodec.ReparseBuiltLayout | layout.go:37-47 | every tree that parses prints to a layout that parses to the same tree |
| LayoutCodec.ChecksumIgnored | layout.go:38-45 | the checksum text is skipped and never checked |
| LayoutCodec.TrailingTextIgnored | layout.go:45-46 | text after the tree, from a comma or closing bracket on, is ignored |
| LayoutCodec.EndsAfterY | layout.go:106-109 | a layout that ends right after y parses as a pane with id -1 |
| LayoutCodec.UnclosedBracket | layout.go:163-182 | a side-by-side split of one child whose text ends before its `}` parses as if it were closed |
| LayoutCodec.UnclosedSplit | layout.go:163-182 | any printable split, of either kind and with any number of children, whose text ends right before its closing bracket parses to the same tree |
| LayoutCodec.ParseUnclosedChildren | layout.go:160-183 | printed children with no closing bracket after them all read back, and the text is used up |
| Zoom.Propagate | layout.go:421-442 | the node takes the new extent; offsets, cross-axis geometry and shape stay; only children of a stacked split take the extent too |
| Zoom.RawShares | layout.go:332-345 | one raw share per child |
| Zoom.Shares | layout.go:347-350 | one share per child after the rounding fix |
| Zoom.DistributeSizes | layout.go:321-350 | the `otherWidth` and `newWidths` loops compute the shares after the rounding fix |
| Zoom.SharesEntries | layout.go:332-350 | the active child gets what its siblings' raw shares leave; the siblings keep their raw shares |
| Zoom.SharesFill | layout.go:347-350 | after the rounding fix the shares add up to exactly the available space |
| Zoom.TargetBounds | layout.go:318 | the target lies between 0 and the available space |
| Zoom.SiblingShareBounds | layout.go:337-343 | a sibling's share lies between 0 and the remaining space and is at most its proportional part |
| Zoom.SiblingShareMonotone | layout.go:337-343 | a larger sibling never gets a smaller share |
| Zoom.SiblingTotal | layout.go:321-326 | `otherWidth` is the sum of all sizes but the active one, and bounds each sibling |
| Zoom.RawShareBounds | layout.go:337-343 | each sibling's raw share lies between 0 and the space the target leaves |
| Zoom.SiblingsWithinRemaining | layout.go:329-345 | the siblings' raw shares together never exceed the space the target leaves |
| Zoom.SharesBounds | layout.go:318-350 | the active child gets at least its target and at most the available space; every sibling gets at most what the target leaves |
| Zoom.SharesMonotone | layout.go:337-343 | shares keep the siblings' order of size |
| Zoom.Placed | layout.go:353-360 | one placed child per child |
| Zoom.PlaceChildren | layout.go:353-360 | the placement loop gives each child its share and an offset one cell past the previous child, pushing the extent down |
| Zoom.LayOutShape | layout.go:353-360 | placing children changes only the children's geometry: the node and the shape stay |
| Zoom.LayOutSizes | layout.go:355 | each child ends up with exactly its share |
| Zoom.LayOutOffsets | layout.go:353-359 | children run from the split's own offset, one border cell apart |
| Zoom.LayOutAcross | layout.go:353-360 | across the axis every child keeps its extent and offset |
| Zoom.ApplyAxisZoom | layout.go:308-361 | `applyHorizontalZoom` / `applyVerticalZoom` compute the shares and place the children with them; one child or none changes nothing |
| Zoom.ZoomAlongShape | layout.go:308-361 | the one-level zoom keeps the node itself and the tree's shape |
| Zoom.ZoomAlongFills | layout.go:313-350 | after the zoom the children and the borders between them fill the split exactly |
| Zoom.ZoomAlongOffsets | layout.go:353-360 | after the zoom the children run from the split's offset, one border cell apart |
| Zoom.ZoomAlongAcross | layout.go:353-360 | the zoom leaves every child's cross-axis extent and offset alone |
| Zoom.ZoomAlongActive | layout.go:313-350 | with non-negative sizes and percentage up to 100, the active child gets at least its target and each sibling at most what the target leaves |
| Zoom.ZoomSplitShape | layout.go:249-253 | zooming a split along its own axis keeps the node and the shape |
| Zoom.FindActive | layout.go:235-241 | the search gives the first child holding the pane, or -1 when none does |
| Zoom.FirstContainingIsFirst | layout.go:235-241 | an index with no match before it and a match at it is the first match |
| Zoom.ApplyZoomToLayout | layout.go:230-256 | copy the tree and zoom the root split on the first child holding the pane; otherwise return the copy unchanged |
| Zoom.ApplyNestedZoom | layout.go:571-603 | zoom the child holding the pane on its own child holding the pane, then recurse down that path |
| Zoom.NestedZoomsSplit | layout.go:571-603 | the split on the path to the pane is zoomed: its children get the shares for the grandchild holding the pane, fill the split and run from its offset one border cell apart; the active one gets at least its target; the split keeps its own fields |
| Zoom.ApplyZoom | layout.go:547-557 | the printed layout is the root zoom, then the nested zooms, then `BuildLayout` |
| Zoom.ZoomRootShape | layout.go:230-256 | the root zoom keeps the root node and the tree's shape |
| Zoom.ZoomRootAlong | layout.go:243-253 | when some child holds the pane, the root zoom is the one-level zoom of that child along the root's axis |
| Zoom.ZoomNestedKeeps | layout.go:571-603 | the nested zoom keeps the node, its children count, each child's own fields and the shape |
| Zoom.ZoomTreeShape | layout.go:547-557 | the whole zoom keeps the shape: pane ids, split kinds, children counts, `countPanes` and `containsPane` |
| Zoom.ZoomTreeAbsent | layout.go:235-246 | a tree none of whose root's children holds the pane (a tree without the pane, or a root that is itself a pane) comes back unchanged |
| Zoom.ZoomTreeRootSizes | layout.go:547-557 | after the whole zoom the root's children have the root-level shares and fill the root exactly |
| Zoom.ZoomTreeRootOffsets | layout.go:547-557 | after the whole zoom the root's children run from the root's offset, one border cell apart |
| Zoom.NestedKeepsGeometry | layout.go:571-603 | the nested zoom never changes the sizes and offsets of the node's own children |
| ZoomExamples.WindowPaneCount | layout.go:272-285 | the 255x61 window has four panes; a lone pane counts one |
| ZoomExamples.TwoPaneCount | layout_test.go:204-213 | a side-by-side or stacked split of two panes counts two |
| ZoomExamples.RootSharesForPane26 | layout.go:313-350 | with pane 26 focused at 65% the root shares are 165, 44 and 44 |
| ZoomExamples.RootZoomForPane26 | behavior_test.go:198-250 | the root zoom puts the columns 165, 44 and 44 wide at x 0, 166 and 211; panes 26 and 41 become 165 wide and keep their heights |
| ZoomExamples.LayOut26 | layout.go:353-360 | placing the shares 165, 44 and 44 puts the columns at x 0, 166 and 211 and makes the first column's panes 165 wide |
| ZoomExamples.ColumnSharesForPane26 | layout.go:313-350 | the first column's rows share 60 cells as 39 and 21 |
| ZoomExamples.ColumnZoomForPane26 | layout.go:365-418 | the first column's rows become 39 and 21 high, at y 0 and 40 |
| ZoomExamples.NestedZoomForPane26 | layout.go:571-603 | the nested zoom for pane 26 zooms the first column only |
| ZoomExamples.TreeZoomForPane26 | layout.go:547-557 | the whole zoom for pane 26 gives the root zoom plus the first column's 39/21 rows |
| ZoomExamples.RootSharesForPane42 | layout.go:313-350 | with pane 42 focused the shares are 44, 44 and 165 |
| ZoomExamples.RootZoomForPane42 | behavior_test.go:254-290 | the last column becomes 165 wide at x 90; the others 44 wide at x 0 and 45 |
| ZoomExamples.LayOut42 | layout.go:353-360 | placing the shares 44, 44 and 165 puts the columns at x 0, 45 and 90 and makes the first column's panes 44 wide |
| ZoomExamples.NestedZoomForPane42 | layout.go:571-603 | a pane that is a whole column leaves the nested zoom nothing to do |
| ZoomExamples.TreeZoomForPane42 | layout.go:547-557 | the whole zoom for pane 42 is the root zoom |
| ZoomExamples.FocusNotLargest | layout.go:313-350 | with sizes 0, 97 and 1, 98 cells of room and 34%, the shares are 34, 64 and 0: the focused child is not the largest |
| TmuxReplies.ParseInt | tmux.go:50 | parsing succeeds exactly on integer text, with `strconv.Atoi`'s value |
| TmuxReplies.ZoomPercent | tmux.go:172-182 | the percentage is always from 10 to 95; any value but the default 65 came from the option's integer text |
| TmuxReplies.ZoomPercentAsSet | tmux.go:177-181 | any option text that `strconv.Atoi` reads as an integer from 10 to 95 gives that integer |
| TmuxReplies.ZoomPercentPrinted | tmux.go:177-181 | an option printed from an integer from 10 to 95 gives that integer back |
| TmuxReplies.ZoomPercentFallsBack | tmux.go:174-179 | a failed query, non-integer text or a value outside 10..95 gives 65 |
| TmuxReplies.StripPercent | tmux.go:47-49 | exactly one leading `%` is removed when present; other text is kept |
| TmuxReplies.ActivePaneId | tmux.go:41-51 | a failed query is an error; otherwise the id parses exactly when the text after one optional `%` is an integer, and the id is `strconv.Atoi`'s value of that text |
| TmuxReplies.ActivePaneIdRoundTrip | tmux.go:41-51 | `%42` and `42` both give 42, for every non-negative id |
| TmuxReplies.ActivePaneIdErrors | tmux.go:47-50 | `%%42`, `%` and the empty reply are not integers |
| TmuxReplies.WindowSize | tmux.go:68-88 | the size is known exactly when both replies are integers, and then it is their values |
| TmuxReplies.WindowSizeRoundTrip | tmux.go:68-88 | printed width and height read back |
| TmuxReplies.ParsePaneLine | tmux.go:129-152 | a line yields a pane exactly when it is non-empty with seven fields; the id is the first field verbatim; index, width, height, left and top are fields 2 to 6 read with `strconv.Atoi`, errors ignored; active exactly when the last field is `1` |
| TmuxReplies.PanesOf | tmux.go:127-153 | never more panes than lines |
| TmuxReplies.GetPanes | tmux.go:120-156 | a failed query is an error; otherwise the loop yields the panes of the reply's lines in order |
| TmuxReplies.PanesOfAppend | tmux.go:128-153 | the panes of two runs of lines are the first run's panes followed by the second's |
| TmuxReplies.PanesOfOne | tmux.go:128-153 | one line gives its pane or nothing |
| TmuxReplies.PaneFields | tmux.go:122 | a pane prints as seven fields |
| TmuxReplies.SplitPaneLine | tmux.go:132 | a printed pane line splits back into its seven fields |
| TmuxReplies.ParsePaneLineRoundTrip | tmux.go:132-152 | a printed pane line parses back to the pane |
| TmuxReplies.PaneLineOneLine | tmux.go:122 | a printed pane line holds no newline |
| TmuxReplies.PaneLines | tmux.go:122 | one printed line per pane |
| TmuxReplies.GetPanesRoundTrip | tmux.go:127-155 | the reply listing some panes parses back to exactly those panes, in order |
| TmuxReplies.PanesOfPaneLines | tmux.go:128-153 | the printed lines of some panes give those panes back |
| PaneGroups.KeysOfHas | layout.go:719-733 | every pane's offset is one of the groups' offsets |
| PaneGroups.KeysOfOnly | layout.go:719-733 | every group offset is some pane's offset |
| PaneGroups.Members | layout.go:721 | a group never holds more panes than the input |
| PaneGroups.MembersExact | layout.go:719-733 | a group holds exactly the panes with its offset |
| PaneGroups.MembersNonEmpty | layout.go:719-733 | an offset is a group's exactly when some pane has it |
| PaneGroups.MaxExtentIsMax | layout.go:723-725 | a group's extent is the largest extent among its panes, and some pane has it |
| PaneGroups.GroupOf | layout.go:703-713 | a group carries its own offset and at least one pane |
| PaneGroups.GroupAppend | layout.go:719-733 | one more pane extends its own group (or starts a new one) and leaves the others alone |
| PaneGroups.GroupMapExact | layout.go:719-733 | the map holds exactly one group per distinct offset, and each is that offset's group |
| PaneGroups.GroupByKey | layout.go:717-733 | the map-building loop leaves one entry per distinct offset, holding that offset's group |
| PaneGroups.SortedKeys | layout.go:740-742 | the distinct offsets in strictly increasing order, each once |
| PaneGroups.IncreasingUnique | layout.go:740-742 | two strictly increasing sequences with the same members are equal, so the sorted order is unique |
| PaneGroups.SortByKey | layout.go:736-744 | collecting and sorting the map gives its groups in increasing offset order |
| PaneGroups.FindGroups | layout.go:716-745 | `findColumns` / `findRowsInColumn` compute the sorted groups of the panes |
| PaneGroups.GroupAt | layout.go:716-745 | the a-th group is the group of the a-th smallest offset |
| PaneGroups.GroupsSorted | layout.go:736-744 | one group per distinct offset, in strictly increasing offset order |
| PaneGroups.GroupsMembers | layout.go:719-733 | each group holds exactly the panes with its offset, in input order, sized by its largest pane |
| PaneGroups.GroupsPartition | layout.go:716-775 | every pane is in exactly one group |
| PaneGroupsExamples.ColumnMap | layout.go:719-733 | the test panes give a map with offsets 0, 85 and 171 |
| PaneGroupsExamples.ColumnsOfTestPanes | layout_test.go:25-59 | the test panes form columns at 0, 85 and 171, 84, 85 and 84 wide, holding 2, 1 and 1 panes |
| PaneGroupsExamples.RowsOfFirstColumn | layout_test.go:61-87 | the first column's panes form rows at 0 and 31, each 30 high |
| PaneGroupsExamples.RowsOfSinglePaneColumn | layout_test.go:89-103 | a single pane forms one row at its top with its height |

## Left out

- Process I/O: running tmux (`TmuxCmd`, `TmuxCmdNoOutput`, `GetCurrentSession`, `GetCurrentWindow`, `GetCurrentPane`, `GetWindowLayout`, `GetPaneCount`, `SelectLayout`, `ResizePane`, `ResizePaneWidth`, `ResizePaneHeight`, `DisplayMessage`) is not modelled. A tmux reply is a parameter: `None` for a failed command, otherwise the output.
- `TmuxCmd`'s `strings.TrimSpace`: replies are taken as already trimmed.
- state.go (the JSON state file) and main.go (command dispatch, status output, the `debugf` log) are not part of this model.
- The orchestration in layout.go is not modelled. That is `CaptureSnapshot`, `RestoreSnapshot`, `applyZoomFallback`, `applyProportionalZoom`, `resizeColumnsProportionally`, `resizeRowsProportionally`, `IsMatchingWindow`, and the parts of `ApplyZoom` that query tmux, compare windows, re-capture the snapshot or fall back. These are sequences of tmux commands. `Zoom.ApplyZoom` models only the pure pipeline from the parsed tree to the printed layout.
- The layout tree is a value, not a pointer structure. The engine rewrites a fresh deep copy that nothing else shares, so rewriting in place and rebuilding give the same tree. Aliasing between nodes is not modelled.
- nil nodes: `countPanes(nil)` and `copyLayoutNode(nil)` have no counterpart, because the parser never produces a nil node.
- Zoom.ApplyAxisZoom: Go's 64-bit `int` overflow in `availableWidth * zoomPercent` and `child.Width * remainingWidth` is not modelled. The arithmetic is unbounded, because layout sizes are terminal cells, far from the limit.
- Zoom.Shares: the code adds the rounding difference only when it is not 0. The model always adds it, which gives the same result.
- The horizontal and vertical variants (`applyHorizontalZoom`/`applyVerticalZoom`, `updateChildWidths`/`updateChildHeights`) are one definition over an `Axis`. `findColumns` and `findRowsInColumn` are one method over a `Dim`.
- PaneGroups.SortByKey: Go collects the map into a slice in random order and then sorts it by offset. The model reads the groups out by repeatedly taking the smallest remaining offset. Offsets in the map are distinct, so both give the same sequence. The order of Go's map iteration is not modelled.
- TmuxReplies.WindowSize takes both replies at once. The model does not capture that the code skips the height query when the width query fails.
- Zoom results are stated for the nodes where the zoom runs: the root (`Zoom.ZoomTreeRootSizes`, `Zoom.ZoomTreeRootOffsets`) and the split on the path to the pane one level down (`Zoom.NestedZoomsSplit`); deeper splits on the path are zoomed by the same `ZoomNested` step. The code pushes a new extent only through cross-axis splits and leaves stale offsets in descendants, so no size or position claim is made for other nodes.
- The layout string is handled as bytes: each `char` stands for one byte, and no multi-byte text is considered.
