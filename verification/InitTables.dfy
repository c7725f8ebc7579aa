/** Tables of structs: an initializer whose items are braced rows, one for every element
    of an array, laid out and spaced in any way. */
module InitTables {
  import opened Text
  import opened Propagation
  import opened InitRows
  import opened Rearrangement
  import opened Brackets
  import Splitter

  predicate Blanks(s: string) {
    forall k :: 0 <= k < |s| ==> s[k] == ' '
  }

  /** No brace and no blank at either end. */
  predicate Clean(row: string) {
    row != "" ==> !IsBraceOrBlank(row[0]) && !IsBraceOrBlank(row[|row| - 1])
  }

  /** The text of an item behind its array designator, if it has one. */
  function Unindexed(rx: Recognizers, piece: string): string {
    match rx.arrayIdx(TrimSpace(piece)) case Some(v) => TrimSpace(v) case None => TrimSpace(piece)
  }

  /** The piece is the row in braces, with white space around it, blanks inside the braces
      and an array designator in front as the writer likes. */
  ghost predicate HoldsRow(rx: Recognizers, piece: string, row: string) {
    && Clean(row)
    && exists before, after ::
         Blanks(before) && Blanks(after) && Unindexed(rx, piece) == "{" + (before + (row + (after + "}")))
  }

  /** The pieces hold these rows in order, and are blank otherwise, as behind a trailing
      comma. */
  ghost predicate HoldRows(rx: Recognizers, pieces: seq<string>, rows: seq<string>)
    decreases |pieces|
  {
    if pieces == [] then rows == []
    else
      || (TrimSpace(pieces[0]) == "" && HoldRows(rx, pieces[1..], rows))
      || (rows != [] && HoldsRow(rx, pieces[0], rows[0]) && HoldRows(rx, pieces[1..], rows[1..]))
  }

  /** The initializer `text` is a table of these rows. */
  ghost predicate IsTable(rx: Recognizers, text: string, rows: seq<string>) {
    HoldRows(rx, Splitter.SplitTopLevel(text), rows)
  }

  // ---- what the scanner makes of a piece ----

  lemma {:induction false} TrimLeft(before: string, s: string)
    requires forall k :: 0 <= k < |before| ==> IsBraceOrBlank(before[k])
    ensures TrimBraces(before + s) == TrimBraces(s)
  {
    if before == "" {
      assert before + s == s;
    } else {
      TrimLeft(before[1..], s);
      assert (before + s)[1..] == before[1..] + s;
    }
  }

  lemma {:induction false} TrimRight(s: string, after: string)
    requires s != "" && !IsBraceOrBlank(s[0])
    requires forall k :: 0 <= k < |after| ==> IsBraceOrBlank(after[k])
    ensures TrimBraces(s + after) == TrimBraces(s)
    decreases |after|
  {
    if after == "" {
      assert s + after == s;
    } else {
      var n := |after| - 1;
      TrimRight(s, after[..n]);
      assert (s + after)[..|s + after| - 1] == s + after[..n];
    }
  }

  lemma {:induction false} TrimsToRow(before: string, row: string, after: string)
    requires Clean(row) && Blanks(before) && Blanks(after)
    ensures TrimBraces("{" + (before + (row + (after + "}")))) == row
  {
    TrimLeft("{", before + (row + (after + "}")));
    TrimLeft(before, row + (after + "}"));
    if row == "" {
      assert row + (after + "}") == (after + "}") + "";
      TrimLeft(after + "}", "");
    } else {
      TrimRight(row, after + "}");
    }
  }

  /** A row that the scanner takes for one: it has at least two items, or a brace. */
  predicate LooksNested(row: string) {
    ',' in row || '{' in row
  }

  /** A braced row: nested if it looks so, else a scalar for the current field. */
  lemma {:induction false} BracedIsClassified(rx: Recognizers, piece: string, row: string)
    requires CapturesShrink(rx) && HoldsRow(rx, piece, row)
    ensures Classify(rx, piece) == if LooksNested(row) then Nested(row) else Scalar(row)
  {
    var before, after :|
      Blanks(before) && Blanks(after) && Unindexed(rx, piece) == "{" + (before + (row + (after + "}")));
    TrimsToRow(before, row, after);
  }

  // ---- what a table registers ----

  /** What the scanner hands to addReg for the row at position k of a table. */
  function TableRow(rx: Recognizers, layouts: Layouts, st: string, row: string, k: int): seq<Request>
    requires CapturesShrink(rx)
  {
    if LooksNested(row) then RowRequests(rx, layouts, st, row) else Place(rx, layouts, st, k, row)
  }

  function TableRows(rx: Recognizers, layouts: Layouts, st: string, rows: seq<string>, k: int): seq<Request>
    requires CapturesShrink(rx)
  {
    if rows == [] then []
    else TableRow(rx, layouts, st, rows[0], k) + TableRows(rx, layouts, st, rows[1..], k + 1)
  }

  lemma {:induction false} PieceOfTable(rx: Recognizers, layouts: Layouts, st: string, pieces: seq<string>, pos: int,
                                        bound: nat)
    requires CapturesShrink(rx) && pieces != [] && NoLonger(pieces, bound)
    ensures NoLonger(pieces[1..], bound)
    ensures TrimSpace(pieces[0]) == "" ==>
              PieceRequests(rx, layouts, st, pieces, pos, bound)
              == PieceRequests(rx, layouts, st, pieces[1..], pos, bound)
    ensures forall row :: HoldsRow(rx, pieces[0], row) ==>
              PieceRequests(rx, layouts, st, pieces, pos, bound)
              == TableRow(rx, layouts, st, row, pos) + PieceRequests(rx, layouts, st, pieces[1..], pos + 1, bound)
  {
    hide RowRequests, PieceRequests, Place, CapturesShrink, HoldsRow;
    PieceCons(rx, layouts, st, pieces, pos, bound);
    forall row | HoldsRow(rx, pieces[0], row)
      ensures Classify(rx, pieces[0]) == if LooksNested(row) then Nested(row) else Scalar(row)
    {
      BracedIsClassified(rx, pieces[0], row);
    }
  }

  lemma {:induction false} PiecesAreRows(rx: Recognizers, layouts: Layouts, st: string, pieces: seq<string>,
                                         rows: seq<string>, pos: int, bound: nat)
    requires CapturesShrink(rx) && HoldRows(rx, pieces, rows) && NoLonger(pieces, bound)
    ensures PieceRequests(rx, layouts, st, pieces, pos, bound) == TableRows(rx, layouts, st, rows, pos)
    decreases |pieces|
  {
    hide PieceRequests, TableRow, CapturesShrink, HoldsRow, TrimSpace, NoLonger;
    NoPieces(rx, layouts, st, pos, bound);
    if pieces != [] {
      PieceOfTable(rx, layouts, st, pieces, pos, bound);
      if TrimSpace(pieces[0]) == "" && HoldRows(rx, pieces[1..], rows) {
        PiecesAreRows(rx, layouts, st, pieces[1..], rows, pos, bound);
      } else {
        PiecesAreRows(rx, layouts, st, pieces[1..], rows[1..], pos + 1, bound);
      }
    }
  }

  /** A table is scanned row by row: a row that looks like one on its own, from the first
      field on; any other as a scalar for the field at the row's position in the table. */
  lemma {:induction false} TableIsRowByRow(rx: Recognizers, layouts: Layouts, st: string, text: string,
                                           rows: seq<string>)
    requires CapturesShrink(rx) && IsTable(rx, text, rows)
    ensures RowRequests(rx, layouts, st, text) == TableRows(rx, layouts, st, rows, 0)
  {
    hide RowRequests, PieceRequests, TableRows, CapturesShrink, HoldRows;
    RowIsPieces(rx, layouts, st, text);
    PiecesAreRows(rx, layouts, st, Splitter.SplitTopLevel(text), rows, 0, |text|);
  }

  /** What the rows register, each on its own. */
  function EachRow(rx: Recognizers, layouts: Layouts, st: string, rows: seq<string>): seq<Request>
    requires CapturesShrink(rx)
  {
    if rows == [] then [] else RowRequests(rx, layouts, st, rows[0]) + EachRow(rx, layouts, st, rows[1..])
  }

  ghost predicate AllLookNested(rows: seq<string>) {
    forall k :: 0 <= k < |rows| ==> LooksNested(rows[k])
  }

  lemma {:induction false} NestedRowsAreEach(rx: Recognizers, layouts: Layouts, st: string, rows: seq<string>, k: int)
    requires CapturesShrink(rx) && AllLookNested(rows)
    ensures TableRows(rx, layouts, st, rows, k) == EachRow(rx, layouts, st, rows)
  {
    hide RowRequests, LooksNested;
    if rows != [] { NestedRowsAreEach(rx, layouts, st, rows[1..], k + 1); }
  }

  /** A table whose rows have at least two items registers what its rows register, each
      from the first field on, whatever the position in the table. */
  lemma {:induction false} TableIsItsRows(rx: Recognizers, layouts: Layouts, st: string, text: string,
                                          rows: seq<string>)
    requires CapturesShrink(rx) && IsTable(rx, text, rows) && AllLookNested(rows)
    ensures RowRequests(rx, layouts, st, text) == EachRow(rx, layouts, st, rows)
  {
    TableIsRowByRow(rx, layouts, st, text, rows);
    NestedRowsAreEach(rx, layouts, st, rows, 0);
  }

  // ---- ordinary layout ----

  /** A row on a line of its own: a newline, the indent, the braces with a blank inside. */
  function OnItsLine(indent: string, row: string): string {
    "\n" + indent + "{" + (" " + (row + (" " + "}")))
  }

  /** A table with one row to a line and a comma behind each. */
  function Formatted(indent: string, rows: seq<string>): string {
    if rows == [] then "\n" else OnItsLine(indent, rows[0]) + "," + Formatted(indent, rows[1..])
  }

  lemma {:induction false} LineIsPiece(indent: string, row: string)
    requires Blanks(indent) && Balanced(row, AllKinds)
    ensures Splitter.OnePiece(OnItsLine(indent, row))
    ensures Depth(OnItsLine(indent, row), AllKinds, 0, |OnItsLine(indent, row)|) == 0
  {
    hide Balanced, Splitter.OnePiece, Depth;
    BracesMakePiece(OnItsLine(indent, row), row, |indent| + 3);
  }

  /** Braces around a balanced row, which stands at d, make one piece. */
  lemma {:induction false} BracesMakePiece(s: string, row: string, d: nat)
    requires Balanced(row, AllKinds) && 2 <= d && |s| == d + |row| + 2
    requires s[d - 2] == '{' && s[d - 1] == ' ' && s[d + |row|] == ' ' && s[d + |row| + 1] == '}'
    requires forall k :: 0 <= k < d - 2 ==> s[k] == ' ' || s[k] == '\n'
    requires forall k :: 0 <= k < |row| ==> row[k] == s[k + d]
    ensures Splitter.OnePiece(s) && Depth(s, AllKinds, 0, |s|) == 0
  {
    var n := |row|;
    FlatStart(s, d - 2);
    assert Depth(s, AllKinds, 0, d - 1) == 1;
    assert Depth(s, AllKinds, 0, d) == 1;
    RowDepth(s, row, d, n);
    assert Depth(s, AllKinds, 0, d + n) == 1;
    assert Depth(s, AllKinds, 0, d + n + 1) == 1;
    forall p: nat | p < |s| && s[p] == ',' ensures !Splitter.TopComma(s, p) {
      assert d <= p < d + n;
      RowDepth(s, row, d, p - d);
    }
  }

  lemma {:induction false} RowDepth(s: string, row: string, d: nat, p: nat)
    requires Balanced(row, AllKinds) && p <= |row| && d + |row| <= |s| && Depth(s, AllKinds, 0, d) == 1
    requires forall k :: 0 <= k < |row| ==> row[k] == s[k + d]
    ensures Depth(s, AllKinds, 0, d + p) == 1 + Depth(row, AllKinds, 0, p) >= 1
  {
    DepthSplits(s, AllKinds, 0, d, d + p);
    DepthShifts(row, s, AllKinds, 0, p, d);
  }

  lemma {:induction false} FlatStart(s: string, p: nat)
    requires p <= |s| && forall k :: 0 <= k < p ==> s[k] == ' ' || s[k] == '\n'
    ensures Depth(s, AllKinds, 0, p) == 0
  {
    if p > 0 { FlatStart(s, p - 1); }
  }

  lemma {:induction false} TrimsIndent(indent: string, s: string)
    requires Blanks(indent) && s != "" && s[0] == '{' && s[|s| - 1] == '}'
    ensures TrimSpace(indent + s) == s
  {
    if indent == "" {
      assert indent + s == s;
    } else {
      TrimsIndent(indent[1..], s);
      assert (indent + s)[1..] == indent[1..] + s;
    }
  }

  lemma LineTrims(indent: string, row: string, braced: string)
    requires braced == "{" + (" " + (row + (" " + "}"))) && TrimSpace(indent + braced) == braced
    ensures TrimSpace(OnItsLine(indent, row)) == braced
  {
    assert OnItsLine(indent, row)[1..] == indent + braced;
  }

  lemma {:induction false} LineHoldsRow(rx: Recognizers, indent: string, row: string)
    requires IndexInBrackets(rx) && Blanks(indent) && Clean(row)
    ensures HoldsRow(rx, OnItsLine(indent, row), row)
  {
    hide Clean, TrimSpace;
    var braced := "{" + (" " + (row + (" " + "}")));
    TrimsIndent(indent, braced);
    LineTrims(indent, row, braced);
    assert Unindexed(rx, OnItsLine(indent, row)) == braced;
    assert Blanks(" ");
  }

  /** The array-index pattern begins with a bracket. */
  ghost predicate IndexInBrackets(rx: Recognizers) {
    forall s :: rx.arrayIdx(s).Some? ==> s != "" && s[0] == '['
  }

  /** The usual layout of a table is one. */
  lemma {:induction false} FormattedIsTable(rx: Recognizers, indent: string, rows: seq<string>)
    requires IndexInBrackets(rx) && Blanks(indent)
    requires forall k :: 0 <= k < |rows| ==> Clean(rows[k]) && Balanced(rows[k], AllKinds)
    ensures IsTable(rx, Formatted(indent, rows), rows)
  {
    hide HoldsRow, Clean, Balanced;
    if rows == [] {
      Splitter.CutsOfOnePiece("\n", 0);
      assert Splitter.SplitTopLevel("\n") == ["\n"] && TrimSpace("\n") == "";
      assert ["\n"][1..] == [];
    } else {
      FormattedIsTable(rx, indent, rows[1..]);
      LineIsPiece(indent, rows[0]);
      Splitter.SplitsOffPiece(OnItsLine(indent, rows[0]), Formatted(indent, rows[1..]));
      LineHoldsRow(rx, indent, rows[0]);
      var pieces := Splitter.SplitTopLevel(Formatted(indent, rows));
      assert pieces[1..] == Splitter.SplitTopLevel(Formatted(indent, rows[1..]));
    }
  }

  // ---- tables against C ----

  /** handlerIdent trims its argument, and finds no identifier in an empty text nor in a
      text that begins with a designator. */
  ghost predicate HandlerReads(rx: Recognizers) {
    && rx.handler("") == ""
    && (forall s {:trigger TrimSpace(s)} :: rx.handler(TrimSpace(s)) == rx.handler(s))
    && (forall s :: rx.designated(s).Some? ==> rx.handler(s) == "")
  }

  /** What the scanner takes the only item of the row at position k of a table for: a
      designated one for nothing, any other for the field at position k. */
  function TakenFor(st: string, layout: Layout, item: Item, k: nat): Option<Reg> {
    if item.Designated? then None else ScannedAt(st, layout, k)
  }

  /** The row at position k of a table is registered otherwise than C has it: a row of several
      items if one of them is out of place; a single item if it names a handler and is taken
      for another field than C has it initialize. */
  ghost predicate Misplaced(rx: Recognizers, st: string, layout: Layout, members: seq<Member>, row: string, k: nat)
    requires CapturesShrink(rx) && |members| == |layout| && FlatRow(rx, layout, row)
  {
    var items := Items(rx, Splitter.SplitTopLevel(row));
    if LooksNested(row) then !AllInPlace(rx, st, layout, members, items)
    else
      items != [] && rx.handler(ValueOf(items[0])) != ""
      && TakenFor(st, layout, items[0], k) != InC(layout, members, items, 0)
  }

  /** Every item of the row at position k of a table registers what C has it initialize,
      from the first field of its array element on. */
  ghost predicate FollowsC(rx: Recognizers, layouts: Layouts, st: string, members: seq<Member>, row: string, k: nat)
    requires CapturesShrink(rx) && |members| == |LayoutOf(layouts, st)| && FlatRow(rx, LayoutOf(layouts, st), row)
  {
    var (layout, items) := (LayoutOf(layouts, st), Items(rx, Splitter.SplitTopLevel(row)));
    if LooksNested(row) then
      forall i :: 0 <= i < |items| ==>
        RequestFor(rx, Scanned(st, layout, items, i), ValueOf(items[i]))
        == RequestFor(rx, InC(layout, members, items, i), ValueOf(items[i]))
    else Place(rx, layouts, st, k, row) == RowRegisters(rx, layout, members, row)
  }

  lemma {:induction false} SingleItem(rx: Recognizers, layout: Layout, row: string)
    requires CapturesShrink(rx) && !LooksNested(row) && FlatRow(rx, layout, row)
    ensures var item := Classify(rx, row);
            && (item.Blank? || item.Designated? || item == Positional(TrimSpace(row)))
            && Items(rx, Splitter.SplitTopLevel(row)) == (if item.Blank? then [] else [item])
            && (item.Designated? ==> rx.designated(TrimSpace(row)).Some?)
            && (item.Blank? ==> TrimSpace(row) == "")
  {
    Splitter.CutsOfOnePiece(row, 0);
    assert Splitter.SplitTopLevel(row) == [row] by { assert row[0..] == row; }
    assert [row][0] == row && !Indexed(rx, row);
    assert Items(rx, [row][1..]) == [];
    TrimsWithin(row);
  }

  lemma {:induction false} TrimsWithin(s: string)
    ensures forall c :: c in TrimSpace(s) ==> c in s
    decreases |s|
  {
    if s != "" {
      if IsSpace(s[0]) {
        TrimsWithin(s[1..]);
      } else if IsSpace(s[|s| - 1]) {
        TrimsWithin(s[..|s| - 1]);
      }
    }
  }

  /** The exact condition, row by row: the row at position k of a table registers what C
      has it initialize if and only if it is not misplaced. */
  lemma {:induction false} RowFollowsCExactlyWhen(rx: Recognizers, layouts: Layouts, st: string, members: seq<Member>,
                                                  row: string, k: nat)
    requires CapturesShrink(rx) && HandlerReads(rx) && WellIndexed(LayoutOf(layouts, st))
    requires |members| == |LayoutOf(layouts, st)| && FlatRow(rx, LayoutOf(layouts, st), row)
    ensures FollowsC(rx, layouts, st, members, row, k)
       <==> !Misplaced(rx, st, LayoutOf(layouts, st), members, row, k)
    ensures FollowsC(rx, layouts, st, members, row, k) ==>
              TableRow(rx, layouts, st, row, k) == RowRegisters(rx, LayoutOf(layouts, st), members, row)
  {
    if LooksNested(row) {
      NestedRowFollowsCExactlyWhen(rx, layouts, st, members, row, k);
    } else {
      SingleRowFollowsCExactlyWhen(rx, layouts, st, members, row, k);
    }
  }

  lemma {:induction false} NestedRowFollowsCExactlyWhen(rx: Recognizers, layouts: Layouts, st: string,
                                                        members: seq<Member>, row: string, k: nat)
    requires CapturesShrink(rx) && LooksNested(row) && WellIndexed(LayoutOf(layouts, st))
    requires |members| == |LayoutOf(layouts, st)| && FlatRow(rx, LayoutOf(layouts, st), row)
    ensures FollowsC(rx, layouts, st, members, row, k)
       <==> !Misplaced(rx, st, LayoutOf(layouts, st), members, row, k)
    ensures FollowsC(rx, layouts, st, members, row, k) ==>
              RowRequests(rx, layouts, st, row) == RowRegisters(rx, LayoutOf(layouts, st), members, row)
  {
    hide LooksNested, RequestFor, InPlace, RowRequests, RowRegisters, CapturesShrink, WellIndexed;
    var (layout, items) := (LayoutOf(layouts, st), Items(rx, Splitter.SplitTopLevel(row)));
    forall i | 0 <= i < |items|
      ensures RequestFor(rx, Scanned(st, layout, items, i), ValueOf(items[i]))
              == RequestFor(rx, InC(layout, members, items, i), ValueOf(items[i]))
         <==> InPlace(rx, st, layout, members, items, i)
    {
      ItemFollowsCExactlyWhen(rx, st, layout, members, items, i);
    }
    if AllInPlace(rx, st, layout, members, items) {
      RowInPlaceFollowsC(rx, layouts, st, members, row);
    }
  }

  lemma {:induction false} SingleRowFollowsCExactlyWhen(rx: Recognizers, layouts: Layouts, st: string,
                                                        members: seq<Member>, row: string, k: nat)
    requires CapturesShrink(rx) && HandlerReads(rx) && !LooksNested(row)
    requires |members| == |LayoutOf(layouts, st)| && FlatRow(rx, LayoutOf(layouts, st), row)
    ensures FollowsC(rx, layouts, st, members, row, k)
       <==> !Misplaced(rx, st, LayoutOf(layouts, st), members, row, k)
  {
    hide LooksNested, Classify, TrimSpace, FlatRow, RowRegisters, CapturesShrink, InC, ScannedAt;
    var layout := LayoutOf(layouts, st);
    SingleItem(rx, layout, row);
    SingleItemRegisters(rx, layout, members, row);
    PlacedAt(rx, layouts, st, k, row);
    var trimmed := TrimSpace(row);
    assert rx.handler(trimmed) == rx.handler(row);
  }

  lemma PlacedAt(rx: Recognizers, layouts: Layouts, st: string, k: nat, row: string)
    ensures Place(rx, layouts, st, k, row) == RequestFor(rx, ScannedAt(st, LayoutOf(layouts, st), k), row)
  {
  }

  /** C's rule for a row of a single item. */
  lemma {:induction false} SingleItemRegisters(rx: Recognizers, layout: Layout, members: seq<Member>, row: string)
    requires CapturesShrink(rx) && !LooksNested(row) && |members| == |layout| && FlatRow(rx, layout, row)
    ensures var items := Items(rx, Splitter.SplitTopLevel(row));
            RowRegisters(rx, layout, members, row)
            == if items == [] then [] else RequestFor(rx, InC(layout, members, items, 0), ValueOf(items[0]))
  {
    hide LooksNested, Classify, TrimSpace, InC, RequestFor;
    var items := Items(rx, Splitter.SplitTopLevel(row));
    SingleItem(rx, layout, row);
    if items != [] {
      assert AllRegister(rx, layout, members, items, 0) == [];
      assert AllRegister(rx, layout, members, items, 1)
          == [] + RequestFor(rx, InC(layout, members, items, 0), ValueOf(items[0]));
    }
  }

  /** All rows are flat. */
  ghost predicate FlatRows(rx: Recognizers, layout: Layout, rows: seq<string>)
    requires CapturesShrink(rx)
  {
    forall k :: 0 <= k < |rows| ==> FlatRow(rx, layout, rows[k])
  }

  /** The rows of a table of flat rows, in C's terms. */
  ghost function EachRegisters(rx: Recognizers, layout: Layout, members: seq<Member>, rows: seq<string>): seq<Request>
    requires CapturesShrink(rx) && |members| == |layout| && FlatRows(rx, layout, rows)
  {
    if rows == [] then []
    else RowRegisters(rx, layout, members, rows[0]) + EachRegisters(rx, layout, members, rows[1..])
  }

  /** No row of a table whose first row stands at position k is misplaced. */
  ghost predicate NoneMisplaced(rx: Recognizers, st: string, layout: Layout, members: seq<Member>, rows: seq<string>,
                                k: nat)
    requires CapturesShrink(rx) && |members| == |layout| && FlatRows(rx, layout, rows)
  {
    forall i :: 0 <= i < |rows| ==> !Misplaced(rx, st, layout, members, rows[i], k + i)
  }

  lemma {:induction false} RowsFollowC(rx: Recognizers, layouts: Layouts, st: string, members: seq<Member>,
                                       rows: seq<string>, k: nat)
    requires CapturesShrink(rx) && HandlerReads(rx) && WellIndexed(LayoutOf(layouts, st))
    requires |members| == |LayoutOf(layouts, st)| && FlatRows(rx, LayoutOf(layouts, st), rows)
    requires NoneMisplaced(rx, st, LayoutOf(layouts, st), members, rows, k)
    ensures TableRows(rx, layouts, st, rows, k) == EachRegisters(rx, LayoutOf(layouts, st), members, rows)
  {
    hide TableRow, RowRegisters, FlatRow, FollowsC, Misplaced, HandlerReads, CapturesShrink, WellIndexed;
    if rows != [] {
      var layout := LayoutOf(layouts, st);
      assert !Misplaced(rx, st, layout, members, rows[0], k + 0);
      RowFollowsCExactlyWhen(rx, layouts, st, members, rows[0], k);
      forall i | 0 <= i < |rows[1..]| ensures !Misplaced(rx, st, layout, members, rows[1..][i], k + 1 + i) {
        assert !Misplaced(rx, st, layout, members, rows[i + 1], k + (i + 1));
      }
      RowsFollowC(rx, layouts, st, members, rows[1..], k + 1);
    }
  }

  /** The exact condition for a table of any length: each of its rows registers what C has
      it initialize if and only if none is misplaced, and then the table registers every
      item of every row for exactly the field of its array element that C assigns it. */
  lemma {:induction false} TableFollowsCExactlyWhen(rx: Recognizers, layouts: Layouts, st: string, members: seq<Member>,
                                                    text: string, rows: seq<string>)
    requires CapturesShrink(rx) && HandlerReads(rx) && WellIndexed(LayoutOf(layouts, st))
    requires |members| == |LayoutOf(layouts, st)|
    requires IsTable(rx, text, rows) && FlatRows(rx, LayoutOf(layouts, st), rows)
    ensures RowRequests(rx, layouts, st, text) == TableRows(rx, layouts, st, rows, 0)
    ensures (forall k :: 0 <= k < |rows| ==> FollowsC(rx, layouts, st, members, rows[k], k))
       <==> NoneMisplaced(rx, st, LayoutOf(layouts, st), members, rows, 0)
    ensures NoneMisplaced(rx, st, LayoutOf(layouts, st), members, rows, 0) ==>
              RowRequests(rx, layouts, st, text) == EachRegisters(rx, LayoutOf(layouts, st), members, rows)
  {
    hide TableRow, TableRows, RowRegisters, FlatRow, FollowsC, Misplaced, HandlerReads, CapturesShrink, WellIndexed;
    hide RowRequests, IsTable;
    var layout := LayoutOf(layouts, st);
    TableIsRowByRow(rx, layouts, st, text, rows);
    forall k | 0 <= k < |rows|
      ensures FollowsC(rx, layouts, st, members, rows[k], k) <==> !Misplaced(rx, st, layout, members, rows[k], k)
    {
      RowFollowsCExactlyWhen(rx, layouts, st, members, rows[k], k);
    }
    if NoneMisplaced(rx, st, layout, members, rows, 0) {
      RowsFollowC(rx, layouts, st, members, rows, 0);
    }
  }

  /** Rows of two or more items, none of them read for an aggregate, are never misplaced. */
  lemma {:induction false} TableFollowsC(rx: Recognizers, layouts: Layouts, st: string, members: seq<Member>,
                                         text: string, rows: seq<string>)
    requires CapturesShrink(rx) && HandlerReads(rx) && WellIndexed(LayoutOf(layouts, st))
    requires Sees(st, LayoutOf(layouts, st), members)
    requires IsTable(rx, text, rows) && FlatRows(rx, LayoutOf(layouts, st), rows) && AllLookNested(rows)
    requires forall k :: 0 <= k < |rows| ==>
               AllOnScalars(LayoutOf(layouts, st), members, Items(rx, Splitter.SplitTopLevel(rows[k])))
    ensures RowRequests(rx, layouts, st, text) == EachRegisters(rx, LayoutOf(layouts, st), members, rows)
  {
    hide RowRequests, IsTable, TableRows, EachRegisters, LooksNested, InPlace, InStep;
    var layout := LayoutOf(layouts, st);
    forall k | 0 <= k < |rows| ensures !Misplaced(rx, st, layout, members, rows[k], k) {
      var items := Items(rx, Splitter.SplitTopLevel(rows[k]));
      assert AllOnScalars(layout, members, items);
      forall i | 0 <= i < |items| ensures InPlace(rx, st, layout, members, items, i) {
        OnScalarsInPlace(rx, st, layout, members, items, i);
      }
    }
    TableFollowsCExactlyWhen(rx, layouts, st, members, text, rows);
  }

  // ---- tables that do not follow C ----

  /** Every row is a single designated item. */
  ghost predicate AllSingleDesignated(rx: Recognizers, rows: seq<string>)
    requires CapturesShrink(rx)
  {
    forall k :: 0 <= k < |rows| ==> !LooksNested(rows[k]) && rx.designated(TrimSpace(rows[k])).Some?
  }

  /** Rows of one designated item each, as in `{ .scan = a }, { .scan = b }`: the scanner
      takes the text with its designator for the value, and registers nothing at all. */
  lemma {:induction false} DesignatedRowsRegisterNothing(rx: Recognizers, layouts: Layouts, st: string, text: string,
                                                         rows: seq<string>)
    requires CapturesShrink(rx) && HandlerReads(rx) && IsTable(rx, text, rows) && AllSingleDesignated(rx, rows)
    ensures RowRequests(rx, layouts, st, text) == []
  {
    TableIsRowByRow(rx, layouts, st, text, rows);
    DesignatedRowsFrom(rx, layouts, st, rows, 0);
  }

  lemma {:induction false} DesignatedRowsFrom(rx: Recognizers, layouts: Layouts, st: string, rows: seq<string>, k: int)
    requires CapturesShrink(rx) && HandlerReads(rx) && AllSingleDesignated(rx, rows)
    ensures TableRows(rx, layouts, st, rows, k) == []
  {
    hide LooksNested, TrimSpace, RowRequests, CapturesShrink;
    if rows != [] {
      var trimmed := TrimSpace(rows[0]);
      assert rx.handler(trimmed) == rx.handler(rows[0]) == "";
      DesignatedRowsFrom(rx, layouts, st, rows[1..], k + 1);
    }
  }

  const TWO_HOOKS: Layout := [Field("open", 0, true, ""), Field("close", 1, true, "")]

  /** A word that the expressions read as a handler and nothing else. */
  predicate PlainHandler(rx: Recognizers, c: char) {
    !IsSpace(c) && !IsBraceOrBlank(c) && c != ',' && Delta(AllKinds, c) == 0
    && rx.handler([c]) == [c] && rx.designated([c]).None? && rx.arrayIdx([c]).None?
  }

  lemma {:induction false} OneLetter(rx: Recognizers, c: char)
    requires CapturesShrink(rx) && PlainHandler(rx, c)
    ensures Clean([c]) && Balanced([c], AllKinds) && !LooksNested([c])
    ensures Classify(rx, [c]) == Positional([c]) && TrimSpace([c]) == [c]
    ensures FlatRow(rx, TWO_HOOKS, [c])
    ensures Splitter.OnePiece([c]) && Splitter.SplitTopLevel([c]) == [[c]]
  {
    assert Depth([c], AllKinds, 0, 1) == Depth([c], AllKinds, 0, 0) == 0;
    assert TrimSpace([c]) == [c];
    Splitter.CutsOfOnePiece([c], 0);
    assert Splitter.SplitTopLevel([c]) == [[c]] by { assert [c][0..] == [c]; }
    assert Classify(rx, [c]) == Positional([c]);
    assert Items(rx, [[c]]) == [Positional([c])] by { assert [[c]][1..] == [] && Items(rx, []) == []; }
  }

  // -- brace elision --

  /** struct s { struct in x; int (*f)(void); int (*g)(void); } with two integers in `in`. */
  const WRAPPED: Layout := [Field("x", 0, false, "in"), Field("f", 1, true, ""), Field("g", 2, true, "")]
  const WRAPPED_MEMBERS :=
    [Group([Leaf(None), Leaf(None)]), Leaf(Some(Reg("s", "f"))), Leaf(Some(Reg("s", "g")))]

  /** In `1,2,h` the first two values are the members of x by C's rule, and h is f's; the
      scanner takes the second for f and h for g. */
  lemma {:induction false} ElidedRow(rx: Recognizers, layouts: Layouts)
    requires CapturesShrink(rx) && PlainHandler(rx, '1') && PlainHandler(rx, '2') && PlainHandler(rx, 'h')
    requires LayoutOf(layouts, "s") == WRAPPED
    ensures Sees("s", WRAPPED, WRAPPED_MEMBERS) && Separate("s", WRAPPED, WRAPPED_MEMBERS)
    ensures FlatRow(rx, WRAPPED, "1,2,h")
    ensures RowRequests(rx, layouts, "s", "1,2,h") == [Request("s", "f", "2"), Request("s", "g", "h")]
    ensures RowRegisters(rx, WRAPPED, WRAPPED_MEMBERS, "1,2,h") == [Request("s", "f", "h")]
  {
    hide RowRequests, CapturesShrink, PlainHandler, Classify, TrimSpace;
    var row, items := "1,2,h", [Positional("1"), Positional("2"), Positional("h")];
    ThreeLetters(rx);
    ItemsOfThree(rx);
    RowOfThree(rx, layouts, row, items);
    RegistersOfThree(rx, items);
    WrappedSeen();
  }

  lemma WrappedSeen()
    ensures Sees("s", WRAPPED, WRAPPED_MEMBERS) && Separate("s", WRAPPED, WRAPPED_MEMBERS)
  {
    var parts := [Leaf(None), Leaf(None)];
    assert forall k, t :: 0 <= k < |parts| && t in Targets(parts[k]) ==> false;
    assert Targets(WRAPPED_MEMBERS[0]) == {} && Targets(WRAPPED_MEMBERS[1]) == {Reg("s", "f")};
  }

  lemma {:induction false} ThreeLetters(rx: Recognizers)
    requires CapturesShrink(rx) && PlainHandler(rx, '1') && PlainHandler(rx, '2') && PlainHandler(rx, 'h')
    ensures Splitter.SplitTopLevel("1,2,h") == ["1", "2", "h"]
    ensures Classify(rx, "1") == Positional("1") && Classify(rx, "2") == Positional("2")
    ensures Classify(rx, "h") == Positional("h")
    ensures !Indexed(rx, "1") && !Indexed(rx, "2") && !Indexed(rx, "h")
    ensures rx.handler("1") == "1" && rx.handler("2") == "2" && rx.handler("h") == "h"
  {
    hide CapturesShrink, Classify, Splitter.SplitTopLevel;
    OneLetter(rx, '1');
    OneLetter(rx, '2');
    OneLetter(rx, 'h');
    assert "1,2,h" == "1" + "," + ("2" + "," + "h");
    Splitter.SplitsOffPiece("1", "2" + "," + "h");
    Splitter.SplitsOffPiece("2", "h");
  }

  lemma OneItem(rx: Recognizers, piece: string, value: string, rest: seq<string>)
    requires CapturesShrink(rx) && Classify(rx, piece) == Positional(value)
    ensures Items(rx, [piece] + rest) == [Positional(value)] + Items(rx, rest) && Items(rx, []) == []
  {
    hide Classify;
    assert ([piece] + rest)[1..] == rest;
  }

  lemma {:induction false} ItemsOfThree(rx: Recognizers)
    requires CapturesShrink(rx)
    requires Classify(rx, "1") == Positional("1") && Classify(rx, "2") == Positional("2")
    requires Classify(rx, "h") == Positional("h")
    ensures Items(rx, ["1", "2", "h"]) == [Positional("1"), Positional("2"), Positional("h")]
  {
    hide *;
    OneItem(rx, "h", "h", []);
    OneItem(rx, "2", "2", ["h"]);
    OneItem(rx, "1", "1", ["2", "h"]);
    assert ["h"] + [] == ["h"] && ["2"] + ["h"] == ["2", "h"] && ["1"] + ["2", "h"] == ["1", "2", "h"];
  }

  lemma OnePlaced(rx: Recognizers, layouts: Layouts, value: string, rest: seq<Item>, pos: int)
    requires FlatItems(LayoutOf(layouts, "s"), rest)
    ensures FlatItems(LayoutOf(layouts, "s"), [Positional(value)] + rest)
    ensures FlatFrom(rx, layouts, "s", [Positional(value)] + rest, pos)
         == Place(rx, layouts, "s", pos, value) + FlatFrom(rx, layouts, "s", rest, pos + 1)
    ensures FlatFrom(rx, layouts, "s", [], pos) == []
  {
    hide Place;
    assert ([Positional(value)] + rest)[1..] == rest;
  }

  lemma {:induction false} PlacedInThree(rx: Recognizers, layouts: Layouts)
    requires LayoutOf(layouts, "s") == WRAPPED && rx.handler("2") == "2" && rx.handler("h") == "h"
    ensures Place(rx, layouts, "s", 0, "1") == []
    ensures Place(rx, layouts, "s", 1, "2") == [Request("s", "f", "2")]
    ensures Place(rx, layouts, "s", 2, "h") == [Request("s", "g", "h")]
  {
  }

  lemma {:induction false} FlatOfThree(rx: Recognizers, layouts: Layouts, items: seq<Item>)
    requires LayoutOf(layouts, "s") == WRAPPED && rx.handler("2") == "2" && rx.handler("h") == "h"
    requires items == [Positional("1"), Positional("2"), Positional("h")]
    ensures FlatItems(LayoutOf(layouts, "s"), items)
    ensures FlatFrom(rx, layouts, "s", items, 0) == [Request("s", "f", "2"), Request("s", "g", "h")]
  {
    PlacedInThree(rx, layouts);
    assert FlatItems(LayoutOf(layouts, "s"), []);
    hide *;
    OnePlaced(rx, layouts, "h", [], 2);
    OnePlaced(rx, layouts, "2", [Positional("h")], 1);
    OnePlaced(rx, layouts, "1", [Positional("2"), Positional("h")], 0);
    assert [Positional("h")] + [] == [Positional("h")];
    assert [Positional("2")] + [Positional("h")] == [Positional("2"), Positional("h")];
    assert [Positional("1")] + [Positional("2"), Positional("h")] == items;
  }

  lemma {:induction false} RowOfThree(rx: Recognizers, layouts: Layouts, row: string, items: seq<Item>)
    requires CapturesShrink(rx) && LayoutOf(layouts, "s") == WRAPPED
    requires items == [Positional("1"), Positional("2"), Positional("h")]
    requires Items(rx, Splitter.SplitTopLevel(row)) == items
    requires rx.handler("2") == "2" && rx.handler("h") == "h"
    ensures RowRequests(rx, layouts, "s", row) == [Request("s", "f", "2"), Request("s", "g", "h")]
  {
    hide *;
    RowIsPieces(rx, layouts, "s", row);
    FlatOfThree(rx, layouts, items);
    PiecesAreFlat(rx, layouts, "s", Splitter.SplitTopLevel(row), 0, |row|);
  }

  lemma {:induction false} RegistersOfThree(rx: Recognizers, items: seq<Item>)
    requires items == [Positional("1"), Positional("2"), Positional("h")]
    requires rx.handler("h") == "h"
    ensures FlatItems(WRAPPED, items)
    ensures AllRegister(rx, WRAPPED, WRAPPED_MEMBERS, items, 3) == [Request("s", "f", "h")]
  {
    var ms := WRAPPED_MEMBERS;
    assert [Leaf(None), Leaf(None)][1..] == [Leaf(None)] && [Leaf(None)][1..] == [];
    assert [] + [Leaf(None)] == [Leaf(None)];
    assert ReachIn(ms[0], "1") == (None, [Leaf(None)]) by { assert ReachIn(Leaf(None), "1") == (None, []); }
    assert Reach(ms, "1") == (None, [Leaf(None)] + ms[1..]);
    assert RestBefore(WRAPPED, ms, items, 1) == [Leaf(None)] + ms[1..];
    assert ([Leaf(None)] + ms[1..])[1..] == ms[1..];
    assert RestBefore(WRAPPED, ms, items, 2) == ms[1..];
    assert InC(WRAPPED, ms, items, 0) == None && InC(WRAPPED, ms, items, 1) == None;
    assert InC(WRAPPED, ms, items, 2) == Some(Reg("s", "f"));
    assert AllRegister(rx, WRAPPED, ms, items, 1) == [];
    assert AllRegister(rx, WRAPPED, ms, items, 2) == [];
  }

  // -- rows of a single item --

  const HOOK_MEMBERS := [Leaf(Some(Reg("ops", "open"))), Leaf(Some(Reg("ops", "close")))]

  /** Two rows of one item each, `{ a }, { b }`, for a struct of two hooks: b is
      registered for the second field, where C has it initialize the first field of the
      second array element. */
  lemma {:induction false} SingleItemRows(rx: Recognizers, layouts: Layouts)
    requires CapturesShrink(rx) && IndexInBrackets(rx) && PlainHandler(rx, 'a') && PlainHandler(rx, 'b')
    requires LayoutOf(layouts, "ops") == TWO_HOOKS
    ensures RowRequests(rx, layouts, "ops", Formatted("", ["a", "b"]))
         == [Request("ops", "open", "a"), Request("ops", "close", "b")]
    ensures Sees("ops", TWO_HOOKS, HOOK_MEMBERS) && FlatRow(rx, TWO_HOOKS, "b")
    ensures RowRegisters(rx, TWO_HOOKS, HOOK_MEMBERS, "b") == [Request("ops", "open", "b")]
  {
    hide *;
    HookTable(rx, layouts);
    HookRow(rx);
  }

  lemma {:induction false} HookTable(rx: Recognizers, layouts: Layouts)
    requires CapturesShrink(rx) && IndexInBrackets(rx) && PlainHandler(rx, 'a') && PlainHandler(rx, 'b')
    requires LayoutOf(layouts, "ops") == TWO_HOOKS
    ensures RowRequests(rx, layouts, "ops", Formatted("", ["a", "b"]))
         == [Request("ops", "open", "a"), Request("ops", "close", "b")]
  {
    hide RowRequests, IsTable, Formatted, Balanced, CapturesShrink, IndexInBrackets, Clean, LooksNested, TableRows;
    hide Splitter.OnePiece, Splitter.SplitTopLevel, Classify, FlatRow, TrimSpace;
    var rows := ["a", "b"];
    OneLetter(rx, 'a');
    OneLetter(rx, 'b');
    FormattedIsTable(rx, "", rows);
    TableIsRowByRow(rx, layouts, "ops", Formatted("", rows), rows);
    TwoRows(rx, layouts, "ops", "a", "b");
  }

  lemma {:induction false} HookRow(rx: Recognizers)
    requires CapturesShrink(rx) && PlainHandler(rx, 'b')
    ensures Sees("ops", TWO_HOOKS, HOOK_MEMBERS) && FlatRow(rx, TWO_HOOKS, "b")
    ensures RowRegisters(rx, TWO_HOOKS, HOOK_MEMBERS, "b") == [Request("ops", "open", "b")]
  {
    hide CapturesShrink, TrimSpace, Classify, Clean, LooksNested, Sees, FlatRow, RowRegisters, Balanced, InC;
    hide Splitter.OnePiece, Splitter.SplitTopLevel;
    OneLetter(rx, 'b');
    HooksSeen();
    SingleItemRegisters(rx, TWO_HOOKS, HOOK_MEMBERS, "b");
    SingleItem(rx, TWO_HOOKS, "b");
    OnFirst([Positional("b")]);
  }

  lemma HooksSeen()
    ensures Sees("ops", TWO_HOOKS, HOOK_MEMBERS) && |HOOK_MEMBERS| == |TWO_HOOKS|
  {
  }

  lemma OnFirst(items: seq<Item>)
    requires |items| == 1 && items[0].Positional?
    ensures FlatItems(TWO_HOOKS, items) && InC(TWO_HOOKS, HOOK_MEMBERS, items, 0) == Some(Reg("ops", "open"))
  {
  }

  lemma {:induction false} TwoRows(rx: Recognizers, layouts: Layouts, st: string, a: string, b: string)
    requires CapturesShrink(rx)
    ensures TableRows(rx, layouts, st, [a, b], 0) == TableRow(rx, layouts, st, a, 0) + TableRow(rx, layouts, st, b, 1)
  {
    hide TableRow;
    assert [a, b][1..] == [b] && [b][1..] == [];
    assert TableRows(rx, layouts, st, [b], 1) == TableRow(rx, layouts, st, b, 1) + TableRows(rx, layouts, st, [], 2);
  }
}
