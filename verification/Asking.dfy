/** What an initializer asks to be registered, item by item. */
module Asking {
  // scanRow of internal/fnptr/fnptr.go as a relation: a row asks for a registration if one
  // of its items does, at the field where the scanner stands then.  So what is proved of
  // single items holds of whole initializers.

  import opened Text
  import opened Propagation
  import opened InitRows
  import opened InitTables
  import opened Brackets
  import opened Rearrangement
  import Splitter

  /** The position at which piece k of a row is read: behind the pieces in front of it,
      blank ones left out, and behind the field that the last designator names. */
  function CursorBefore(rx: Recognizers, layouts: Layouts, st: string, pieces: seq<string>, k: nat): int
    requires CapturesShrink(rx) && k <= |pieces|
  {
    if k == 0 then 0
    else
      match Classify(rx, pieces[k - 1])
      case Blank => CursorBefore(rx, layouts, st, pieces, k - 1)
      case Designated(field, _) => IndexOf(LayoutOf(layouts, st), field) + 1
      case _ => CursorBefore(rx, layouts, st, pieces, k - 1) + 1
  }

  /** A value at position p of the layout asks for its handler there. */
  predicate ValueAsks(rx: Recognizers, layouts: Layouts, st: string, p: int, value: string, r: Request) {
    var layout := LayoutOf(layouts, st);
    && 0 <= p < |layout| && layout[p].fnPtr && rx.handler(value) != ""
    && r == Request(st, layout[p].name, rx.handler(value))
  }

  /** Some piece of the row asks for r. */
  ghost predicate RowAsks(rx: Recognizers, layouts: Layouts, st: string, row: string, r: Request)
    requires CapturesShrink(rx)
    decreases |row|, 1
  {
    exists k :: PieceAsks(rx, layouts, st, row, k, r)
  }

  ghost predicate PieceAsks(rx: Recognizers, layouts: Layouts, st: string, row: string, k: nat, r: Request)
    requires CapturesShrink(rx)
    decreases |row|, 0
  {
    var pieces, layout := Splitter.SplitTopLevel(row), LayoutOf(layouts, st);
    k < |pieces| &&
    (Splitter.PiecesAreShort(row, k);
     var item := Classify(rx, pieces[k]);
     if item.Nested? then RowAsks(rx, layouts, st, item.inner, r)
     else if item.Designated? && !IsFnPtr(layout, item.field) then
       var inner := StructTypeOf(layout, item.field);
       inner != "" && OpensBrace(item.value) && LayoutOf(layouts, inner) != []
       && RowAsks(rx, layouts, inner, TrimBraces(item.value), r)
     else LeafAsks(rx, layouts, st, item, CursorBefore(rx, layouts, st, pieces, k), r))
  }

  /** An item that holds no row: a designated value asks for its handler at its field, any
      other value at the position where it is read. */
  predicate LeafAsks(rx: Recognizers, layouts: Layouts, st: string, item: Item, pos: int, r: Request) {
    match item
    case Scalar(value) => ValueAsks(rx, layouts, st, pos, value, r)
    case Positional(value) => ValueAsks(rx, layouts, st, pos, value, r)
    case Designated(field, value) => rx.handler(value) != "" && r == Request(st, field, rx.handler(value))
    case _ => false
  }

  // ---- the scanner ----

  lemma {:induction false} CursorStep(rx: Recognizers, layouts: Layouts, st: string, pieces: seq<string>, k: nat)
    requires CapturesShrink(rx) && k < |pieces|
    ensures CursorBefore(rx, layouts, st, pieces, k + 1)
         == NextPos(layouts, st, Classify(rx, pieces[k]), CursorBefore(rx, layouts, st, pieces, k))
  {
    hide Classify;
  }

  /** Piece k of the row, as the scanner reads it, hands r to addReg. */
  ghost predicate Hands(rx: Recognizers, layouts: Layouts, st: string, row: string, k: nat, r: Request)
    requires CapturesShrink(rx)
  {
    var pieces := Splitter.SplitTopLevel(row);
    k < |pieces| &&
    (Splitter.PiecesAreShort(row, k);
     r in ItemRequests(rx, layouts, st, Classify(rx, pieces[k]), CursorBefore(rx, layouts, st, pieces, k), |row|))
  }

  lemma {:induction false} PiecesHand(rx: Recognizers, layouts: Layouts, st: string, row: string, j: nat, r: Request)
    requires CapturesShrink(rx) && NoLonger(Splitter.SplitTopLevel(row), |row|) && j <= |Splitter.SplitTopLevel(row)|
    ensures var pieces := Splitter.SplitTopLevel(row);
            NoLonger(pieces[j..], |row|) &&
            (r in PieceRequests(rx, layouts, st, pieces[j..], CursorBefore(rx, layouts, st, pieces, j), |row|)
             <==> exists k: nat :: j <= k && Hands(rx, layouts, st, row, k, r))
    decreases |Splitter.SplitTopLevel(row)| - j
  {
    hide PieceRequests, ItemRequests, Classify, CursorBefore, Splitter.SplitTopLevel;
    var pieces := Splitter.SplitTopLevel(row);
    var pos := CursorBefore(rx, layouts, st, pieces, j);
    if j == |pieces| {
      assert pieces[j..] == [];
      NoPieces(rx, layouts, st, pos, |row|);
    } else {
      PieceCons(rx, layouts, st, pieces[j..], pos, |row|);
      assert pieces[j..][0] == pieces[j] && pieces[j..][1..] == pieces[j + 1..];
      CursorStep(rx, layouts, st, pieces, j);
      PiecesHand(rx, layouts, st, row, j + 1, r);
      assert Hands(rx, layouts, st, row, j, r)
        <==> r in ItemRequests(rx, layouts, st, Classify(rx, pieces[j]), pos, |row|);
    }
  }

  /** A row hands to addReg exactly what its items ask for. */
  lemma {:induction false} RowAsksExactly(rx: Recognizers, layouts: Layouts, st: string, row: string, r: Request)
    requires CapturesShrink(rx)
    ensures r in RowRequests(rx, layouts, st, row) <==> RowAsks(rx, layouts, st, row, r)
    decreases |row|
  {
    var pieces := Splitter.SplitTopLevel(row);
    RowIsPieces(rx, layouts, st, row);
    assert pieces[0..] == pieces;
    PiecesHand(rx, layouts, st, row, 0, r);
    hide RowRequests, PieceRequests, Splitter.SplitTopLevel, Hands, PieceAsks;
    forall k: nat ensures Hands(rx, layouts, st, row, k, r) <==> PieceAsks(rx, layouts, st, row, k, r) {
      PieceAsksExactly(rx, layouts, st, row, k, r);
    }
  }

  ghost predicate ItemAsks(rx: Recognizers, layouts: Layouts, st: string, item: Item, pos: int, r: Request)
    requires CapturesShrink(rx)
  {
    var layout := LayoutOf(layouts, st);
    if item.Nested? then r in RowRequests(rx, layouts, st, item.inner)
    else if item.Designated? && !IsFnPtr(layout, item.field) then
      var inner := StructTypeOf(layout, item.field);
      inner != "" && OpensBrace(item.value) && LayoutOf(layouts, inner) != []
      && r in RowRequests(rx, layouts, inner, TrimBraces(item.value))
    else LeafAsks(rx, layouts, st, item, pos, r)
  }

  lemma ItemHands(rx: Recognizers, layouts: Layouts, st: string, item: Item, pos: int, bound: nat, r: Request)
    requires CapturesShrink(rx) && ShorterThan(item, bound)
    ensures r in ItemRequests(rx, layouts, st, item, pos, bound) <==> ItemAsks(rx, layouts, st, item, pos, r)
  {
    hide RowRequests, TrimBraces, IsFnPtr, StructTypeOf;
  }

  lemma {:induction false} PieceAsksExactly(rx: Recognizers, layouts: Layouts, st: string, row: string, k: nat,
                                            r: Request)
    requires CapturesShrink(rx)
    ensures Hands(rx, layouts, st, row, k, r) <==> PieceAsks(rx, layouts, st, row, k, r)
    decreases |row|, 0
  {
    var pieces := Splitter.SplitTopLevel(row);
    if k < |pieces| {
      Splitter.PiecesAreShort(row, k);
      hide Classify, RowRequests, Splitter.SplitTopLevel, TrimBraces, ItemRequests, CursorBefore, IsFnPtr, RowAsks;
      hide StructTypeOf, LeafAsks;
      ItemHands(rx, layouts, st, Classify(rx, pieces[k]), CursorBefore(rx, layouts, st, pieces, k), |row|, r);
      var item := Classify(rx, pieces[k]);
      if item.Nested? {
        RowAsksExactly(rx, layouts, st, item.inner, r);
      } else if item.Designated? && OpensBrace(item.value) {
        RowAsksExactly(rx, layouts, StructTypeOf(LayoutOf(layouts, st), item.field), TrimBraces(item.value), r);
      }
    }
  }

  // ---- what C has the items initialize ----

  lemma {:induction false} FlatFromHas(rx: Recognizers, layouts: Layouts, st: string, items: seq<Item>, j: nat, i: nat,
                                       pos: int, r: Request)
    requires j <= i < |items| && WellIndexed(LayoutOf(layouts, st)) && FlatItems(LayoutOf(layouts, st), items)
    requires pos == if j == 0 then 0 else Cursor(LayoutOf(layouts, st), items, j - 1) + 1
    requires r in RequestFor(rx, Scanned(st, LayoutOf(layouts, st), items, i), ValueOf(items[i]))
    ensures FlatItems(LayoutOf(layouts, st), items[j..]) && r in FlatFrom(rx, layouts, st, items[j..], pos)
    decreases i - j
  {
    hide FlatItem, FlatRequests, NextPos, Cursor, Scanned, RequestFor, FlatFrom;
    FlatFromSuffix(rx, layouts, st, items, j, pos);
    FlatItemScanned(rx, layouts, st, items, j, pos);
    if j < i {
      FlatFromHas(rx, layouts, st, items, j + 1, i, NextPos(layouts, st, items[j], pos), r);
    }
  }

  /** The handler of an item of a flat row is asked for at the field that C has the item
      initialize, if the scanner reads it for that field. */
  lemma {:induction false} FlatItemAsks(rx: Recognizers, layouts: Layouts, st: string, members: seq<Member>,
                                        row: string, i: nat, k: Reg)
    requires CapturesShrink(rx) && WellIndexed(LayoutOf(layouts, st)) && FlatRow(rx, LayoutOf(layouts, st), row)
    requires |members| == |LayoutOf(layouts, st)| && i < |Items(rx, Splitter.SplitTopLevel(row))|
    requires var (layout, items) := (LayoutOf(layouts, st), Items(rx, Splitter.SplitTopLevel(row)));
             && rx.handler(ValueOf(items[i])) != ""
             && InC(layout, members, items, i) == Some(k) && InPlace(rx, st, layout, members, items, i)
    ensures var items := Items(rx, Splitter.SplitTopLevel(row));
            RowAsks(rx, layouts, st, row, Request(k.owner, k.field, rx.handler(ValueOf(items[i]))))
  {
    var pieces := Splitter.SplitTopLevel(row);
    var items := Items(rx, pieces);
    var r := Request(k.owner, k.field, rx.handler(ValueOf(items[i])));
    RowIsPieces(rx, layouts, st, row);
    assert r in RequestFor(rx, Scanned(st, LayoutOf(layouts, st), items, i), ValueOf(items[i]));
    hide RowRequests, PieceRequests, FlatFrom, RowAsks, Splitter.SplitTopLevel, Items, Classify, InC, Scanned,
         RequestFor;
    PiecesAreFlat(rx, layouts, st, pieces, 0, |row|);
    FlatFromHas(rx, layouts, st, items, 0, i, 0, r);
    assert items[0..] == items;
    RowAsksExactly(rx, layouts, st, row, r);
  }

  /** What the row at position j of a table is scanned for, the table asks for. */
  lemma {:induction false} TableAsks(rx: Recognizers, layouts: Layouts, st: string, text: string, rows: seq<string>,
                                     j: nat, r: Request)
    requires CapturesShrink(rx) && IsTable(rx, text, rows) && j < |rows|
    requires if LooksNested(rows[j]) then RowAsks(rx, layouts, st, rows[j], r)
             else ValueAsks(rx, layouts, st, j, rows[j], r)
    ensures RowAsks(rx, layouts, st, text, r)
  {
    hide RowRequests, RowAsks, IsTable, TableRows, LooksNested;
    TableIsRowByRow(rx, layouts, st, text, rows);
    if LooksNested(rows[j]) {
      RowAsksExactly(rx, layouts, st, rows[j], r);
    }
    RowOfTable(rx, layouts, st, rows, j, 0, r);
    RowAsksExactly(rx, layouts, st, text, r);
  }

  lemma {:induction false} RowOfTable(rx: Recognizers, layouts: Layouts, st: string, rows: seq<string>, j: nat, k: int,
                                      r: Request)
    requires CapturesShrink(rx) && j < |rows| && r in TableRow(rx, layouts, st, rows[j], k + j)
    ensures r in TableRows(rx, layouts, st, rows, k)
    decreases j
  {
    hide TableRow, CapturesShrink;
    var others := TableRows(rx, layouts, st, rows[1..], k + 1);
    assert TableRows(rx, layouts, st, rows, k) == TableRow(rx, layouts, st, rows[0], k) + others;
    if j > 0 {
      assert rows[1..][j - 1] == rows[j];
      RowOfTable(rx, layouts, st, rows[1..], j - 1, k + 1, r);
      assert r in others;
    }
  }

  /** The handler of an item of a row of a table is asked for at the field of its array
      element that C has the item initialize, unless the row is misplaced. */
  lemma {:induction false} TableItemAsks(rx: Recognizers, layouts: Layouts, st: string, members: seq<Member>,
                                         text: string, rows: seq<string>, j: nat, i: nat, k: Reg)
    requires CapturesShrink(rx) && HandlerReads(rx) && WellIndexed(LayoutOf(layouts, st))
    requires IsTable(rx, text, rows) && j < |rows| && FlatRow(rx, LayoutOf(layouts, st), rows[j])
    requires |members| == |LayoutOf(layouts, st)| && i < |Items(rx, Splitter.SplitTopLevel(rows[j]))|
    requires !Misplaced(rx, st, LayoutOf(layouts, st), members, rows[j], j)
    requires var (layout, items) := (LayoutOf(layouts, st), Items(rx, Splitter.SplitTopLevel(rows[j])));
             rx.handler(ValueOf(items[i])) != "" && InC(layout, members, items, i) == Some(k)
    ensures var items := Items(rx, Splitter.SplitTopLevel(rows[j]));
            RowAsks(rx, layouts, st, text, Request(k.owner, k.field, rx.handler(ValueOf(items[i]))))
  {
    var layout, items := LayoutOf(layouts, st), Items(rx, Splitter.SplitTopLevel(rows[j]));
    var r := Request(k.owner, k.field, rx.handler(ValueOf(items[i])));
    if LooksNested(rows[j]) {
      assert InPlace(rx, st, layout, members, items, i);
      FlatItemAsks(rx, layouts, st, members, rows[j], i, k);
    } else {
      SingleItem(rx, layout, rows[j]);
      assert ValueAsks(rx, layouts, st, j, rows[j], r) by { SingleAsks(rx, layouts, st, members, rows[j], j, k, r); }
    }
    hide *;
    TableAsks(rx, layouts, st, text, rows, j, r);
  }

  lemma {:induction false} SingleAsks(rx: Recognizers, layouts: Layouts, st: string, members: seq<Member>, row: string,
                                      j: nat, k: Reg, r: Request)
    requires CapturesShrink(rx) && HandlerReads(rx) && !LooksNested(row) && FlatRow(rx, LayoutOf(layouts, st), row)
    requires |members| == |LayoutOf(layouts, st)| && |Items(rx, Splitter.SplitTopLevel(row))| == 1
    requires !Misplaced(rx, st, LayoutOf(layouts, st), members, row, j)
    requires var (layout, items) := (LayoutOf(layouts, st), Items(rx, Splitter.SplitTopLevel(row)));
             && rx.handler(ValueOf(items[0])) != "" && InC(layout, members, items, 0) == Some(k)
             && r == Request(k.owner, k.field, rx.handler(ValueOf(items[0])))
    ensures ValueAsks(rx, layouts, st, j, row, r)
  {
    var layout, items := LayoutOf(layouts, st), Items(rx, Splitter.SplitTopLevel(row));
    hide Classify, Splitter.SplitTopLevel, InC, FlatRow, TrimSpace, LooksNested;
    SingleItem(rx, layout, row);
    assert TakenFor(st, layout, items[0], j) == Some(k);
    var trimmed := TrimSpace(row);
    assert rx.handler(trimmed) == rx.handler(row);
  }

  // ---- items as they are written ----

  /** A designated item, `.f = value`, asks for its handler at that field wherever it stands in
      its row, if the field is a fn-pointer of the struct. */
  lemma {:induction false} DesignatedAsks(rx: Recognizers, layouts: Layouts, st: string, row: string, k: nat,
                                          field: string, value: string)
    requires CapturesShrink(rx) && k < |Splitter.SplitTopLevel(row)|
    requires Reads(rx, Splitter.SplitTopLevel(row)[k], field, value) && IsFnPtr(LayoutOf(layouts, st), field)
    requires rx.handler(TrimSpace(value)) != ""
    ensures RowAsks(rx, layouts, st, row, Request(st, field, rx.handler(TrimSpace(value))))
  {
    var r := Request(st, field, rx.handler(TrimSpace(value)));
    assert Classify(rx, Splitter.SplitTopLevel(row)[k]) == Designated(field, TrimSpace(value));
    hide Classify, Splitter.SplitTopLevel, Reads, IsFnPtr;
    assert PieceAsks(rx, layouts, st, row, k, r);
  }

  /** The piece, white space left out, is `.field = value`. */
  predicate Reads(rx: Recognizers, piece: string, field: string, value: string) {
    var item := TrimSpace(piece);
    item != "" && item[0] != '{' && rx.arrayIdx(item) == None && rx.designated(item) == Some((field, value))
  }

  /** A value without a designator asks for its handler at the fn-pointer field of its own
      position in the struct, if the same is true of all items in front of it. */
  lemma {:induction false} PositionalAsks(rx: Recognizers, layouts: Layouts, st: string, row: string, k: nat)
    requires CapturesShrink(rx) && k < |Splitter.SplitTopLevel(row)|
    requires forall j :: 0 <= j <= k ==> IsValue(rx, Splitter.SplitTopLevel(row)[j])
    requires k < |LayoutOf(layouts, st)| && LayoutOf(layouts, st)[k].fnPtr
    requires rx.handler(TrimSpace(Splitter.SplitTopLevel(row)[k])) != ""
    ensures RowAsks(rx, layouts, st, row, Request(st, LayoutOf(layouts, st)[k].name,
                                                  rx.handler(TrimSpace(Splitter.SplitTopLevel(row)[k]))))
  {
    var pieces := Splitter.SplitTopLevel(row);
    var value := TrimSpace(pieces[k]);
    var r := Request(st, LayoutOf(layouts, st)[k].name, rx.handler(value));
    ValuesCount(rx, layouts, st, pieces, k);
    ValueIsPositional(rx, pieces[k]);
    hide Classify, Splitter.SplitTopLevel, IsValue;
    assert ValueAsks(rx, layouts, st, k, value, r);
    assert PieceAsks(rx, layouts, st, row, k, r);
  }

  /** The piece, white space left out, is a value: not blank, without braces or a designator. */
  predicate IsValue(rx: Recognizers, piece: string) {
    var item := TrimSpace(piece);
    item != "" && item[0] != '{' && rx.arrayIdx(item) == None && rx.designated(item) == None
  }

  lemma {:induction false} ValuesCount(rx: Recognizers, layouts: Layouts, st: string, pieces: seq<string>, k: nat)
    requires CapturesShrink(rx) && k <= |pieces| && forall j :: 0 <= j < k ==> IsValue(rx, pieces[j])
    ensures CursorBefore(rx, layouts, st, pieces, k) == k
  {
    hide Classify, IsValue, CapturesShrink;
    if k > 0 {
      ValuesCount(rx, layouts, st, pieces, k - 1);
      ValueIsPositional(rx, pieces[k - 1]);
    }
  }

  lemma ValueIsPositional(rx: Recognizers, piece: string)
    requires CapturesShrink(rx) && IsValue(rx, piece)
    ensures Classify(rx, piece) == Positional(TrimSpace(piece))
  {
  }

  // ---- struct values inside a struct ----

  /** `.f = { ... }` for a field f whose value is a struct: the scanner hands over what it
      hands over for the row inside, as a row of that struct. */
  lemma {:induction false} InnerRowIsScanned(rx: Recognizers, layouts: Layouts, st: string, field: string,
                                             before: string, row: string, after: string, pos: int, bound: nat)
    requires CapturesShrink(rx) && Clean(row) && Blanks(before) && Blanks(after)
    requires !IsFnPtr(LayoutOf(layouts, st), field) && StructTypeOf(LayoutOf(layouts, st), field) != ""
    requires LayoutOf(layouts, StructTypeOf(LayoutOf(layouts, st), field)) != []
    requires |before| + |row| + |after| + 2 < bound
    ensures ItemRequests(rx, layouts, st, Designated(field, "{" + (before + (row + (after + "}")))), pos, bound)
         == RowRequests(rx, layouts, StructTypeOf(LayoutOf(layouts, st), field), row)
  {
    hide RowRequests, TrimBraces;
    TrimsToRow(before, row, after);
  }

  /** So, if no item of a flat inner row is read for another field than C has it
      initialize, it registers what C has it initialize in the inner struct. */
  lemma {:induction false} InnerRowFollowsC(rx: Recognizers, layouts: Layouts, st: string, field: string,
                                            members: seq<Member>, before: string, row: string, after: string,
                                            pos: int, bound: nat)
    requires CapturesShrink(rx) && Clean(row) && Blanks(before) && Blanks(after)
    requires !IsFnPtr(LayoutOf(layouts, st), field) && StructTypeOf(LayoutOf(layouts, st), field) != ""
    requires var inner := StructTypeOf(LayoutOf(layouts, st), field);
             && LayoutOf(layouts, inner) != [] && WellIndexed(LayoutOf(layouts, inner))
             && |members| == |LayoutOf(layouts, inner)| && FlatRow(rx, LayoutOf(layouts, inner), row)
             && AllInPlace(rx, inner, LayoutOf(layouts, inner), members, Items(rx, Splitter.SplitTopLevel(row)))
    requires |before| + |row| + |after| + 2 < bound
    ensures ItemRequests(rx, layouts, st, Designated(field, "{" + (before + (row + (after + "}")))), pos, bound)
         == RowRegisters(rx, LayoutOf(layouts, StructTypeOf(LayoutOf(layouts, st), field)), members, row)
  {
    hide RowRequests, ItemRequests, FlatRow, AllInPlace, StructTypeOf, IsFnPtr, RowRegisters;
    InnerRowIsScanned(rx, layouts, st, field, before, row, after, pos, bound);
    RowInPlaceFollowsC(rx, layouts, StructTypeOf(LayoutOf(layouts, st), field), members, row);
  }

  /** And what the inner row asks for, the row around it asks for. */
  lemma {:induction false} InnerRowAsks(rx: Recognizers, layouts: Layouts, st: string, row: string, k: nat, r: Request)
    requires CapturesShrink(rx) && k < |Splitter.SplitTopLevel(row)|
    requires var item := Classify(rx, Splitter.SplitTopLevel(row)[k]);
             && item.Designated? && !IsFnPtr(LayoutOf(layouts, st), item.field) && OpensBrace(item.value)
             && var inner := StructTypeOf(LayoutOf(layouts, st), item.field);
                inner != "" && LayoutOf(layouts, inner) != [] && RowAsks(rx, layouts, inner, TrimBraces(item.value), r)
    ensures RowAsks(rx, layouts, st, row, r)
  {
    hide Classify, Splitter.SplitTopLevel, TrimBraces;
    assert PieceAsks(rx, layouts, st, row, k, r);
  }
}
