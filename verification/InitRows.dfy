/** Struct layouts and initializer rows of internal/fnptr/fnptr.go: which handler an
    initializer registers for which field. */
module InitRows {
  import opened Text
  import opened Propagation
  import opened Rearrangement
  import Splitter

  /** fieldInfo */
  datatype Field = Field(name: string, index: int, fnPtr: bool, structType: string)

  type Layout = seq<Field>
  type Layouts = map<string, Layout>

  /** A Go map read: a missing struct reads as the empty layout. */
  function LayoutOf(layouts: Layouts, st: string): Layout {
    if st in layouts then layouts[st] else []
  }

  // ---- parseStructFields ----

  /** What the regular expressions make of one declaration: a field's name (empty if
      none), whether it is a fn-pointer, and the tag of an aggregate value. */
  datatype Declared = Declared(name: string, fnPtr: bool, structType: string)

  /** Every field's Index is its position. */
  predicate WellIndexed(layout: Layout) {
    forall k :: 0 <= k < |layout| ==> layout[k].index == k
  }

  /** The fields among the first n declarations, in order. */
  function FieldsOf(declared: string -> Declared, decls: seq<string>, n: nat): Layout
    requires n <= |decls|
  {
    if n == 0 then []
    else
      var earlier := FieldsOf(declared, decls, n - 1);
      var text := TrimSpace(decls[n - 1]);
      if text == "" || declared(text).name == "" then earlier
      else earlier + [Field(declared(text).name, |earlier|, declared(text).fnPtr, declared(text).structType)]
  }

  lemma {:induction false} FieldsAreWellIndexed(declared: string -> Declared, decls: seq<string>, n: nat)
    requires n <= |decls|
    ensures WellIndexed(FieldsOf(declared, decls, n))
  {
    if n > 0 { FieldsAreWellIndexed(declared, decls, n - 1); }
  }

  /** The declaration has a field name. */
  predicate DeclaresField(declared: string -> Declared, decl: string) {
    TrimSpace(decl) != "" && declared(TrimSpace(decl)).name != ""
  }

  /** How many of the first i declarations have one: the position of the next field. */
  function Rank(declared: string -> Declared, decls: seq<string>, i: nat): nat
    requires i <= |decls|
  {
    if i == 0 then 0 else Rank(declared, decls, i - 1) + if DeclaresField(declared, decls[i - 1]) then 1 else 0
  }

  /** The layout has one field for every declaration that has a name, in order, and no
      other; each is what its declaration says. */
  lemma {:induction false} FieldsFollowDeclarations(declared: string -> Declared, decls: seq<string>, n: nat, i: nat)
    requires i < n <= |decls|
    ensures |FieldsOf(declared, decls, n)| == Rank(declared, decls, n)
    ensures DeclaresField(declared, decls[i]) ==>
      var d, p := declared(TrimSpace(decls[i])), Rank(declared, decls, i);
      p < |FieldsOf(declared, decls, n)| && FieldsOf(declared, decls, n)[p] == Field(d.name, p, d.fnPtr, d.structType)
  {
    if n > 1 {
      FieldsFollowDeclarations(declared, decls, n - 1, if i < n - 1 then i else 0);
    }
  }

  /** How many members C declares with the first i declarations; `members` says how many
      with one. */
  function MembersBefore(members: string -> nat, decls: seq<string>, i: nat): nat
    requires i <= |decls|
  {
    if i == 0 then 0 else MembersBefore(members, decls, i - 1) + members(decls[i - 1])
  }

  /** The declaration declares one member if the scan finds a field in it, else none. */
  predicate OnePerField(declared: string -> Declared, members: string -> nat, decl: string) {
    members(decl) == if DeclaresField(declared, decl) then 1 else 0
  }

  /** Up to declaration i, C has as many members as the layout has fields. */
  predicate SamePosition(declared: string -> Declared, members: string -> nat, decls: seq<string>, i: nat)
    requires i <= |decls|
  {
    Rank(declared, decls, i) == MembersBefore(members, decls, i)
  }

  /** The layout's positions are those of C's members, wherever a declaration begins, if and
      only if every declaration declares one member where the scan finds a field and none
      where it finds none. */
  lemma {:induction false} PositionsAreMembersExactlyWhen(declared: string -> Declared, members: string -> nat,
                                                          decls: seq<string>, n: nat)
    requires n <= |decls|
    ensures (forall i :: 0 <= i <= n ==> SamePosition(declared, members, decls, i))
       <==> (forall i :: 0 <= i < n ==> OnePerField(declared, members, decls[i]))
  {
    if n > 0 {
      PositionsAreMembersExactlyWhen(declared, members, decls, n - 1);
      OneMorePosition(declared, members, decls, n);
      hide SamePosition, OnePerField;
    }
    if n == 0 {
      assert SamePosition(declared, members, decls, 0);
    }
  }

  lemma OneMorePosition(declared: string -> Declared, members: string -> nat, decls: seq<string>, n: nat)
    requires 0 < n <= |decls|
    ensures SamePosition(declared, members, decls, n - 1) ==>
              (SamePosition(declared, members, decls, n) <==> OnePerField(declared, members, decls[n - 1]))
  {
  }

  /** Two members in one declaration, as in `int a, b`, put every later field one position
      too early. */
  lemma OneFieldTwoMembers(declared: string -> Declared, members: string -> nat)
    requires declared("int a, b").name != "" && members("int a, b") == 2
    ensures Rank(declared, ["int a, b", " int c"], 1) == 1 && MembersBefore(members, ["int a, b", " int c"], 1) == 2
  {
    var d := "int a, b";
    assert TrimSpace(d) == d;
    assert Rank(declared, [d, " int c"], 0) == 0;
  }

  method ParseStructFields(declared: string -> Declared, body: string) returns (fields: Layout)
    ensures fields == FieldsOf(declared, SplitAt(body, ';'), |SplitAt(body, ';')|)
    ensures WellIndexed(fields)
  {
    fields := [];
    var idx := 0;
    var decls := SplitAt(body, ';');
    var k := 0;
    while k < |decls|
      invariant 0 <= k <= |decls| && idx == |fields|
      invariant fields == FieldsOf(declared, decls, k)
    {
      var text := TrimSpace(decls[k]);
      k := k + 1;
      if text == "" {
        continue;
      }
      var d := declared(text);
      if d.name != "" {
        fields := fields + [Field(d.name, idx, d.fnPtr, d.structType)];
        idx := idx + 1;
      }
    }
    FieldsAreWellIndexed(declared, decls, k);
  }

  // ---- looking fields up by name ----

  /** The first field of that name. */
  function Find(layout: Layout, name: string): (r: Option<Field>)
    ensures r.Some? ==> r.value in layout && r.value.name == name
  {
    if layout == [] then None
    else if layout[0].name == name then Some(layout[0])
    else Find(layout[1..], name)
  }

  /** fnPtrField */
  predicate IsFnPtr(layout: Layout, name: string) {
    Find(layout, name).Some? && Find(layout, name).value.fnPtr
  }

  /** fieldStructType */
  function StructTypeOf(layout: Layout, name: string): string {
    if Find(layout, name).Some? then Find(layout, name).value.structType else ""
  }

  /** fieldIndex */
  function IndexOf(layout: Layout, name: string): int {
    if Find(layout, name).Some? then Find(layout, name).value.index else -1
  }

  // ---- rows ----

  /** The regular expressions that read an item, each as what it captures. */
  datatype Recognizers = Recognizers(
    arrayIdx: string -> Option<string>,               // [N] = <value>
    designated: string -> Option<(string, string)>,   // .field = <value>
    handler: string -> string)                        // the identifier a value names, or ""

  /** A captured value is a proper part of the item. */
  ghost predicate CapturesShrink(rx: Recognizers) {
    && (forall s, v :: rx.arrayIdx(s) == Some(v) ==> |v| < |s|)
    && (forall s, f, v :: rx.designated(s) == Some((f, v)) ==> |v| < |s|)
  }

  predicate IsBraceOrBlank(c: char) {
    c == '{' || c == '}' || c == ' '
  }

  /** strings.Trim(s, "{} ") */
  function TrimBraces(s: string): (r: string)
    ensures |r| <= |s|
    ensures s != "" && s[0] == '{' ==> |r| < |s|
    decreases |s|
  {
    if s == "" then ""
    else if IsBraceOrBlank(s[0]) then TrimBraces(s[1..])
    else if IsBraceOrBlank(s[|s| - 1]) then TrimBraces(s[..|s| - 1])
    else s
  }

  predicate OpensBrace(s: string) {
    s != "" && s[0] == '{'
  }

  datatype Item =
    | Blank
    | Nested(inner: string)
    | Scalar(value: string)
    | Designated(field: string, value: string)
    | Positional(value: string)

  /** What kind of item a piece of a row is. */
  function Classify(rx: Recognizers, piece: string): (r: Item)
    requires CapturesShrink(rx)
    ensures r.Nested? ==> |r.inner| < |piece|
    ensures r.Designated? ==> |r.value| < |piece|
  {
    var item := TrimSpace(piece);
    if item == "" then Blank
    else
      var text := match rx.arrayIdx(item) case Some(v) => TrimSpace(v) case None => item;
      if OpensBrace(text) then
        var inner := TrimBraces(text);
        if ',' in inner || '{' in inner then Nested(inner) else Scalar(inner)
      else
        match rx.designated(text)
        case Some((field, value)) => Designated(field, TrimSpace(value))
        case None => Positional(text)
  }

  /** A call of addReg. */
  datatype Request = Request(owner: string, field: string, handler: string)

  /** placePositional */
  function Place(rx: Recognizers, layouts: Layouts, st: string, pos: int, value: string): seq<Request> {
    var layout := LayoutOf(layouts, st);
    if 0 <= pos < |layout| && layout[pos].fnPtr && rx.handler(value) != "" then
      [Request(st, layout[pos].name, rx.handler(value))]
    else []
  }

  /** Everything a row of struct st hands to addReg, in order.  `layout` of the source is
      always the layout of `st`.  A nested row is strictly shorter than the row. */
  function RowRequests(rx: Recognizers, layouts: Layouts, st: string, row: string): seq<Request>
    requires CapturesShrink(rx)
    decreases |row|, 1, 0
  {
    var pieces := Splitter.SplitTopLevel(row);
    assert forall k :: 0 <= k < |pieces| ==> |pieces[k]| <= |row| by {
      forall k | 0 <= k < |pieces| ensures |pieces[k]| <= |row| { Splitter.PiecesAreShort(row, k); }
    }
    PieceRequests(rx, layouts, st, pieces, 0, |row|)
  }

  function PieceRequests(rx: Recognizers, layouts: Layouts, st: string, pieces: seq<string>, pos: int,
                         bound: nat): seq<Request>
    requires CapturesShrink(rx)
    requires forall k :: 0 <= k < |pieces| ==> |pieces[k]| <= bound
    decreases bound, 0, |pieces|
  {
    if pieces == [] then []
    else
      var item := Classify(rx, pieces[0]);
      ItemRequests(rx, layouts, st, item, pos, bound)
      + PieceRequests(rx, layouts, st, pieces[1..], NextPos(layouts, st, item, pos), bound)
  }

  /** The positional cursor after an item. */
  function NextPos(layouts: Layouts, st: string, item: Item, pos: int): int {
    match item
    case Blank => pos
    case Designated(field, _) => IndexOf(LayoutOf(layouts, st), field) + 1
    case _ => pos + 1
  }

  predicate ShorterThan(item: Item, bound: nat) {
    match item
    case Nested(inner) => |inner| < bound
    case Designated(_, value) => |value| < bound
    case _ => true
  }

  function ItemRequests(rx: Recognizers, layouts: Layouts, st: string, item: Item, pos: int, bound: nat): seq<Request>
    requires CapturesShrink(rx) && ShorterThan(item, bound)
    decreases bound, 0, 0
  {
    match item
    case Blank => []
    case Nested(inner) => RowRequests(rx, layouts, st, inner)
    case Scalar(value) => Place(rx, layouts, st, pos, value)
    case Positional(value) => Place(rx, layouts, st, pos, value)
    case Designated(field, value) =>
      var layout := LayoutOf(layouts, st);
      if IsFnPtr(layout, field) then
        if rx.handler(value) != "" then [Request(st, field, rx.handler(value))] else []
      else
        var inner := StructTypeOf(layout, field);
        if inner != "" && OpensBrace(value) && LayoutOf(layouts, inner) != [] then
          RowRequests(rx, layouts, inner, TrimBraces(value))
        else []
  }

  lemma {:induction false} RowIsPieces(rx: Recognizers, layouts: Layouts, st: string, row: string)
    requires CapturesShrink(rx)
    ensures var pieces := Splitter.SplitTopLevel(row);
            && (forall j :: 0 <= j < |pieces| ==> |pieces[j]| <= |row|)
            && RowRequests(rx, layouts, st, row) == PieceRequests(rx, layouts, st, pieces, 0, |row|)
  {
    var pieces := Splitter.SplitTopLevel(row);
    forall j | 0 <= j < |pieces| ensures |pieces[j]| <= |row| { Splitter.PiecesAreShort(row, j); }
  }

  ghost predicate NoLonger(pieces: seq<string>, bound: nat) {
    forall k :: 0 <= k < |pieces| ==> |pieces[k]| <= bound
  }

  /** The first piece, and then the others. */
  lemma {:induction false} PieceCons(rx: Recognizers, layouts: Layouts, st: string, pieces: seq<string>, pos: int,
                                     bound: nat)
    requires CapturesShrink(rx) && pieces != [] && NoLonger(pieces, bound)
    ensures ShorterThan(Classify(rx, pieces[0]), bound) && NoLonger(pieces[1..], bound)
    ensures PieceRequests(rx, layouts, st, pieces, pos, bound)
         == ItemRequests(rx, layouts, st, Classify(rx, pieces[0]), pos, bound)
            + PieceRequests(rx, layouts, st, pieces[1..], NextPos(layouts, st, Classify(rx, pieces[0]), pos), bound)
  {
  }

  lemma {:induction false} NoPieces(rx: Recognizers, layouts: Layouts, st: string, pos: int, bound: nat)
    requires CapturesShrink(rx)
    ensures PieceRequests(rx, layouts, st, [], pos, bound) == []
  {
  }

  // ---- flat rows against C ----

  /** The items of a row, blanks left out. */
  function Items(rx: Recognizers, pieces: seq<string>): seq<Item>
    requires CapturesShrink(rx)
  {
    if pieces == [] then []
    else
      var item := Classify(rx, pieces[0]);
      (if item.Blank? then [] else [item]) + Items(rx, pieces[1..])
  }

  predicate HasField(layout: Layout, name: string) {
    exists p :: 0 <= p < |layout| && layout[p].name == name
  }

  /** A scalar, with or without braces; its designator, if any, is a field of the struct,
      as C requires. */
  predicate FlatItem(layout: Layout, item: Item) {
    match item
    case Designated(field, value) => HasField(layout, field) && !OpensBrace(value)
    case Positional(_) => true
    case Scalar(_) => true
    case Nested(_) => false
    case Blank => false
  }

  predicate FlatItems(layout: Layout, items: seq<Item>) {
    forall k :: 0 <= k < |items| ==> FlatItem(layout, items[k])
  }

  /** The piece has an array designator `[N] =`. */
  predicate Indexed(rx: Recognizers, piece: string) {
    rx.arrayIdx(TrimSpace(piece)).Some?
  }

  /** A row of values for one struct: no array designator, as C requires there, and nothing
      in braces but single values. */
  ghost predicate FlatRow(rx: Recognizers, layout: Layout, row: string)
    requires CapturesShrink(rx)
  {
    var pieces := Splitter.SplitTopLevel(row);
    FlatItems(layout, Items(rx, pieces)) && forall k :: 0 <= k < |pieces| ==> !Indexed(rx, pieces[k])
  }

  /** The position of the field of that name. */
  function PositionOf(layout: Layout, name: string): (p: nat)
    requires HasField(layout, name)
    ensures p < |layout| && layout[p].name == name
    ensures forall k :: 0 <= k < p ==> layout[k].name != name
  {
    if layout[0].name == name then 0
    else
      assert HasField(layout[1..], name) by {
        var p :| 0 <= p < |layout| && layout[p].name == name;
        assert layout[1..][p - 1].name == name;
      }
      1 + PositionOf(layout[1..], name)
  }

  // -- what C has an item initialize --

  /** A member of a struct as its initializer sees it: a scalar, with the fn-pointer field
      it is, if it is one; an array of characters; or the members of a struct, the first
      member of a union, the elements of an array. */
  datatype Member =
    | Leaf(target: Option<Reg>)
    | Chars(size: nat)
    | Group(parts: seq<Member>)

  /** Every member holds a scalar. */
  predicate Inhabited(m: Member) {
    match m
    case Leaf(_) => true
    case Chars(size) => size > 0
    case Group(parts) => parts != [] && forall k :: 0 <= k < |parts| ==> Inhabited(parts[k])
  }

  /** `members` is how C sees the fields of the layout of struct st: an aggregate value is
      a group, a scalar is a fn-pointer field exactly if the layout says so. */
  predicate Sees(st: string, layout: Layout, members: seq<Member>) {
    |members| == |layout| &&
    forall p :: 0 <= p < |layout| ==>
      && Inhabited(members[p])
      && (layout[p].structType != "" ==> members[p].Group?)
      && (members[p].Leaf? ==> members[p].target == ScannedAt(st, layout, p))
      && (members[p].Chars? ==> !layout[p].fnPtr)
  }

  /** The fn-pointer field at position p of the layout. */
  function ScannedAt(st: string, layout: Layout, p: nat): Option<Reg> {
    if p < |layout| && layout[p].fnPtr then Some(Reg(st, layout[p].name)) else None
  }

  predicate IsString(value: string) {
    value != "" && value[0] == '"'
  }

  /** The scalar of a member that a value without braces initializes, and what is then
      left of the member: section 6.7.9, paragraphs 14 and 20. */
  function ReachIn(m: Member, value: string): (Option<Reg>, seq<Member>) {
    match m
    case Leaf(target) => (target, [])
    case Chars(size) => (None, if IsString(value) || size == 0 then [] else seq(size - 1, _ => Leaf(None)))
    case Group(parts) =>
      if parts == [] then (None, [])
      else
        var (target, left) := ReachIn(parts[0], value);
        (target, left + parts[1..])
  }

  /** The same of the members that are left of the row's struct; a value too many, which C
      forbids, initializes nothing. */
  function Reach(rest: seq<Member>, value: string): (Option<Reg>, seq<Member>) {
    if rest == [] then (None, [])
    else
      var (target, left) := ReachIn(rest[0], value);
      (target, left + rest[1..])
  }

  /** Section 6.7.9 of ISO/IEC 9899:2011: what an item of a row initializes, and the members
      left behind it.  A designated item goes on from the named field; a scalar in braces
      initializes the first scalar of the next member and ends it. */
  function StepC(layout: Layout, members: seq<Member>, item: Item, rest: seq<Member>): (Option<Reg>, seq<Member>)
    requires |members| == |layout| && FlatItem(layout, item)
  {
    if item.Designated? then Reach(members[PositionOf(layout, item.field)..], item.value)
    else if item.Scalar? then (Reach(rest, item.value).0, if rest == [] then [] else rest[1..])
    else Reach(rest, item.value)
  }

  /** The members left when item i is reached. */
  function RestBefore(layout: Layout, members: seq<Member>, items: seq<Item>, i: nat): seq<Member>
    requires |members| == |layout| && i <= |items| && FlatItems(layout, items)
  {
    if i == 0 then members
    else
      assert FlatItem(layout, items[i - 1]);
      StepC(layout, members, items[i - 1], RestBefore(layout, members, items, i - 1)).1
  }

  /** The fn-pointer field that C has item i initialize. */
  function InC(layout: Layout, members: seq<Member>, items: seq<Item>, i: nat): Option<Reg>
    requires |members| == |layout| && i < |items| && FlatItems(layout, items)
  {
    assert FlatItem(layout, items[i]);
    StepC(layout, members, items[i], RestBefore(layout, members, items, i)).0
  }

  // -- where the scanner stands --

  /** The position at which the scanner reads item i: the designated field's, else the one
      after the previous item's. */
  function Cursor(layout: Layout, items: seq<Item>, i: nat): nat
    requires i < |items| && FlatItems(layout, items)
    decreases i
  {
    if items[i].Designated? then
      assert FlatItem(layout, items[i]);
      PositionOf(layout, items[i].field)
    else if i == 0 then 0
    else Cursor(layout, items, i - 1) + 1
  }

  /** The fn-pointer field the scanner takes item i for. */
  function Scanned(st: string, layout: Layout, items: seq<Item>, i: nat): Option<Reg>
    requires i < |items| && FlatItems(layout, items)
  {
    ScannedAt(st, layout, Cursor(layout, items, i))
  }

  function ValueOf(item: Item): string {
    match item
    case Designated(_, value) => value
    case Positional(value) => value
    case Scalar(value) => value
    case _ => ""
  }

  /** The registration of a value's handler for a field. */
  function RequestFor(rx: Recognizers, target: Option<Reg>, value: string): seq<Request> {
    if target.Some? && rx.handler(value) != "" then
      [Request(target.value.owner, target.value.field, rx.handler(value))]
    else []
  }

  /** What the first n items register by C's rule. */
  function AllRegister(rx: Recognizers, layout: Layout, members: seq<Member>, items: seq<Item>, n: nat): seq<Request>
    requires |members| == |layout| && n <= |items| && FlatItems(layout, items)
  {
    if n == 0 then []
    else
      AllRegister(rx, layout, members, items, n - 1)
      + RequestFor(rx, InC(layout, members, items, n - 1), ValueOf(items[n - 1]))
  }

  /** What a whole row registers by C's rule. */
  ghost function RowRegisters(rx: Recognizers, layout: Layout, members: seq<Member>, row: string): seq<Request>
    requires CapturesShrink(rx) && |members| == |layout| && FlatRow(rx, layout, row)
  {
    var items := Items(rx, Splitter.SplitTopLevel(row));
    AllRegister(rx, layout, members, items, |items|)
  }

  lemma {:induction false} FindIsPosition(layout: Layout, name: string)
    requires HasField(layout, name)
    ensures Find(layout, name) == Some(layout[PositionOf(layout, name)])
  {
    if layout[0].name != name {
      var p :| 0 <= p < |layout| && layout[p].name == name;
      assert layout[1..][p - 1].name == name;
      FindIsPosition(layout[1..], name);
    }
  }

  /** What the scanner adds for a flat item. */
  function FlatRequests(rx: Recognizers, layouts: Layouts, st: string, item: Item, pos: int): seq<Request>
    requires FlatItem(LayoutOf(layouts, st), item)
  {
    if item.Designated? then
      if IsFnPtr(LayoutOf(layouts, st), item.field) && rx.handler(item.value) != "" then
        [Request(st, item.field, rx.handler(item.value))]
      else []
    else Place(rx, layouts, st, pos, item.value)
  }

  /** What it adds for a list of them, starting at a cursor. */
  function FlatFrom(rx: Recognizers, layouts: Layouts, st: string, items: seq<Item>, pos: int): seq<Request>
    requires FlatItems(LayoutOf(layouts, st), items)
  {
    if items == [] then []
    else FlatRequests(rx, layouts, st, items[0], pos)
         + FlatFrom(rx, layouts, st, items[1..], NextPos(layouts, st, items[0], pos))
  }

  lemma {:induction false} FlatItemRequests(rx: Recognizers, layouts: Layouts, st: string, item: Item, pos: int,
                                            bound: nat)
    requires CapturesShrink(rx) && ShorterThan(item, bound) && FlatItem(LayoutOf(layouts, st), item)
    ensures ItemRequests(rx, layouts, st, item, pos, bound) == FlatRequests(rx, layouts, st, item, pos)
  {
  }

  lemma {:induction false} ItemsCons(rx: Recognizers, layout: Layout, pieces: seq<string>)
    requires CapturesShrink(rx) && pieces != [] && FlatItems(layout, Items(rx, pieces))
    ensures var item, rest := Classify(rx, pieces[0]), Items(rx, pieces[1..]);
            && FlatItems(layout, rest)
            && (item.Blank? ==> Items(rx, pieces) == rest)
            && (!item.Blank? ==> Items(rx, pieces) == [item] + rest && FlatItem(layout, item))
  {
    var item, rest, all := Classify(rx, pieces[0]), Items(rx, pieces[1..]), Items(rx, pieces);
    if item.Blank? {
      assert all == rest;
    } else {
      assert all == [item] + rest && all[0] == item;
      assert forall k :: 0 <= k < |rest| ==> rest[k] == all[k + 1];
    }
  }

  lemma {:induction false} PiecesAreFlat(rx: Recognizers, layouts: Layouts, st: string, pieces: seq<string>, pos: int,
                                         bound: nat)
    requires CapturesShrink(rx)
    requires forall k :: 0 <= k < |pieces| ==> |pieces[k]| <= bound
    requires FlatItems(LayoutOf(layouts, st), Items(rx, pieces))
    ensures PieceRequests(rx, layouts, st, pieces, pos, bound) == FlatFrom(rx, layouts, st, Items(rx, pieces), pos)
    decreases |pieces|
  {
    if pieces != [] {
      var item, rest := Classify(rx, pieces[0]), Items(rx, pieces[1..]);
      ItemsCons(rx, LayoutOf(layouts, st), pieces);
      PiecesAreFlat(rx, layouts, st, pieces[1..], NextPos(layouts, st, item, pos), bound);
      if !item.Blank? {
        FlatItemRequests(rx, layouts, st, item, pos, bound);
        assert ([item] + rest)[1..] == rest;
      }
    }
  }

  /** One flat item: what the scanner adds for it, and that its cursor moves on by one. */
  lemma {:induction false} FlatItemScanned(rx: Recognizers, layouts: Layouts, st: string, items: seq<Item>, i: nat,
                                           pos: int)
    requires i < |items| && WellIndexed(LayoutOf(layouts, st)) && FlatItems(LayoutOf(layouts, st), items)
    requires pos == if i == 0 then 0 else Cursor(LayoutOf(layouts, st), items, i - 1) + 1
    ensures FlatRequests(rx, layouts, st, items[i], pos)
         == RequestFor(rx, Scanned(st, LayoutOf(layouts, st), items, i), ValueOf(items[i]))
    ensures NextPos(layouts, st, items[i], pos) == Cursor(LayoutOf(layouts, st), items, i) + 1
  {
    var layout := LayoutOf(layouts, st);
    assert FlatItem(layout, items[i]);
    if items[i].Designated? {
      FindIsPosition(layout, items[i].field);
    }
  }

  lemma FlatFromSuffix(rx: Recognizers, layouts: Layouts, st: string, items: seq<Item>, i: nat, pos: int)
    requires i <= |items| && FlatItems(LayoutOf(layouts, st), items)
    ensures FlatItems(LayoutOf(layouts, st), items[i..])
    ensures i == |items| ==> FlatFrom(rx, layouts, st, items[i..], pos) == []
    ensures i < |items| ==>
              && FlatItems(LayoutOf(layouts, st), items[i + 1..])
              && FlatFrom(rx, layouts, st, items[i..], pos)
                 == FlatRequests(rx, layouts, st, items[i], pos)
                    + FlatFrom(rx, layouts, st, items[i + 1..], NextPos(layouts, st, items[i], pos))
  {
    hide FlatItem, FlatRequests, NextPos;
    assert i < |items| ==> items[i..][1..] == items[i + 1..];
  }

  /** The scanner takes item i for the field that C has it initialize, as far as it names a
      handler. */
  predicate InPlace(rx: Recognizers, st: string, layout: Layout, members: seq<Member>, items: seq<Item>, i: nat)
    requires |members| == |layout| && i < |items| && FlatItems(layout, items)
  {
    rx.handler(ValueOf(items[i])) == "" || Scanned(st, layout, items, i) == InC(layout, members, items, i)
  }

  ghost predicate AllInPlace(rx: Recognizers, st: string, layout: Layout, members: seq<Member>, items: seq<Item>)
    requires |members| == |layout| && FlatItems(layout, items)
  {
    forall i :: 0 <= i < |items| ==> InPlace(rx, st, layout, members, items, i)
  }

  /** The exact condition, item by item: an item registers what C has it initialize if and
      only if it names no handler or is in place. */
  lemma {:induction false} ItemFollowsCExactlyWhen(rx: Recognizers, st: string, layout: Layout, members: seq<Member>,
                                                   items: seq<Item>, i: nat)
    requires |members| == |layout| && i < |items| && FlatItems(layout, items)
    ensures RequestFor(rx, Scanned(st, layout, items, i), ValueOf(items[i]))
         == RequestFor(rx, InC(layout, members, items, i), ValueOf(items[i]))
       <==> InPlace(rx, st, layout, members, items, i)
  {
    hide Scanned, InC;
    var (a, b, v) := (Scanned(st, layout, items, i), InC(layout, members, items, i), ValueOf(items[i]));
    if a.Some? && b.Some? && RequestFor(rx, a, v) == RequestFor(rx, b, v) && rx.handler(v) != "" {
      assert RequestFor(rx, a, v)[0] == RequestFor(rx, b, v)[0];
    }
  }

  lemma {:induction false} FlatItemsFollowC(rx: Recognizers, layouts: Layouts, st: string, members: seq<Member>,
                                            items: seq<Item>, i: nat, pos: int)
    requires i <= |items| && WellIndexed(LayoutOf(layouts, st)) && FlatItems(LayoutOf(layouts, st), items)
    requires |members| == |LayoutOf(layouts, st)| && AllInPlace(rx, st, LayoutOf(layouts, st), members, items)
    requires pos == if i == 0 then 0 else Cursor(LayoutOf(layouts, st), items, i - 1) + 1
    ensures FlatItems(LayoutOf(layouts, st), items[i..])
    ensures var layout := LayoutOf(layouts, st);
            AllRegister(rx, layout, members, items, i) + FlatFrom(rx, layouts, st, items[i..], pos)
            == AllRegister(rx, layout, members, items, |items|)
    decreases |items| - i
  {
    hide *;
    var layout := LayoutOf(layouts, st);
    FlatFromSuffix(rx, layouts, st, items, i, pos);
    if i < |items| {
      var next := NextPos(layouts, st, items[i], pos);
      FlatItemScanned(rx, layouts, st, items, i, pos);
      OneMoreRegisters(rx, st, layout, members, items, i);
      FlatItemsFollowC(rx, layouts, st, members, items, i + 1, next);
      Associative(AllRegister(rx, layout, members, items, i),
                  RequestFor(rx, InC(layout, members, items, i), ValueOf(items[i])),
                  FlatFrom(rx, layouts, st, items[i + 1..], next));
    }
  }

  lemma OneMoreRegisters(rx: Recognizers, st: string, layout: Layout, members: seq<Member>, items: seq<Item>, i: nat)
    requires |members| == |layout| && i < |items| && FlatItems(layout, items)
    requires AllInPlace(rx, st, layout, members, items)
    ensures AllRegister(rx, layout, members, items, i + 1)
         == AllRegister(rx, layout, members, items, i)
            + RequestFor(rx, InC(layout, members, items, i), ValueOf(items[i]))
    ensures RequestFor(rx, Scanned(st, layout, items, i), ValueOf(items[i]))
         == RequestFor(rx, InC(layout, members, items, i), ValueOf(items[i]))
  {
    ItemFollowsCExactlyWhen(rx, st, layout, members, items, i);
  }

  /** A flat row whose items are all in place registers what C has it initialize. */
  lemma {:induction false} RowInPlaceFollowsC(rx: Recognizers, layouts: Layouts, st: string, members: seq<Member>,
                                              row: string)
    requires CapturesShrink(rx)
    requires WellIndexed(LayoutOf(layouts, st)) && FlatRow(rx, LayoutOf(layouts, st), row)
    requires |members| == |LayoutOf(layouts, st)|
    requires AllInPlace(rx, st, LayoutOf(layouts, st), members, Items(rx, Splitter.SplitTopLevel(row)))
    ensures RowRequests(rx, layouts, st, row) == RowRegisters(rx, LayoutOf(layouts, st), members, row)
  {
    var pieces := Splitter.SplitTopLevel(row);
    forall k | 0 <= k < |pieces| ensures |pieces[k]| <= |row| { Splitter.PiecesAreShort(row, k); }
    var items := Items(rx, pieces);
    PiecesAreFlat(rx, layouts, st, pieces, 0, |row|);
    FlatItemsFollowC(rx, layouts, st, members, items, 0, 0);
    assert items[0..] == items;
  }

  // -- when the scanner keeps step with C --

  /** The members from position p on. */
  function From(members: seq<Member>, p: nat): seq<Member> {
    if p <= |members| then members[p..] else []
  }

  /** Item i, without braces of its own, leaves a part of the field it is read for to the
      items that follow, as C has it do for an aggregate: brace elision. */
  predicate Elides(layout: Layout, members: seq<Member>, items: seq<Item>, i: nat)
    requires |members| == |layout| && i < |items| && FlatItems(layout, items)
  {
    var p := Cursor(layout, items, i);
    !items[i].Scalar? && p < |members| && ReachIn(members[p], ValueOf(items[i])).1 != []
  }

  /** Behind item i, C goes on with the field at which the scanner goes on. */
  predicate InStep(layout: Layout, members: seq<Member>, items: seq<Item>, i: nat)
    requires |members| == |layout| && i < |items| && FlatItems(layout, items)
  {
    RestBefore(layout, members, items, i + 1) == From(members, Cursor(layout, items, i) + 1)
  }

  lemma ReachFrom(members: seq<Member>, p: nat, value: string)
    ensures p < |members| ==>
              && From(members, p) != [] && From(members, p)[1..] == From(members, p + 1)
              && Reach(From(members, p), value).0 == ReachIn(members[p], value).0
              && (Reach(From(members, p), value).1 == From(members, p + 1) <==> ReachIn(members[p], value).1 == [])
    ensures p >= |members| ==> From(members, p) == From(members, p + 1) == [] && Reach([], value) == (None, [])
  {
    hide ReachIn;
    if p < |members| {
      var left := ReachIn(members[p], value).1;
      assert members[p..][1..] == members[p + 1..];
      assert |left + members[p + 1..]| == |members[p + 1..]| ==> left == [];
    }
  }

  lemma StepFrom(layout: Layout, members: seq<Member>, item: Item, rest: seq<Member>, p: nat)
    requires |members| == |layout| && FlatItem(layout, item)
    requires if item.Designated? then p == PositionOf(layout, item.field) else rest == From(members, p)
    ensures StepC(layout, members, item, rest).0 == if p < |members| then ReachIn(members[p], ValueOf(item)).0 else None
    ensures StepC(layout, members, item, rest).1 == From(members, p + 1)
       <==> item.Scalar? || p >= |members| || ReachIn(members[p], ValueOf(item)).1 == []
  {
    ReachFrom(members, p, ValueOf(item));
    hide ReachIn, Reach, HasField;
    if item.Designated? {
      assert members[p..] == From(members, p);
    }
  }

  /** One item, as the definitions say. */
  lemma StepOf(layout: Layout, members: seq<Member>, items: seq<Item>, i: nat)
    requires |members| == |layout| && i < |items| && FlatItems(layout, items)
    ensures FlatItem(layout, items[i]) && RestBefore(layout, members, items, 0) == members
    ensures (InC(layout, members, items, i), RestBefore(layout, members, items, i + 1))
         == StepC(layout, members, items[i], RestBefore(layout, members, items, i))
    ensures Cursor(layout, items, i)
         == if items[i].Designated? then PositionOf(layout, items[i].field)
            else if i == 0 then 0 else Cursor(layout, items, i - 1) + 1
    ensures From(members, 0) == members
  {
    hide StepC, PositionOf;
  }

  lemma {:induction false} StepKeepsStep(layout: Layout, members: seq<Member>, items: seq<Item>, i: nat)
    requires |members| == |layout| && i < |items| && FlatItems(layout, items)
    requires i > 0 && !items[i].Designated? ==> InStep(layout, members, items, i - 1)
    ensures InStep(layout, members, items, i) <==> !Elides(layout, members, items, i)
    ensures var p := Cursor(layout, items, i);
            InC(layout, members, items, i)
            == if p < |members| then ReachIn(members[p], ValueOf(items[i])).0 else None
  {
    hide ReachIn, Reach, HasField, StepC, FlatItem, FlatItems, PositionOf, RestBefore, Cursor, InC, From, ValueOf;
    StepOf(layout, members, items, i);
    StepFrom(layout, members, items[i], RestBefore(layout, members, items, i), Cursor(layout, items, i));
  }

  /** The scanner keeps step with C over the whole row if and only if no item leaves a part
      of an aggregate to the next one. */
  lemma {:induction false} InStepExactlyWhen(layout: Layout, members: seq<Member>, items: seq<Item>, n: nat)
    requires |members| == |layout| && n <= |items| && FlatItems(layout, items)
    ensures (forall i :: 0 <= i < n ==> InStep(layout, members, items, i))
       <==> (forall i :: 0 <= i < n ==> !Elides(layout, members, items, i))
  {
    hide *;
    if n > 0 {
      InStepExactlyWhen(layout, members, items, n - 1);
      if forall i :: 0 <= i < n - 1 ==> InStep(layout, members, items, i) {
        StepKeepsStep(layout, members, items, n - 1);
      }
    }
  }

  // -- behind an elision --

  /** Some aggregate since the last designator was left to the items behind it, so that the
      scanner reads item i for a later field than C does. */
  predicate Drifted(layout: Layout, members: seq<Member>, items: seq<Item>, i: nat)
    requires |members| == |layout| && i < |items| && FlatItems(layout, items)
  {
    i > 0 && !items[i].Designated?
    && (Elides(layout, members, items, i - 1) || Drifted(layout, members, items, i - 1))
  }

  /** The fn-pointer fields within a member. */
  function Targets(m: Member): set<Reg> {
    match m
    case Leaf(target) => if target.Some? then {target.value} else {}
    case Chars(_) => {}
    case Group(parts) => set k, t | 0 <= k < |parts| && t in Targets(parts[k]) :: t
  }

  /** The fields within the parts are fields of the first n members. */
  ghost predicate Within(parts: seq<Member>, members: seq<Member>, n: nat) {
    forall k, t :: 0 <= k < |parts| && t in Targets(parts[k]) ==> TargetBefore(members, n, t)
  }

  ghost predicate TargetBefore(members: seq<Member>, n: nat, t: Reg) {
    exists j :: 0 <= j < n && j < |members| && t in Targets(members[j])
  }

  /** No field of the struct is a field of another of its members: names differ, and no
      struct contains itself. */
  ghost predicate Separate(st: string, layout: Layout, members: seq<Member>)
    requires |members| == |layout|
  {
    forall j, p :: 0 <= j < p < |layout| ==> Reg(st, layout[p].name) !in Targets(members[j])
  }

  lemma {:induction false} ReachedWithin(m: Member, value: string)
    ensures var (target, left) := ReachIn(m, value);
            && (target.Some? ==> target.value in Targets(m))
            && forall k, t :: 0 <= k < |left| && t in Targets(left[k]) ==> t in Targets(m)
  {
    if m.Group? && m.parts != [] {
      ReachedWithin(m.parts[0], value);
      var left := ReachIn(m.parts[0], value).1;
      var all := left + m.parts[1..];
      forall k, t | 0 <= k < |all| && t in Targets(all[k]) ensures t in Targets(m) {
        if k < |left| {
          assert t in Targets(left[k]) && t in Targets(m.parts[0]);
        } else {
          assert all[k] == m.parts[1 + (k - |left|)];
        }
      }
    }
  }

  /** C has parts of members in front of position p left to initialize. */
  ghost predicate Lags(rest: seq<Member>, members: seq<Member>, p: nat) {
    exists q: nat, left: seq<Member> :: LagsBy(rest, members, p, q, left)
  }

  ghost predicate LagsBy(rest: seq<Member>, members: seq<Member>, p: nat, q: nat, left: seq<Member>) {
    q <= p && q <= |members| && rest == left + members[q..] && (left != [] || q < p) && Within(left, members, q)
  }

  /** One more item, and C is still behind: it initializes a part of an earlier member. */
  lemma {:induction false} StillLags(rest: seq<Member>, members: seq<Member>, p: nat, value: string)
    requires Lags(rest, members, p) && p < |members|
    ensures rest != [] && Lags(rest[1..], members, p + 1) && Lags(Reach(rest, value).1, members, p + 1)
    ensures Reach(rest, value).0.Some? ==> TargetBefore(members, p, Reach(rest, value).0.value)
  {
    var q: nat, l: seq<Member> :| LagsBy(rest, members, p, q, l);
    hide ReachIn, Targets, Within, LagsBy, TargetBefore;
    LagsStep(rest, members, p, q, l, value);
    var l0 := if l == [] then [] else l[1..];
    var n := if l == [] then q + 1 else q;
    assert LagsBy(rest[1..], members, p + 1, n, l0);
    assert LagsBy(Reach(rest, value).1, members, p + 1, n, ReachIn(rest[0], value).1 + l0);
  }

  lemma {:induction false} LagsStep(rest: seq<Member>, members: seq<Member>, p: nat, q: nat, l: seq<Member>,
                                    value: string)
    requires LagsBy(rest, members, p, q, l) && p < |members|
    ensures var (l0, n) := (if l == [] then [] else l[1..], if l == [] then q + 1 else q);
            && rest != [] && LagsBy(rest[1..], members, p + 1, n, l0)
            && LagsBy(Reach(rest, value).1, members, p + 1, n, ReachIn(rest[0], value).1 + l0)
    ensures Reach(rest, value).0.Some? ==> TargetBefore(members, p, Reach(rest, value).0.value)
  {
    hide ReachIn, Targets;
    var (target, left) := ReachIn(rest[0], value);
    ReachedWithin(rest[0], value);
    if l != [] {
      assert rest[0] == l[0] && rest[1..] == l[1..] + members[q..];
      PartsWithin(left, l, members, q);
      PartsWithin([], l, members, q);
      assert [] + l[1..] == l[1..];
      Associative(left, l[1..], members[q..]);
      assert target.Some? ==> TargetBefore(members, q, target.value);
    } else {
      assert rest == members[q..] && rest[1..] == [] + members[q + 1..] && rest[0] == members[q];
      assert left + [] == left;
      assert Within(left, members, q + 1);
    }
  }

  lemma {:induction false} PartsWithin(left: seq<Member>, l: seq<Member>, members: seq<Member>, q: nat)
    requires l != [] && Within(l, members, q)
    requires forall k, t :: 0 <= k < |left| && t in Targets(left[k]) ==> t in Targets(l[0])
    ensures Within(left + l[1..], members, q)
  {
    var all := left + l[1..];
    forall k, t | 0 <= k < |all| && t in Targets(all[k]) ensures TargetBefore(members, q, t) {
      if k < |left| {
        assert t in Targets(left[k]) && t in Targets(l[0]);
      } else {
        assert all[k] == l[1 + (k - |left|)];
      }
    }
  }

  lemma {:induction false} InStepUnlessDrifted(layout: Layout, members: seq<Member>, items: seq<Item>, i: nat)
    requires |members| == |layout| && i < |items| && FlatItems(layout, items) && !Drifted(layout, members, items, i)
    ensures i > 0 && !items[i].Designated? ==> InStep(layout, members, items, i - 1)
  {
    hide InStep, Elides;
    if i > 0 && !items[i].Designated? {
      InStepUnlessDrifted(layout, members, items, i - 1);
      StepKeepsStep(layout, members, items, i - 1);
    }
  }

  lemma UndesignatedStep(layout: Layout, members: seq<Member>, items: seq<Item>, i: nat)
    requires |members| == |layout| && 0 < i < |items| && FlatItems(layout, items) && !items[i].Designated?
    ensures Cursor(layout, items, i) == Cursor(layout, items, i - 1) + 1
    ensures var rest := RestBefore(layout, members, items, i - 1);
            !items[i - 1].Designated? && rest != [] ==>
              RestBefore(layout, members, items, i)
              == if items[i - 1].Scalar? then rest[1..] else Reach(rest, ValueOf(items[i - 1])).1
  {
    hide Reach;
    assert FlatItem(layout, items[i - 1]);
  }

  lemma DriftedSplits(layout: Layout, members: seq<Member>, items: seq<Item>, i: nat)
    requires |members| == |layout| && i < |items| && FlatItems(layout, items) && Drifted(layout, members, items, i)
    ensures i > 0 && !items[i].Designated?
    ensures if Drifted(layout, members, items, i - 1) then !items[i - 1].Designated?
            else Elides(layout, members, items, i - 1)
  {
    hide Elides;
  }

  lemma {:induction false} DriftedLags(layout: Layout, members: seq<Member>, items: seq<Item>, i: nat)
    requires |members| == |layout| && i < |items| && FlatItems(layout, items) && Drifted(layout, members, items, i)
    requires Cursor(layout, items, i) <= |members|
    ensures Lags(RestBefore(layout, members, items, i), members, Cursor(layout, items, i))
  {
    hide *;
    DriftedSplits(layout, members, items, i);
    UndesignatedStep(layout, members, items, i);
    if Drifted(layout, members, items, i - 1) {
      DriftedLags(layout, members, items, i - 1);
      var rest, p := RestBefore(layout, members, items, i - 1), Cursor(layout, items, i - 1);
      StillLags(rest, members, p, ValueOf(items[i - 1]));
    } else {
      InStepUnlessDrifted(layout, members, items, i - 1);
      ElisionLags(layout, members, items, i - 1);
    }
  }

  lemma {:induction false} ElisionLags(layout: Layout, members: seq<Member>, items: seq<Item>, i: nat)
    requires |members| == |layout| && i < |items| && FlatItems(layout, items) && Elides(layout, members, items, i)
    requires i > 0 && !items[i].Designated? ==> InStep(layout, members, items, i - 1)
    ensures Lags(RestBefore(layout, members, items, i + 1), members, Cursor(layout, items, i) + 1)
  {
    var p, rest, value := Cursor(layout, items, i), RestBefore(layout, members, items, i), ValueOf(items[i]);
    StepOf(layout, members, items, i);
    hide ReachIn, Targets, FlatItem, FlatItems, PositionOf, RestBefore, Cursor, InC, LagsBy;
    var left := ReachIn(members[p], value).1;
    assert rest == members[p..] || items[i].Designated?;
    assert members[p..][0] == members[p] && members[p..][1..] == members[p + 1..];
    LeftLags(members, p, value);
    assert LagsBy(left + members[p + 1..], members, p + 1, p + 1, left);
  }

  lemma LeftLags(members: seq<Member>, p: nat, value: string)
    requires p < |members| && ReachIn(members[p], value).1 != []
    ensures var left := ReachIn(members[p], value).1;
            LagsBy(left + members[p + 1..], members, p + 1, p + 1, left)
  {
    hide ReachIn, Targets;
    ReachedWithin(members[p], value);
  }

  /** The first fn-pointer field within the field at which the scanner reads the item. */
  function FirstOf(layout: Layout, members: seq<Member>, items: seq<Item>, i: nat): Option<Reg>
    requires i < |items| && FlatItems(layout, items)
  {
    var p := Cursor(layout, items, i);
    if p < |members| then ReachIn(members[p], ValueOf(items[i])).0 else None
  }

  /** The exact condition for one item.  Behind an elided aggregate the scanner never finds
      the field that C has the item initialize: all is well only if neither takes it for a
      fn-pointer field.  Elsewhere the item must be read for what it is. */
  lemma {:induction false} ItemInPlaceExactlyWhen(rx: Recognizers, st: string, layout: Layout, members: seq<Member>,
                                                  items: seq<Item>, i: nat)
    requires Sees(st, layout, members) && Separate(st, layout, members) && i < |items| && FlatItems(layout, items)
    ensures InPlace(rx, st, layout, members, items, i)
       <==> rx.handler(ValueOf(items[i])) == ""
            || (if Drifted(layout, members, items, i) then
                  Scanned(st, layout, items, i).None? && InC(layout, members, items, i).None?
                else Scanned(st, layout, items, i) == FirstOf(layout, members, items, i))
  {
    var p := Cursor(layout, items, i);
    assert FlatItem(layout, items[i]);
    if Drifted(layout, members, items, i) {
      if p < |members| {
        DriftedLags(layout, members, items, i);
        StillLags(RestBefore(layout, members, items, i), members, p, ValueOf(items[i]));
      }
    } else {
      InStepUnlessDrifted(layout, members, items, i);
      StepKeepsStep(layout, members, items, i);
    }
  }

  /** The item is read for a scalar field, or is a string for an array of characters. */
  predicate OnScalar(layout: Layout, members: seq<Member>, items: seq<Item>, i: nat)
    requires |members| == |layout| && i < |items| && FlatItems(layout, items)
  {
    var p := Cursor(layout, items, i);
    p < |members| ==> members[p].Leaf? || (members[p].Chars? && (items[i].Scalar? || IsString(ValueOf(items[i]))))
  }

  ghost predicate AllOnScalars(layout: Layout, members: seq<Member>, items: seq<Item>)
    requires |members| == |layout| && FlatItems(layout, items)
  {
    forall i :: 0 <= i < |items| ==> OnScalar(layout, members, items, i)
  }

  lemma ScalarInPlace(rx: Recognizers, st: string, layout: Layout, members: seq<Member>, items: seq<Item>, i: nat)
    requires Sees(st, layout, members) && i < |items| && FlatItems(layout, items) && OnScalar(layout, members, items, i)
    requires i > 0 ==> InStep(layout, members, items, i - 1)
    ensures InStep(layout, members, items, i) && InPlace(rx, st, layout, members, items, i)
  {
    hide InStep, InC, Cursor;
    StepKeepsStep(layout, members, items, i);
  }

  lemma {:induction false} OnScalarsInPlace(rx: Recognizers, st: string, layout: Layout, members: seq<Member>,
                                            items: seq<Item>, i: nat)
    requires Sees(st, layout, members) && i < |items| && FlatItems(layout, items)
    requires AllOnScalars(layout, members, items)
    ensures InStep(layout, members, items, i) && InPlace(rx, st, layout, members, items, i)
  {
    assert |members| == |layout| && OnScalar(layout, members, items, i);
    hide *;
    if i > 0 {
      OnScalarsInPlace(rx, st, layout, members, items, i - 1);
    }
    ScalarInPlace(rx, st, layout, members, items, i);
  }

  /** A flat row none of whose items is read for an aggregate registers item i for exactly
      the field that C has it initialize. */
  lemma {:induction false} FlatRowFollowsC(rx: Recognizers, layouts: Layouts, st: string, members: seq<Member>,
                                           row: string)
    requires CapturesShrink(rx)
    requires WellIndexed(LayoutOf(layouts, st)) && FlatRow(rx, LayoutOf(layouts, st), row)
    requires Sees(st, LayoutOf(layouts, st), members)
    requires AllOnScalars(LayoutOf(layouts, st), members, Items(rx, Splitter.SplitTopLevel(row)))
    ensures RowRequests(rx, layouts, st, row) == RowRegisters(rx, LayoutOf(layouts, st), members, row)
  {
    var items := Items(rx, Splitter.SplitTopLevel(row));
    forall i | 0 <= i < |items| ensures InPlace(rx, st, LayoutOf(layouts, st), members, items, i) {
      OnScalarsInPlace(rx, st, LayoutOf(layouts, st), members, items, i);
    }
    RowInPlaceFollowsC(rx, layouts, st, members, row);
  }

  // ---- every row ----

  /** Whatever a row asks to register is a fn-pointer field of its struct. */
  ghost predicate ForFnPtrField(layouts: Layouts, r: Request) {
    && r.handler != ""
    && exists f :: f in LayoutOf(layouts, r.owner) && f.fnPtr && f.name == r.field
  }

  ghost predicate AllForFnPtrFields(layouts: Layouts, rs: seq<Request>) {
    forall k :: 0 <= k < |rs| ==> ForFnPtrField(layouts, rs[k])
  }

  lemma {:induction false} RowsNameFnPtrFields(rx: Recognizers, layouts: Layouts, st: string, row: string)
    requires CapturesShrink(rx)
    ensures AllForFnPtrFields(layouts, RowRequests(rx, layouts, st, row))
    decreases |row|, 1, 0
  {
    var pieces := Splitter.SplitTopLevel(row);
    forall k | 0 <= k < |pieces| ensures |pieces[k]| <= |row| { Splitter.PiecesAreShort(row, k); }
    PiecesNameFnPtrFields(rx, layouts, st, pieces, 0, |row|);
  }

  lemma {:induction false} PiecesNameFnPtrFields(rx: Recognizers, layouts: Layouts, st: string, pieces: seq<string>,
                                                 pos: int, bound: nat)
    requires CapturesShrink(rx)
    requires forall k :: 0 <= k < |pieces| ==> |pieces[k]| <= bound
    ensures AllForFnPtrFields(layouts, PieceRequests(rx, layouts, st, pieces, pos, bound))
    decreases bound, 0, |pieces|
  {
    if pieces != [] {
      var item := Classify(rx, pieces[0]);
      ItemsNameFnPtrFields(rx, layouts, st, item, pos, bound);
      PiecesNameFnPtrFields(rx, layouts, st, pieces[1..], NextPos(layouts, st, item, pos), bound);
    }
  }

  lemma {:induction false} ItemsNameFnPtrFields(rx: Recognizers, layouts: Layouts, st: string, item: Item, pos: int,
                                                bound: nat)
    requires CapturesShrink(rx) && ShorterThan(item, bound)
    ensures AllForFnPtrFields(layouts, ItemRequests(rx, layouts, st, item, pos, bound))
    decreases bound, 0, 0
  {
    match item
    case Nested(inner) => RowsNameFnPtrFields(rx, layouts, st, inner);
    case Designated(field, value) =>
      var layout := LayoutOf(layouts, st);
      if IsFnPtr(layout, field) {
        assert Find(layout, field).value in layout;
      } else if OpensBrace(value) {
        RowsNameFnPtrFields(rx, layouts, StructTypeOf(layout, field), TrimBraces(value));
      }
    case Scalar(value) => PlaceNamesFnPtrField(rx, layouts, st, pos, value);
    case Positional(value) => PlaceNamesFnPtrField(rx, layouts, st, pos, value);
    case Blank =>
  }

  lemma {:induction false} PlaceNamesFnPtrField(rx: Recognizers, layouts: Layouts, st: string, pos: int, value: string)
    ensures AllForFnPtrFields(layouts, Place(rx, layouts, st, pos, value))
  {
    var layout := LayoutOf(layouts, st);
    if 0 <= pos < |layout| {
      assert layout[pos] in layout;
    }
  }
}
