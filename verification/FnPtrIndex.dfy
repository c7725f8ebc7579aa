/** The multi-pass builder of internal/fnptr/fnptr.go. */
module FnPtrIndex {
  // From recognised source facts to the registration table, and the soundness of every
  // registration.

  import opened Text
  import opened Propagation
  import opened InitRows
  import opened InitTables
  import opened Asking
  import opened Rearrangement
  import Splitter

  // ---- what the scans recognise ----

  /** A struct or union with a body; `tag` and `alias` are empty where there is none. */
  datatype StructDecl = StructDecl(tag: string, alias: string, body: string)

  /** The initializers (struct type, row) and the assignments `obj.field = handler;` of
      a file. */
  datatype FileFacts = FileFacts(structs: seq<StructDecl>, inits: seq<(string, string)>, assigns: seq<(string, string)>)

  /** One registration and one link of the override table. */
  datatype TableReg = TableReg(owner: string, field: string, handlers: seq<string>)
  datatype TableLink = TableLink(from: string, to: seq<string>, note: string)
  datatype Table = Table(registrations: seq<TableReg>, links: seq<TableLink>)

  datatype Caller = Caller(func: string, file: string, line: nat, field: string)

  /** Everything a build reads.  `flows` are the field<-field assignments whose two
      receivers have a known type. */
  datatype Facts = Facts(
    files: seq<FileFacts>,
    funcDefs: set<string>,
    flows: seq<Prop>,
    table: Option<Table>,
    declared: string -> Declared,
    rx: Recognizers)

  // ---- pass B ----

  /** The layouts after one declaration. */
  function AddStruct(layouts: Layouts, declared: string -> Declared, d: StructDecl): Layouts {
    var decls := SplitAt(d.body, ';');
    var fields := FieldsOf(declared, decls, |decls|);
    var tagged := if d.tag != "" then layouts[d.tag := fields] else layouts;
    if d.alias != "" then tagged[d.alias := fields] else tagged
  }

  function AddStructs(layouts: Layouts, declared: string -> Declared, ds: seq<StructDecl>): Layouts {
    if ds == [] then layouts
    else AddStruct(AddStructs(layouts, declared, ds[..|ds| - 1]), declared, ds[|ds| - 1])
  }

  function AllStructs(layouts: Layouts, declared: string -> Declared, files: seq<FileFacts>): Layouts {
    if files == [] then layouts
    else AddStructs(AllStructs(layouts, declared, files[..|files| - 1]), declared, files[|files| - 1].structs)
  }

  /** The declaration gives the layout of st. */
  predicate NamesStruct(d: StructDecl, st: string) {
    st != "" && (d.tag == st || d.alias == st)
  }

  /** Declaration i is the last of the list that names st. */
  ghost predicate LastNaming(ds: seq<StructDecl>, st: string, i: nat) {
    i < |ds| && NamesStruct(ds[i], st) && forall j :: i < j < |ds| ==> !NamesStruct(ds[j], st)
  }

  /** The layout of a struct is that of the last declaration that names it, by tag or by
      alias. */
  lemma {:induction false} LayoutIsLastDeclared(layouts: Layouts, declared: string -> Declared, ds: seq<StructDecl>,
                                                st: string, i: nat)
    requires LastNaming(ds, st, i)
    ensures var decls := SplitAt(ds[i].body, ';');
            st in AddStructs(layouts, declared, ds)
            && AddStructs(layouts, declared, ds)[st] == FieldsOf(declared, decls, |decls|)
  {
    hide FieldsOf, SplitAt;
    var n := |ds| - 1;
    if i < n {
      assert forall j :: 0 <= j < n ==> ds[..n][j] == ds[j];
      LayoutIsLastDeclared(layouts, declared, ds[..n], st, i);
    }
  }

  /** It is what it was if no declaration names the struct. */
  lemma {:induction false} LayoutUntouched(layouts: Layouts, declared: string -> Declared, ds: seq<StructDecl>,
                                           st: string)
    requires st != "" && forall j :: 0 <= j < |ds| ==> !NamesStruct(ds[j], st)
    ensures st in AddStructs(layouts, declared, ds) <==> st in layouts
    ensures LayoutOf(AddStructs(layouts, declared, ds), st) == LayoutOf(layouts, st)
  {
    hide FieldsOf, SplitAt;
    if ds != [] {
      var n := |ds| - 1;
      assert forall j :: 0 <= j < n ==> ds[..n][j] == ds[j];
      LayoutUntouched(layouts, declared, ds[..n], st);
    }
  }

  // -- over all files --

  /** The declarations of all files, in order. */
  function AllDecls(files: seq<FileFacts>): seq<StructDecl> {
    if files == [] then [] else AllDecls(files[..|files| - 1]) + files[|files| - 1].structs
  }

  lemma {:induction false} AddStructsConcat(layouts: Layouts, declared: string -> Declared, a: seq<StructDecl>,
                                            b: seq<StructDecl>)
    ensures AddStructs(layouts, declared, a + b) == AddStructs(AddStructs(layouts, declared, a), declared, b)
  {
    hide AddStruct;
    if b == [] {
      assert a + b == a;
    } else {
      AddStructsConcat(layouts, declared, a, b[..|b| - 1]);
      assert (a + b)[..|a + b| - 1] == a + b[..|b| - 1];
    }
  }

  lemma {:induction false} StructsOfAllFiles(declared: string -> Declared, files: seq<FileFacts>)
    ensures AllStructs(map[], declared, files) == AddStructs(map[], declared, AllDecls(files))
  {
    if files != [] {
      StructsOfAllFiles(declared, files[..|files| - 1]);
      AddStructsConcat(map[], declared, AllDecls(files[..|files| - 1]), files[|files| - 1].structs);
    }
  }

  /** In a build the layout of a struct is that of the last declaration, of all files, that
      names it; a struct that none names has no layout. */
  lemma {:induction false} LayoutIsLastOfAll(declared: string -> Declared, files: seq<FileFacts>, st: string)
    requires st != ""
    ensures forall i: nat :: LastNaming(AllDecls(files), st, i) ==>
              var decls := SplitAt(AllDecls(files)[i].body, ';');
              LayoutOf(AllStructs(map[], declared, files), st) == FieldsOf(declared, decls, |decls|)
    ensures (forall i :: 0 <= i < |AllDecls(files)| ==> !NamesStruct(AllDecls(files)[i], st)) ==>
              LayoutOf(AllStructs(map[], declared, files), st) == []
  {
    hide FieldsOf, SplitAt, AddStructs, AllStructs, NamesStruct;
    StructsOfAllFiles(declared, files);
    var ds := AllDecls(files);
    forall i: nat | LastNaming(ds, st, i)
      ensures var decls := SplitAt(ds[i].body, ';');
              LayoutOf(AddStructs(map[], declared, ds), st) == FieldsOf(declared, decls, |decls|)
    {
      LayoutIsLastDeclared(map[], declared, ds, st, i);
    }
    if forall i :: 0 <= i < |ds| ==> !NamesStruct(ds[i], st) {
      LayoutUntouched(map[], declared, ds, st);
    }
  }

  ghost predicate AllWellIndexed(layouts: Layouts) {
    forall st :: st in layouts ==> WellIndexed(layouts[st])
  }

  lemma {:induction false} StructsWellIndexed(layouts: Layouts, declared: string -> Declared, ds: seq<StructDecl>)
    requires AllWellIndexed(layouts)
    ensures AllWellIndexed(AddStructs(layouts, declared, ds))
  {
    if ds != [] {
      var d := ds[|ds| - 1];
      StructsWellIndexed(layouts, declared, ds[..|ds| - 1]);
      FieldsAreWellIndexed(declared, SplitAt(d.body, ';'), |SplitAt(d.body, ';')|);
    }
  }

  /** Every layout a build has scanned numbers its fields by position. */
  lemma {:induction false} LayoutsWellIndexed(declared: string -> Declared, files: seq<FileFacts>)
    ensures AllWellIndexed(AllStructs(map[], declared, files))
  {
    if files != [] {
      LayoutsWellIndexed(declared, files[..|files| - 1]);
      StructsWellIndexed(AllStructs(map[], declared, files[..|files| - 1]), declared, files[|files| - 1].structs);
    }
  }

  /** st has a fn-pointer field of that name. */
  ghost predicate Owns(layouts: Layouts, st: string, field: string) {
    HasFnPtr(LayoutOf(layouts, st), field)
  }

  ghost predicate HasFnPtr(some: Layout, field: string) {
    exists f :: f in some && f.fnPtr && f.name == field
  }

  type OwnersMap = map<string, seq<string>>

  function OwnersOf(owners: OwnersMap, field: string): seq<string> {
    if field in owners then owners[field] else []
  }

  /** fieldToStructs lists, without repeats, exactly the structs that own the field. */
  ghost predicate OwnersExact(layouts: Layouts, owners: OwnersMap) {
    forall field :: NoDuplicates(OwnersOf(owners, field))
                 && forall st :: st in OwnersOf(owners, field) <==> Owns(layouts, st, field)
  }

  // ---- pass C ----

  /** addReg */
  function AddReg(regs: Registrations, defs: set<string>, r: Request): Registrations {
    var k := Reg(r.owner, r.field);
    if r.handler !in defs || r.handler in Handlers(regs, k) then regs
    else regs[k := Handlers(regs, k) + [r.handler]]
  }

  function AddRegs(regs: Registrations, defs: set<string>, rs: seq<Request>): Registrations {
    if rs == [] then regs else AddReg(AddRegs(regs, defs, rs[..|rs| - 1]), defs, rs[|rs| - 1])
  }

  lemma {:induction false} NothingAdded(regs: Registrations, defs: set<string>)
    ensures AddRegs(regs, defs, []) == regs
  {
  }

  lemma {:induction false} AddRegsConcat(regs: Registrations, defs: set<string>, a: seq<Request>, b: seq<Request>)
    ensures AddRegs(regs, defs, a + b) == AddRegs(AddRegs(regs, defs, a), defs, b)
  {
    if b == [] {
      assert a + b == a;
    } else {
      AddRegsConcat(regs, defs, a, b[..|b| - 1]);
      assert (a + b)[..|a + b| - 1] == a + b[..|b| - 1];
    }
  }

  /** After adding, exactly the old handlers and the requested defined functions are
      registered. */
  lemma {:induction false} AddRegsHas(regs: Registrations, defs: set<string>, rs: seq<Request>, k: Reg, h: string)
    ensures h in Handlers(AddRegs(regs, defs, rs), k)
       <==> h in Handlers(regs, k) || (h in defs && Request(k.owner, k.field, h) in rs)
  {
    if rs != [] {
      var n := |rs| - 1;
      AddRegsHas(regs, defs, rs[..n], k, h);
      assert rs == rs[..n] + [rs[n]];
    }
  }

  lemma {:induction false} AddRegsDistinct(regs: Registrations, defs: set<string>, rs: seq<Request>, k: Reg)
    requires forall k :: NoDuplicates(Handlers(regs, k))
    ensures NoDuplicates(Handlers(AddRegs(regs, defs, rs), k))
  {
    if rs != [] { AddRegsDistinct(regs, defs, rs[..|rs| - 1], k); }
  }

  function InitRequests(rx: Recognizers, layouts: Layouts, init: (string, string)): seq<Request>
    requires CapturesShrink(rx)
  {
    if LayoutOf(layouts, init.0) == [] then [] else RowRequests(rx, layouts, init.0, init.1)
  }

  /** The imperative form registers only where the field has one owner. */
  function AssignRequests(owners: OwnersMap, assign: (string, string)): seq<Request> {
    if |OwnersOf(owners, assign.0)| == 1 then [Request(OwnersOf(owners, assign.0)[0], assign.0, assign.1)] else []
  }

  function AllInits(rx: Recognizers, layouts: Layouts, inits: seq<(string, string)>): seq<Request>
    requires CapturesShrink(rx)
  {
    if inits == [] then []
    else AllInits(rx, layouts, inits[..|inits| - 1]) + InitRequests(rx, layouts, inits[|inits| - 1])
  }

  function AllAssigns(owners: OwnersMap, assigns: seq<(string, string)>): seq<Request> {
    if assigns == [] then []
    else AllAssigns(owners, assigns[..|assigns| - 1]) + AssignRequests(owners, assigns[|assigns| - 1])
  }

  function FileRequests(rx: Recognizers, layouts: Layouts, owners: OwnersMap, f: FileFacts): seq<Request>
    requires CapturesShrink(rx)
  {
    AllInits(rx, layouts, f.inits) + AllAssigns(owners, f.assigns)
  }

  function AllRequests(rx: Recognizers, layouts: Layouts, owners: OwnersMap, files: seq<FileFacts>): seq<Request>
    requires CapturesShrink(rx)
  {
    if files == [] then []
    else AllRequests(rx, layouts, owners, files[..|files| - 1]) + FileRequests(rx, layouts, owners, files[|files| - 1])
  }

  /** r is asked for by an initializer or by an assignment of some file. */
  ghost predicate AskedIn(rx: Recognizers, layouts: Layouts, owners: OwnersMap, files: seq<FileFacts>, r: Request)
    requires CapturesShrink(rx)
  {
    exists f :: f in files && AskedInFile(rx, layouts, owners, f, r)
  }

  ghost predicate AskedInFile(rx: Recognizers, layouts: Layouts, owners: OwnersMap, f: FileFacts, r: Request)
    requires CapturesShrink(rx)
  {
    || (exists init :: init in f.inits && InitAsks(rx, layouts, init, r))
    || (exists assign :: assign in f.assigns && AssignAsks(owners, assign, r))
  }

  /** An initializer of a struct whose layout is known asks for what its items do. */
  ghost predicate InitAsks(rx: Recognizers, layouts: Layouts, init: (string, string), r: Request)
    requires CapturesShrink(rx)
  {
    LayoutOf(layouts, init.0) != [] && RowAsks(rx, layouts, init.0, init.1, r)
  }

  /** An assignment to a field of one struct only asks for its handler there. */
  ghost predicate AssignAsks(owners: OwnersMap, assign: (string, string), r: Request) {
    OwnersOf(owners, assign.0) == [r.owner] && r.field == assign.0 && r.handler == assign.1
  }

  /** The scans ask for exactly what the initializers and assignments of the files do. */
  lemma {:induction false} RequestsExactly(rx: Recognizers, layouts: Layouts, owners: OwnersMap, files: seq<FileFacts>,
                                           r: Request)
    requires CapturesShrink(rx)
    ensures r in AllRequests(rx, layouts, owners, files) <==> AskedIn(rx, layouts, owners, files, r)
  {
    hide FileRequests, AskedInFile;
    if files != [] {
      hide AskedIn;
      var n := |files| - 1;
      RequestsExactly(rx, layouts, owners, files[..n], r);
      FileRequestsHave(rx, layouts, owners, files[n], r);
      AskedOneMore(rx, layouts, owners, files, r);
    }
  }

  lemma {:induction false} AskedOneMore(rx: Recognizers, layouts: Layouts, owners: OwnersMap, files: seq<FileFacts>,
                                        r: Request)
    requires CapturesShrink(rx) && files != []
    ensures AskedIn(rx, layouts, owners, files, r)
       <==> AskedIn(rx, layouts, owners, files[..|files| - 1], r)
            || AskedInFile(rx, layouts, owners, files[|files| - 1], r)
  {
    hide AskedInFile;
    var n := |files| - 1;
    assert files == files[..n] + [files[n]];
  }

  lemma {:induction false} FileRequestsHave(rx: Recognizers, layouts: Layouts, owners: OwnersMap, f: FileFacts,
                                            r: Request)
    requires CapturesShrink(rx)
    ensures r in FileRequests(rx, layouts, owners, f) <==> AskedInFile(rx, layouts, owners, f, r)
  {
    hide InitAsks, AssignAsks, AllInits, AllAssigns;
    InitsHave(rx, layouts, f.inits, r);
    AssignsHave(owners, f.assigns, r);
  }

  lemma {:induction false} InitsHave(rx: Recognizers, layouts: Layouts, inits: seq<(string, string)>, r: Request)
    requires CapturesShrink(rx)
    ensures r in AllInits(rx, layouts, inits) <==> exists init :: init in inits && InitAsks(rx, layouts, init, r)
  {
    hide InitRequests, InitAsks;
    if inits != [] {
      var n := |inits| - 1;
      InitsHave(rx, layouts, inits[..n], r);
      InitHas(rx, layouts, inits[n], r);
      assert inits == inits[..n] + [inits[n]];
    }
  }

  lemma {:induction false} InitHas(rx: Recognizers, layouts: Layouts, init: (string, string), r: Request)
    requires CapturesShrink(rx)
    ensures r in InitRequests(rx, layouts, init) <==> InitAsks(rx, layouts, init, r)
  {
    hide RowRequests, RowAsks;
    RowAsksExactly(rx, layouts, init.0, init.1, r);
  }

  lemma {:induction false} AssignsHave(owners: OwnersMap, assigns: seq<(string, string)>, r: Request)
    ensures r in AllAssigns(owners, assigns) <==> exists assign :: assign in assigns && AssignAsks(owners, assign, r)
  {
    if assigns != [] {
      var n := |assigns| - 1;
      AssignsHave(owners, assigns[..n], r);
      assert assigns == assigns[..n] + [assigns[n]];
      assert r in AssignRequests(owners, assigns[n]) <==> AssignAsks(owners, assigns[n], r);
    }
  }

  /** Whatever the scans ask for is a fn-pointer field of its struct. */
  lemma {:induction false} AskedIsOwned(rx: Recognizers, layouts: Layouts, owners: OwnersMap, files: seq<FileFacts>,
                                        r: Request)
    requires CapturesShrink(rx) && OwnersExact(layouts, owners) && AskedIn(rx, layouts, owners, files, r)
    ensures Owns(layouts, r.owner, r.field)
  {
    hide RowRequests, RowAsks;
    var f :| f in files && AskedInFile(rx, layouts, owners, f, r);
    if init :| init in f.inits && InitAsks(rx, layouts, init, r) {
      RowsNameFnPtrFields(rx, layouts, init.0, init.1);
      RowAsksExactly(rx, layouts, init.0, init.1, r);
      assert ForFnPtrField(layouts, r);
    } else {
      assert r.owner in OwnersOf(owners, r.field);
    }
  }

  // ---- pass D ----

  /** The assignments between two fn-pointer fields. */
  function LiveFlows(layouts: Layouts, flows: seq<Prop>): seq<Prop> {
    if flows == [] then []
    else
      var earlier, p := LiveFlows(layouts, flows[..|flows| - 1]), flows[|flows| - 1];
      if p.to.owner != "" && p.from.owner != ""
         && IsFnPtr(LayoutOf(layouts, p.to.owner), p.to.field) && IsFnPtr(LayoutOf(layouts, p.from.owner), p.from.field)
      then earlier + [p] else earlier
  }

  /** Exactly the assignments between two fn-pointer fields of known structs take part. */
  lemma {:induction false} LiveFlowsHas(layouts: Layouts, flows: seq<Prop>, p: Prop)
    ensures p in LiveFlows(layouts, flows)
       <==> p in flows && p.to.owner != "" && p.from.owner != ""
            && IsFnPtr(LayoutOf(layouts, p.to.owner), p.to.field)
            && IsFnPtr(LayoutOf(layouts, p.from.owner), p.from.field)
  {
    if flows != [] {
      var n := |flows| - 1;
      LiveFlowsHas(layouts, flows[..n], p);
      assert flows == flows[..n] + [flows[n]];
    }
  }

  // ---- the override table ----

  datatype Merged = Merged(layouts: Layouts, owners: OwnersMap, regs: Registrations)

  function AppendUniq(s: seq<string>, x: string): seq<string> {
    if x in s then s else s + [x]
  }

  function MergeReg(m: Merged, r: TableReg): Merged {
    var layout := LayoutOf(m.layouts, r.owner);
    var layouts := if HasField(layout, r.field) then m.layouts
                   else m.layouts[r.owner := layout + [Field(r.field, |layout|, true, "")]];
    var owners := m.owners[r.field := AppendUniq(OwnersOf(m.owners, r.field), r.owner)];
    var k := Reg(r.owner, r.field);
    var out := AppendNew(Handlers(m.regs, k), r.handlers);
    Merged(layouts, owners, if out == Handlers(m.regs, k) then m.regs else m.regs[k := out])
  }

  function MergeRegs(m: Merged, rs: seq<TableReg>): Merged {
    if rs == [] then m else MergeReg(MergeRegs(m, rs[..|rs| - 1]), rs[|rs| - 1])
  }

  /** The table declares h for key k. */
  ghost predicate Declares(rs: seq<TableReg>, k: Reg, h: string) {
    exists r :: r in rs && r.owner == k.owner && r.field == k.field && h in r.handlers
  }

  lemma {:induction false} MergedHas(m: Merged, rs: seq<TableReg>, k: Reg, h: string)
    ensures h in Handlers(MergeRegs(m, rs).regs, k) <==> h in Handlers(m.regs, k) || Declares(rs, k, h)
  {
    hide HasField, LayoutOf, AppendNew, AppendUniq, OwnersOf;
    if rs != [] {
      var n := |rs| - 1;
      var before, r := MergeRegs(m, rs[..n]), rs[n];
      MergedHas(m, rs[..n], k, h);
      AppendNewHolds(Handlers(before.regs, Reg(r.owner, r.field)), r.handlers, h);
      assert rs == rs[..n] + [r];
    }
  }

  /** The table names st for the field. */
  ghost predicate Names(rs: seq<TableReg>, st: string, field: string) {
    exists r :: r in rs && r.owner == st && r.field == field
  }

  lemma {:induction false} MergedOwners(m: Merged, rs: seq<TableReg>, st: string, field: string)
    ensures st in OwnersOf(MergeRegs(m, rs).owners, field) <==> st in OwnersOf(m.owners, field) || Names(rs, st, field)
  {
    hide HasField, LayoutOf, AppendNew, Handlers;
    if rs != [] {
      var n := |rs| - 1;
      MergedOwners(m, rs[..n], st, field);
      assert rs == rs[..n] + [rs[n]];
      var before := MergeRegs(m, rs[..n]);
      assert OwnersOf(MergeReg(before, rs[n]).owners, field)
          == if field == rs[n].field then AppendUniq(OwnersOf(before.owners, field), rs[n].owner)
             else OwnersOf(before.owners, field);
    }
  }

  /** Merging keeps the structs of every field free of repeats. */
  lemma {:induction false} MergedOwnersDistinct(m: Merged, rs: seq<TableReg>, field: string)
    requires forall f :: NoDuplicates(OwnersOf(m.owners, f))
    ensures NoDuplicates(OwnersOf(MergeRegs(m, rs).owners, field))
  {
    if rs != [] {
      MergedOwnersDistinct(m, rs[..|rs| - 1], field);
    }
  }

  /** Merging keeps every layout numbered by position. */
  lemma {:induction false} MergedWellIndexed(m: Merged, rs: seq<TableReg>)
    requires AllWellIndexed(m.layouts)
    ensures AllWellIndexed(MergeRegs(m, rs).layouts)
  {
    if rs != [] { MergedWellIndexed(m, rs[..|rs| - 1]); }
  }

  /** Merging leaves every field where it was, and adds exactly the fields the table names
      for a struct that has none of that name, all of them fn-pointers. */
  lemma {:induction false} MergedFields(m: Merged, rs: seq<TableReg>, st: string)
    ensures LayoutOf(m.layouts, st) <= LayoutOf(MergeRegs(m, rs).layouts, st)
    ensures forall p :: |LayoutOf(m.layouts, st)| <= p < |LayoutOf(MergeRegs(m, rs).layouts, st)| ==>
              var f := LayoutOf(MergeRegs(m, rs).layouts, st)[p];
              f.fnPtr && f.structType == "" && Names(rs, st, f.name) && !HasField(LayoutOf(m.layouts, st), f.name)
    ensures forall field :: Names(rs, st, field) ==> HasField(LayoutOf(MergeRegs(m, rs).layouts, st), field)
  {
    if rs != [] {
      var n := |rs| - 1;
      MergedFields(m, rs[..n], st);
      assert rs == rs[..n] + [rs[n]];
      OneMergedField(m, MergeRegs(m, rs[..n]), rs[..n], rs[n], st);
    }
  }

  lemma {:induction false} OneMergedField(m: Merged, before: Merged, rs: seq<TableReg>, r: TableReg, st: string)
    requires LayoutOf(m.layouts, st) <= LayoutOf(before.layouts, st)
    requires forall p :: |LayoutOf(m.layouts, st)| <= p < |LayoutOf(before.layouts, st)| ==>
               var f := LayoutOf(before.layouts, st)[p];
               f.fnPtr && f.structType == "" && Names(rs, st, f.name) && !HasField(LayoutOf(m.layouts, st), f.name)
    requires forall field :: Names(rs, st, field) ==> HasField(LayoutOf(before.layouts, st), field)
    ensures var after := MergeReg(before, r);
            && LayoutOf(m.layouts, st) <= LayoutOf(after.layouts, st)
            && (forall p :: |LayoutOf(m.layouts, st)| <= p < |LayoutOf(after.layouts, st)| ==>
                  var f := LayoutOf(after.layouts, st)[p];
                  f.fnPtr && f.structType == "" && Names(rs + [r], st, f.name)
                  && !HasField(LayoutOf(m.layouts, st), f.name))
            && forall field :: Names(rs + [r], st, field) ==> HasField(LayoutOf(after.layouts, st), field)
  {
    hide AppendNew, AppendUniq, OwnersOf, Handlers;
    var x, y, z := LayoutOf(m.layouts, st), LayoutOf(before.layouts, st), LayoutOf(MergeReg(before, r).layouts, st);
    assert forall field :: Names(rs, st, field) ==> Names(rs + [r], st, field);
    assert forall field :: Names(rs + [r], st, field) ==> Names(rs, st, field) || (r.owner == st && r.field == field);
    if r.owner == st && !HasField(y, r.field) {
      assert z == y + [Field(r.field, |y|, true, "")];
      assert r in rs + [r] && Names(rs + [r], st, r.field);
      assert z[|y|].name == r.field;
      assert forall p :: 0 <= p < |x| ==> x[p] == y[p];
      forall field | HasField(y, field) ensures HasField(z, field) {
        var p :| 0 <= p < |y| && y[p].name == field;
        assert z[p].name == field;
      }
    } else {
      assert z == y;
    }
  }

  function LinkCaller(l: TableLink): Caller {
    Caller(l.from, "ccq.fnptr.json", 0, if l.note != "" then "manual:" + l.note else "manual")
  }

  type Links = map<string, seq<Caller>>

  function LinksOf(links: Links, h: string): seq<Caller> {
    if h in links then links[h] else []
  }

  // ---- soundness of the whole build ----

  function TableRegs(table: Option<Table>): seq<TableReg> {
    match table case None => [] case Some(t) => t.registrations
  }

  /** What a build leaves in registrations, fieldToStructs and structLayout. */
  ghost predicate BuiltFrom(facts: Facts, scanned: OwnersMap, m: Merged)
    requires CapturesShrink(facts.rx)
  {
    exists before :: ScannedFrom(facts, scanned, before) && m == MergeRegs(before, TableRegs(facts.table))
  }

  /** The same before the override table is merged. */
  ghost predicate ScannedFrom(facts: Facts, scanned: OwnersMap, m: Merged)
    requires CapturesShrink(facts.rx)
  {
    && m.layouts == AllStructs(map[], facts.declared, facts.files)
    && m.owners == scanned && OwnersExact(m.layouts, scanned)
    && m.regs == Passes(AddRegs(map[], facts.funcDefs, AllRequests(facts.rx, m.layouts, scanned, facts.files)),
                        LiveFlows(m.layouts, facts.flows), 3)
  }

  /** h is defined, and a chain of assignments made of at most three ascending runs leads
      to k from a key at which some initializer row or assignment asks for h. */
  ghost predicate Reaches(defs: set<string>, rs: seq<Request>, props: seq<Prop>, k: Reg, h: string) {
    h in defs && exists path, from :: Asked(rs, from, h) && Connects(props, path, from, k) && Runs(path) <= 3
  }

  predicate Asked(rs: seq<Request>, k: Reg, h: string) {
    Request(k.owner, k.field, h) in rs
  }

  lemma {:induction false} PassesReach(defs: set<string>, rs: seq<Request>, props: seq<Prop>, k: Reg, h: string)
    ensures h in Handlers(Passes(AddRegs(map[], defs, rs), props, 3), k) <==> Reaches(defs, rs, props, k, h)
  {
    hide AddRegs, Passes;
    var initial := AddRegs(map[], defs, rs);
    PassesExactly(initial, props, 3, k, h);
    if path :| Carries(initial, props, path, k, h) && Runs(path) <= 3 {
      var from := CarriesConnects(initial, props, path, k, h);
      AddRegsHas(map[], defs, rs, from, h);
      assert Asked(rs, from, h);
    }
    if Reaches(defs, rs, props, k, h) {
      var path, from :| Asked(rs, from, h) && Connects(props, path, from, k) && Runs(path) <= 3;
      AddRegsHas(map[], defs, rs, from, h);
      ConnectsCarries(initial, props, path, from, k, h);
    }
  }

  /** The registrations of a whole build, exactly: h is at k if and only if the table
      declares it there, or it reaches k from a key at which the source asks for it. */
  lemma {:induction false} RegistrationsExactly(facts: Facts, scanned: OwnersMap, before: Merged, k: Reg, h: string)
    requires CapturesShrink(facts.rx) && ScannedFrom(facts, scanned, before)
    ensures h in Handlers(MergeRegs(before, TableRegs(facts.table)).regs, k)
       <==> || Declares(TableRegs(facts.table), k, h)
            || Reaches(facts.funcDefs, AllRequests(facts.rx, before.layouts, scanned, facts.files),
                       LiveFlows(before.layouts, facts.flows), k, h)
  {
    MergedHas(before, TableRegs(facts.table), k, h);
    PassesReach(facts.funcDefs, AllRequests(facts.rx, before.layouts, scanned, facts.files),
                LiveFlows(before.layouts, facts.flows), k, h);
  }

  /** The key a chain leads to is one at which h is asked for, or the target of a live
      assignment. */
  lemma {:induction false} ReachedIsOwned(facts: Facts, layouts: Layouts, scanned: OwnersMap, k: Reg, h: string)
    requires CapturesShrink(facts.rx) && OwnersExact(layouts, scanned)
    requires Reaches(facts.funcDefs, AllRequests(facts.rx, layouts, scanned, facts.files),
                     LiveFlows(layouts, facts.flows), k, h)
    ensures Owns(layouts, k.owner, k.field)
  {
    hide AllRequests, LiveFlows, AskedIn;
    var rs, props := AllRequests(facts.rx, layouts, scanned, facts.files), LiveFlows(layouts, facts.flows);
    var path, from :| Asked(rs, from, h) && Connects(props, path, from, k) && Runs(path) <= 3;
    if path.Start? {
      RequestsExactly(facts.rx, layouts, scanned, facts.files, Request(k.owner, k.field, h));
      AskedIsOwned(facts.rx, layouts, scanned, facts.files, Request(k.owner, k.field, h));
    } else {
      LiveFlowsHas(layouts, facts.flows, props[path.last]);
      assert Find(LayoutOf(layouts, k.owner), k.field).value in LayoutOf(layouts, k.owner);
    }
  }

  /** Edge soundness.  After a build every registered key's struct is among the structs
      listed for its field, and every handler is a function defined in the project or
      one the table declares for that very key. */
  lemma {:induction false} RegistrationsAreSound(facts: Facts, scanned: OwnersMap, before: Merged, k: Reg, h: string)
    requires CapturesShrink(facts.rx) && ScannedFrom(facts, scanned, before)
    requires h in Handlers(MergeRegs(before, TableRegs(facts.table)).regs, k)
    ensures k.owner in OwnersOf(MergeRegs(before, TableRegs(facts.table)).owners, k.field)
    ensures h in facts.funcDefs || Declares(TableRegs(facts.table), k, h)
  {
    hide MergeRegs;
    var table := TableRegs(facts.table);
    RegistrationsExactly(facts, scanned, before, k, h);
    MergedOwners(before, table, k.owner, k.field);
    if Declares(table, k, h) {
      assert Names(table, k.owner, k.field);
    } else {
      ReachedIsOwned(facts, before.layouts, scanned, k, h);
    }
  }

  /** Every list of handlers is free of repeats. */
  lemma {:induction false} RegistrationsDistinct(facts: Facts, scanned: OwnersMap, before: Merged, k: Reg)
    requires CapturesShrink(facts.rx) && ScannedFrom(facts, scanned, before)
    ensures NoDuplicates(Handlers(MergeRegs(before, TableRegs(facts.table)).regs, k))
  {
    hide AllRequests, LiveFlows;
    var rs := AllRequests(facts.rx, before.layouts, scanned, facts.files);
    var initial, props := AddRegs(map[], facts.funcDefs, rs), LiveFlows(before.layouts, facts.flows);
    forall k ensures NoDuplicates(Handlers(initial, k)) {
      AddRegsDistinct(map[], facts.funcDefs, rs, k);
    }
    forall k ensures NoDuplicates(Handlers(before.regs, k)) {
      StaysDistinct(initial, props, 3, 0, k);
    }
    MergedDistinct(before, TableRegs(facts.table), k);
  }

  lemma {:induction false} MergedDistinct(m: Merged, rs: seq<TableReg>, k: Reg)
    requires forall k :: NoDuplicates(Handlers(m.regs, k))
    ensures NoDuplicates(Handlers(MergeRegs(m, rs).regs, k))
  {
    if rs != [] {
      var before, r := MergeRegs(m, rs[..|rs| - 1]), rs[|rs| - 1];
      MergedDistinct(m, rs[..|rs| - 1], k);
      MergedDistinct(m, rs[..|rs| - 1], Reg(r.owner, r.field));
      AppendNewKeeps(Handlers(before.regs, Reg(r.owner, r.field)), r.handlers);
    }
  }

  /** The links of the override table, added in order. */
  function MergeLinks(links: Links, ls: seq<TableLink>): Links {
    if ls == [] then links
    else MergeTargets(MergeLinks(links, ls[..|ls| - 1]), ls[|ls| - 1], ls[|ls| - 1].to)
  }

  function MergeTargets(links: Links, l: TableLink, to: seq<string>): Links {
    if to == [] then links
    else
      var earlier, h := MergeTargets(links, l, to[..|to| - 1]), to[|to| - 1];
      earlier[h := LinksOf(earlier, h) + [LinkCaller(l)]]
  }

  lemma NoLinkYet(links: Links)
    ensures MergeLinks(links, []) == links
  {
  }

  lemma NextLink(links: Links, ls: seq<TableLink>, k: nat)
    requires k < |ls|
    ensures MergeLinks(links, ls[..k + 1]) == MergeTargets(MergeLinks(links, ls[..k]), ls[k], ls[k].to)
  {
    hide MergeTargets;
    assert ls[..k + 1][..k] == ls[..k];
  }

  lemma NoTargetYet(links: Links, l: TableLink)
    ensures MergeTargets(links, l, []) == links
  {
  }

  lemma NextTarget(links: Links, l: TableLink, j: nat)
    requires j < |l.to|
    ensures var m := MergeTargets(links, l, l.to[..j]);
            MergeTargets(links, l, l.to[..j + 1]) == m[l.to[j] := LinksOf(m, l.to[j]) + [LinkCaller(l)]]
  {
    hide LinksOf, LinkCaller;
    assert l.to[..j + 1][..j] == l.to[..j];
  }

  /** What is listed for a link: its source, at no line of the table, and its note. */
  predicate IsLink(c: Caller, l: TableLink) {
    && c.func == l.from && c.file == "ccq.fnptr.json" && c.line == 0
    && (l.note == "" ==> c.field == "manual") && (l.note != "" ==> c.field == "manual:" + l.note)
  }

  /** A link lists its source as a caller of each of its targets, and nothing else is
      listed. */
  lemma {:induction false} LinksMean(ls: seq<TableLink>, h: string, c: Caller)
    ensures c in LinksOf(MergeLinks(map[], ls), h)
       <==> exists l :: l in ls && h in l.to && IsLink(c, l)
  {
    if ls != [] {
      var n := |ls| - 1;
      LinksMean(ls[..n], h, c);
      TargetsMean(MergeLinks(map[], ls[..n]), ls[n], ls[n].to, h, c);
      assert ls == ls[..n] + [ls[n]];
    }
  }

  lemma {:induction false} TargetsMean(links: Links, l: TableLink, to: seq<string>, h: string, c: Caller)
    ensures c in LinksOf(MergeTargets(links, l, to), h) <==> c in LinksOf(links, h) || (h in to && IsLink(c, l))
  {
    assert c == LinkCaller(l) <==> IsLink(c, l);
    hide LinkCaller, IsLink;
    if to != [] {
      var n := |to| - 1;
      TargetsMean(links, l, to[..n], h, c);
      assert to == to[..n] + [to[n]];
    }
  }

  // ---- from the initializers to the build ----

  /** The layouts at the time the initializers are scanned. */
  function ScannedLayout(facts: Facts, st: string): Layout {
    LayoutOf(AllStructs(map[], facts.declared, facts.files), st)
  }

  /** What an initializer asks for is registered after the build, if it is a function of the
      project. */
  lemma {:induction false} AskedIsRegistered(facts: Facts, scanned: OwnersMap, m: Merged, f: FileFacts,
                                             init: (string, string), k: Reg, h: string)
    requires CapturesShrink(facts.rx) && BuiltFrom(facts, scanned, m)
    requires f in facts.files && init in f.inits && h in facts.funcDefs && ScannedLayout(facts, init.0) != []
    requires RowAsks(facts.rx, AllStructs(map[], facts.declared, facts.files), init.0, init.1,
                             Request(k.owner, k.field, h))
    ensures h in Handlers(m.regs, k)
  {
    hide RowAsks, AllStructs, AllRequests, LiveFlows, MergeRegs, Passes, AddRegs, OwnersExact;
    var before :| ScannedFrom(facts, scanned, before) && m == MergeRegs(before, TableRegs(facts.table));
    var r, rs := Request(k.owner, k.field, h), AllRequests(facts.rx, before.layouts, scanned, facts.files);
    RegistrationsExactly(facts, scanned, before, k, h);
    assert InitAsks(facts.rx, before.layouts, init, r);
    assert AskedInFile(facts.rx, before.layouts, scanned, f, r);
    RequestsExactly(facts.rx, before.layouts, scanned, facts.files, r);
    assert Asked(rs, k, h);
    assert Connects(LiveFlows(before.layouts, facts.flows), Start, k, k) && Runs(Start) <= 3;
  }

  /** The items of a row, as C counts them. */
  function RowItems(rx: Recognizers, row: string): seq<Item>
    requires CapturesShrink(rx)
  {
    Items(rx, Splitter.SplitTopLevel(row))
  }

  /** The function that item i of a row names. */
  function HandlerOfItem(rx: Recognizers, row: string, i: nat): string
    requires CapturesShrink(rx)
  {
    if i < |RowItems(rx, row)| then rx.handler(ValueOf(RowItems(rx, row)[i])) else ""
  }

  /** C has item i of a flat row of a struct initialize the fn-pointer field k with a function
      of the project. */
  ghost predicate Initializes(facts: Facts, st: string, row: string, members: seq<Member>, i: nat, k: Reg)
    requires CapturesShrink(facts.rx)
  {
    var layout, items := ScannedLayout(facts, st), RowItems(facts.rx, row);
    && layout != [] && |members| == |layout| && FlatRow(facts.rx, layout, row)
    && i < |items| && InC(layout, members, items, i) == Some(k)
    && HandlerOfItem(facts.rx, row, i) in facts.funcDefs && HandlerOfItem(facts.rx, row, i) != ""
  }

  /** Item i of an initializer does so, and the scanner keeps in place with C
      (InitRows.ItemInPlaceExactlyWhen says when it does). */
  ghost predicate InitializesInPlace(facts: Facts, f: FileFacts, init: (string, string), members: seq<Member>, i: nat,
                                     k: Reg)
    requires CapturesShrink(facts.rx)
  {
    && f in facts.files && init in f.inits && Initializes(facts, init.0, init.1, members, i, k)
    && InPlace(facts.rx, init.0, ScannedLayout(facts, init.0), members, RowItems(facts.rx, init.1), i)
  }

  /** From a row to the build: what C has an item of a flat initializer initialize for a
      fn-pointer field is registered there, if the scanner keeps in place with C. */
  lemma {:induction false} InitializerRegisters(facts: Facts, scanned: OwnersMap, m: Merged, f: FileFacts,
                                                init: (string, string), members: seq<Member>, i: nat, k: Reg)
    requires CapturesShrink(facts.rx) && BuiltFrom(facts, scanned, m)
    requires InitializesInPlace(facts, f, init, members, i, k)
    ensures HandlerOfItem(facts.rx, init.1, i) in Handlers(m.regs, k)
  {
    var layouts := AllStructs(map[], facts.declared, facts.files);
    LayoutsWellIndexed(facts.declared, facts.files);
    assert WellIndexed(LayoutOf(layouts, init.0));
    hide BuiltFrom, FlatRow, InC, InPlace, AllStructs, RowAsks, ValueOf, Items, Splitter.SplitTopLevel;
    FlatItemAsks(facts.rx, layouts, init.0, members, init.1, i, k);
    AskedIsRegistered(facts, scanned, m, f, init, k, HandlerOfItem(facts.rx, init.1, i));
  }

  /** The same for the rows of a table, laid out in any way, as far as they are not
      misplaced. */
  lemma {:induction false} TableRegisters(facts: Facts, scanned: OwnersMap, m: Merged, f: FileFacts,
                                          init: (string, string), rows: seq<string>, members: seq<Member>, j: nat,
                                          i: nat, k: Reg)
    requires CapturesShrink(facts.rx) && HandlerReads(facts.rx) && BuiltFrom(facts, scanned, m)
    requires f in facts.files && init in f.inits && IsTable(facts.rx, init.1, rows) && j < |rows|
    requires Initializes(facts, init.0, rows[j], members, i, k)
    requires !Misplaced(facts.rx, init.0, ScannedLayout(facts, init.0), members, rows[j], j)
    ensures HandlerOfItem(facts.rx, rows[j], i) in Handlers(m.regs, k)
  {
    var layouts := AllStructs(map[], facts.declared, facts.files);
    LayoutsWellIndexed(facts.declared, facts.files);
    assert WellIndexed(LayoutOf(layouts, init.0));
    hide BuiltFrom, FlatRow, InC, Misplaced, AllStructs, RowAsks, ValueOf, Items, Splitter.SplitTopLevel, HandlerReads,
         IsTable;
    TableItemAsks(facts.rx, layouts, init.0, members, init.1, rows, j, i, k);
    AskedIsRegistered(facts, scanned, m, f, init, k, HandlerOfItem(facts.rx, rows[j], i));
  }

  /** The commonest form: `.field = h` in an initializer of a struct with that fn-pointer field
      registers the function h there, wherever the item stands. */
  lemma {:induction false} DesignatedRegisters(facts: Facts, scanned: OwnersMap, m: Merged, f: FileFacts,
                                               init: (string, string), i: nat, field: string, value: string)
    requires CapturesShrink(facts.rx) && BuiltFrom(facts, scanned, m) && f in facts.files && init in f.inits
    requires i < |Splitter.SplitTopLevel(init.1)|
    requires Reads(facts.rx, Splitter.SplitTopLevel(init.1)[i], field, value)
    requires IsFnPtr(ScannedLayout(facts, init.0), field)
    requires facts.rx.handler(TrimSpace(value)) in facts.funcDefs && facts.rx.handler(TrimSpace(value)) != ""
    ensures facts.rx.handler(TrimSpace(value)) in Handlers(m.regs, Reg(init.0, field))
  {
    var layouts := AllStructs(map[], facts.declared, facts.files);
    assert ScannedLayout(facts, init.0) != [];
    hide BuiltFrom, AllStructs, RowAsks, Reads, IsFnPtr, Splitter.SplitTopLevel, TrimSpace;
    DesignatedAsks(facts.rx, layouts, init.0, init.1, i, field, value);
    AskedIsRegistered(facts, scanned, m, f, init, Reg(init.0, field), facts.rx.handler(TrimSpace(value)));
  }

  /** And without designators: the value at position i is registered for the field at position
      i of the last declaration that names the struct. */
  lemma {:induction false} PositionalRegisters(facts: Facts, scanned: OwnersMap, m: Merged, f: FileFacts,
                                               init: (string, string), i: nat)
    requires CapturesShrink(facts.rx) && BuiltFrom(facts, scanned, m) && f in facts.files && init in f.inits
    requires i < |Splitter.SplitTopLevel(init.1)| && i < |ScannedLayout(facts, init.0)|
    requires forall j :: 0 <= j <= i ==> IsValue(facts.rx, Splitter.SplitTopLevel(init.1)[j])
    requires ScannedLayout(facts, init.0)[i].fnPtr
    requires var h := facts.rx.handler(TrimSpace(Splitter.SplitTopLevel(init.1)[i])); h in facts.funcDefs && h != ""
    ensures facts.rx.handler(TrimSpace(Splitter.SplitTopLevel(init.1)[i]))
            in Handlers(m.regs, Reg(init.0, ScannedLayout(facts, init.0)[i].name))
  {
    var layouts := AllStructs(map[], facts.declared, facts.files);
    hide BuiltFrom, AllStructs, RowAsks, IsValue, Splitter.SplitTopLevel, TrimSpace;
    PositionalAsks(facts.rx, layouts, init.0, init.1, i);
    AskedIsRegistered(facts, scanned, m, f, init, Reg(init.0, ScannedLayout(facts, init.0)[i].name),
                      facts.rx.handler(TrimSpace(Splitter.SplitTopLevel(init.1)[i])));
  }

  /** And for assignments: a function of the project that is assigned to a field is registered
      there, if the declarations give that field to one struct only. */
  lemma {:induction false} AssignmentRegisters(facts: Facts, scanned: OwnersMap, m: Merged, f: FileFacts, field: string,
                                               h: string, st: string)
    requires CapturesShrink(facts.rx) && BuiltFrom(facts, scanned, m) && f in facts.files
    requires (field, h) in f.assigns && h in facts.funcDefs
    requires SoleOwner(AllStructs(map[], facts.declared, facts.files), st, field)
    ensures h in Handlers(m.regs, Reg(st, field))
  {
    hide RowAsks, AllStructs, AllRequests, LiveFlows, MergeRegs, Passes, AddRegs, SoleOwner;
    var before :| ScannedFrom(facts, scanned, before) && m == MergeRegs(before, TableRegs(facts.table));
    var k, r := Reg(st, field), Request(st, field, h);
    OneOwner(before.layouts, scanned, field, st);
    RegistrationsExactly(facts, scanned, before, k, h);
    assert AssignAsks(scanned, (field, h), r);
    assert AskedInFile(facts.rx, before.layouts, scanned, f, r);
    RequestsExactly(facts.rx, before.layouts, scanned, facts.files, r);
    assert Asked(AllRequests(facts.rx, before.layouts, scanned, facts.files), k, h);
    assert Connects(LiveFlows(before.layouts, facts.flows), Start, k, k) && Runs(Start) <= 3;
  }

  ghost predicate SoleOwner(layouts: Layouts, st: string, field: string) {
    forall other :: Owns(layouts, other, field) <==> other == st
  }

  lemma {:induction false} OneOwner(layouts: Layouts, owners: OwnersMap, field: string, st: string)
    requires OwnersExact(layouts, owners) && SoleOwner(layouts, st, field)
    ensures OwnersOf(owners, field) == [st]
  {
    hide Owns, OwnersExact, SoleOwner;
    var all := OwnersOf(owners, field);
    ListedOwner(layouts, owners, field, st);
    SoleOwnerIs(layouts, st, field, st);
    forall k | 0 <= k < |all| ensures all[k] == st {
      ListedOwner(layouts, owners, field, all[k]);
      SoleOwnerIs(layouts, st, field, all[k]);
    }
    assert all[0] == all[|all| - 1];
  }

  lemma ListedOwner(layouts: Layouts, owners: OwnersMap, field: string, st: string)
    requires OwnersExact(layouts, owners)
    ensures NoDuplicates(OwnersOf(owners, field)) && (st in OwnersOf(owners, field) <==> Owns(layouts, st, field))
  {
    hide Owns;
  }

  lemma SoleOwnerIs(layouts: Layouts, st: string, field: string, other: string)
    requires SoleOwner(layouts, st, field)
    ensures Owns(layouts, other, field) <==> other == st
  {
    hide Owns;
  }

  /** After a build the structs of a field are listed once each. */
  lemma {:induction false} BuiltOwnersDistinct(facts: Facts, scanned: OwnersMap, m: Merged, field: string)
    requires CapturesShrink(facts.rx) && BuiltFrom(facts, scanned, m)
    ensures NoDuplicates(OwnersOf(m.owners, field))
  {
    hide MergeRegs, AllStructs, AllRequests, Passes, AddRegs;
    var before :| ScannedFrom(facts, scanned, before) && m == MergeRegs(before, TableRegs(facts.table));
    MergedOwnersDistinct(before, TableRegs(facts.table), field);
  }

  // ---- the builder ----

  /** The fields of `index` that the passes fill. */
  class Index {
    var structLayout: Layouts
    var fieldToStructs: OwnersMap
    var registrations: Registrations
    var funcDefs: set<string>
    var manualLinks: Links

    constructor (funcDefs: set<string>)
      ensures structLayout == map[] && fieldToStructs == map[] && registrations == map[]
      ensures this.funcDefs == funcDefs && manualLinks == map[]
    {
      structLayout, fieldToStructs, registrations := map[], map[], map[];
      this.funcDefs, manualLinks := funcDefs, map[];
    }

    function Value(): Merged
      reads this
    {
      Merged(structLayout, fieldToStructs, registrations)
    }

    /** scanStructs */
    method ScanStructs(declared: string -> Declared, ds: seq<StructDecl>)
      modifies `structLayout
      ensures structLayout == AddStructs(old(structLayout), declared, ds)
    {
      hide FieldsOf, SplitAt;
      ghost var before := structLayout;
      var k := 0;
      while k < |ds|
        invariant 0 <= k <= |ds|
        invariant structLayout == AddStructs(before, declared, ds[..k])
      {
        assert ds[..k + 1][..k] == ds[..k];
        var fields := ParseStructFields(declared, ds[k].body);
        if ds[k].tag != "" {
          structLayout := structLayout[ds[k].tag := fields];
        }
        if ds[k].alias != "" {
          structLayout := structLayout[ds[k].alias := fields];
        }
        k := k + 1;
      }
      assert ds[..k] == ds;
    }

    /** The loop that inverts the layouts; the order of the structs is arbitrary. */
    method IndexOwners()
      requires fieldToStructs == map[]
      modifies `fieldToStructs
      ensures OwnersExact(structLayout, fieldToStructs)
    {
      var todo := structLayout.Keys;
      while todo != {}
        invariant todo <= structLayout.Keys
        invariant OwnersUpTo(structLayout, fieldToStructs, structLayout.Keys - todo)
      {
        var st :| st in todo;
        todo := todo - {st};
        IndexFields(st, structLayout.Keys - todo - {st});
        assert structLayout.Keys - todo == (structLayout.Keys - todo - {st}) + {st};
      }
    }

    method IndexFields(st: string, ghost done: set<string>)
      requires st in structLayout && st !in done
      requires OwnersUpTo(structLayout, fieldToStructs, done)
      modifies `fieldToStructs
      ensures OwnersUpTo(structLayout, fieldToStructs, done + {st})
    {
      var fields := structLayout[st];
      var k := 0;
      while k < |fields|
        invariant 0 <= k <= |fields|
        invariant OwnersPartly(structLayout, fieldToStructs, done, st, fields[..k])
      {
        assert fields[..k + 1] == fields[..k] + [fields[k]];
        OneMoreField(structLayout, fieldToStructs, done, st, fields[..k], fields[k]);
        if fields[k].fnPtr {
          var name := fields[k].name;
          fieldToStructs := fieldToStructs[name := AppendUniq(OwnersOf(fieldToStructs, name), st)];
        }
        k := k + 1;
      }
      assert fields[..k] == fields;
    }

    /** addReg */
    method AddRegistration(st: string, field: string, fn: string)
      modifies `registrations
      ensures registrations == AddReg(old(registrations), funcDefs, Request(st, field, fn))
    {
      if fn !in funcDefs {
        return;
      }
      var k := Reg(st, field);
      if fn !in Handlers(registrations, k) {
        registrations := registrations[k := Handlers(registrations, k) + [fn]];
      }
    }

    method AddRegistrations(rs: seq<Request>)
      modifies `registrations
      ensures registrations == AddRegs(old(registrations), funcDefs, rs)
    {
      ghost var before := registrations;
      var k := 0;
      while k < |rs|
        invariant 0 <= k <= |rs|
        invariant registrations == AddRegs(before, funcDefs, rs[..k])
      {
        assert rs[..k + 1][..k] == rs[..k];
        AddRegistration(rs[k].owner, rs[k].field, rs[k].handler);
        k := k + 1;
      }
      assert rs[..k] == rs;
    }

    /** scanRow: the pieces of a row in turn, with the positional cursor. */
    method ScanRow(rx: InitRows.Recognizers, st: string, row: string)
      requires CapturesShrink(rx)
      modifies `registrations
      ensures registrations == AddRegs(old(registrations), funcDefs, RowRequests(rx, structLayout, st, row))
      decreases |row|, 1
    {
      hide AddRegs, RowRequests, ItemRequests, PieceRequests, Classify;
      ghost var layouts, defs := structLayout, funcDefs;
      ghost var goal := AddRegs(registrations, defs, RowRequests(rx, layouts, st, row));
      var pieces := Splitter.Split(row);
      RowIsPieces(rx, layouts, st, row);
      assert pieces[0..] == pieces;
      var pos := 0;
      var k := 0;
      while k < |pieces|
        invariant 0 <= k <= |pieces| && structLayout == layouts && funcDefs == defs
        invariant AddRegs(registrations, defs, PieceRequests(rx, layouts, st, pieces[k..], pos, |row|)) == goal
      {
        var item := Classify(rx, pieces[k]);
        PieceStep(rx, layouts, defs, registrations, st, pieces, k, pos, |row|);
        ScanItem(rx, st, item, pos, |row|);
        pos := NextPos(structLayout, st, item, pos);
        k := k + 1;
      }
      assert pieces[k..] == [];
      NoPieces(rx, layouts, st, pos, |row|);
      NothingAdded(registrations, defs);
    }

    /** The body of the loop over a row's items. */
    method ScanItem(rx: InitRows.Recognizers, st: string, item: Item, pos: int, bound: nat)
      requires CapturesShrink(rx) && ShorterThan(item, bound)
      modifies `registrations
      ensures registrations
              == AddRegs(old(registrations), funcDefs, ItemRequests(rx, structLayout, st, item, pos, bound))
      decreases bound, 0
    {
      match item
      case Blank =>
      case Nested(inner) => ScanRow(rx, st, inner);
      case Scalar(value) => AddRegistrations(Place(rx, structLayout, st, pos, value));
      case Positional(value) => AddRegistrations(Place(rx, structLayout, st, pos, value));
      case Designated(field, value) =>
        var layout := LayoutOf(structLayout, st);
        if IsFnPtr(layout, field) {
          var h := rx.handler(value);
          if h != "" {
            AddRegistrations([Request(st, field, h)]);
          }
        } else {
          var inner := StructTypeOf(layout, field);
          if inner != "" && OpensBrace(value) && LayoutOf(structLayout, inner) != [] {
            ScanRow(rx, inner, TrimBraces(value));
          }
        }
    }

    /** scanRegistrations of one file. */
    method ScanRegistrations(rx: InitRows.Recognizers, f: FileFacts)
      requires CapturesShrink(rx)
      modifies `registrations
      ensures registrations == AddRegs(old(registrations), funcDefs, FileRequests(rx, structLayout, fieldToStructs, f))
    {
      ghost var before := registrations;
      ScanInits(rx, f.inits);
      ScanAssigns(f.assigns);
      AddRegsConcat(before, funcDefs, AllInits(rx, structLayout, f.inits), AllAssigns(fieldToStructs, f.assigns));
    }

    method ScanInits(rx: InitRows.Recognizers, inits: seq<(string, string)>)
      requires CapturesShrink(rx)
      modifies `registrations
      ensures registrations == AddRegs(old(registrations), funcDefs, AllInits(rx, structLayout, inits))
    {
      hide InitRequests;
      ghost var before, layouts, defs := registrations, structLayout, funcDefs;
      var k := 0;
      while k < |inits|
        invariant 0 <= k <= |inits| && structLayout == layouts && funcDefs == defs
        invariant registrations == AddRegs(before, defs, AllInits(rx, layouts, inits[..k]))
      {
        assert inits[..k + 1][..k] == inits[..k];
        AddRegsConcat(before, defs, AllInits(rx, layouts, inits[..k]), InitRequests(rx, layouts, inits[k]));
        ScanInit(rx, inits[k]);
        k := k + 1;
      }
      assert inits[..k] == inits;
    }

    /** One initializer: of a struct without a layout nothing is known. */
    method ScanInit(rx: InitRows.Recognizers, init: (string, string))
      requires CapturesShrink(rx)
      modifies `registrations
      ensures registrations == AddRegs(old(registrations), funcDefs, InitRequests(rx, structLayout, init))
    {
      hide RowRequests;
      if LayoutOf(structLayout, init.0) != [] {
        ScanRow(rx, init.0, init.1);
      }
    }

    method ScanAssigns(assigns: seq<(string, string)>)
      modifies `registrations
      ensures registrations == AddRegs(old(registrations), funcDefs, AllAssigns(fieldToStructs, assigns))
    {
      hide AssignRequests;
      ghost var before, owners, defs := registrations, fieldToStructs, funcDefs;
      var k := 0;
      while k < |assigns|
        invariant 0 <= k <= |assigns| && fieldToStructs == owners && funcDefs == defs
        invariant registrations == AddRegs(before, defs, AllAssigns(owners, assigns[..k]))
      {
        assert assigns[..k + 1][..k] == assigns[..k];
        AddRegsConcat(before, defs, AllAssigns(owners, assigns[..k]), AssignRequests(owners, assigns[k]));
        ScanAssign(assigns[k]);
        k := k + 1;
      }
      assert assigns[..k] == assigns;
    }

    /** One assignment: nothing is known of a field with several owners, or none. */
    method ScanAssign(assign: (string, string))
      modifies `registrations
      ensures registrations == AddRegs(old(registrations), funcDefs, AssignRequests(fieldToStructs, assign))
    {
      var owners := OwnersOf(fieldToStructs, assign.0);
      if |owners| == 1 {
        AddRegistrations([Request(owners[0], assign.0, assign.1)]);
      }
    }

    /** Pass B: the layouts of all files, then their inverse. */
    method PassB(declared: string -> Declared, files: seq<FileFacts>)
      requires structLayout == map[] && fieldToStructs == map[]
      modifies `structLayout, `fieldToStructs
      ensures structLayout == AllStructs(map[], declared, files)
      ensures OwnersExact(structLayout, fieldToStructs)
    {
      var k := 0;
      while k < |files|
        invariant 0 <= k <= |files|
        invariant structLayout == AllStructs(map[], declared, files[..k]) && fieldToStructs == map[]
      {
        assert files[..k + 1][..k] == files[..k];
        ScanStructs(declared, files[k].structs);
        k := k + 1;
      }
      assert files[..k] == files;
      IndexOwners();
    }

    /** Pass C: the registrations of all files. */
    method PassC(rx: InitRows.Recognizers, files: seq<FileFacts>)
      requires CapturesShrink(rx)
      modifies `registrations
      ensures registrations
              == AddRegs(old(registrations), funcDefs, AllRequests(rx, structLayout, fieldToStructs, files))
    {
      hide FileRequests;
      ghost var before, layouts, owners, defs := registrations, structLayout, fieldToStructs, funcDefs;
      var k := 0;
      while k < |files|
        invariant 0 <= k <= |files| && structLayout == layouts && fieldToStructs == owners && funcDefs == defs
        invariant registrations == AddRegs(before, defs, AllRequests(rx, layouts, owners, files[..k]))
      {
        assert files[..k + 1][..k] == files[..k];
        AddRegsConcat(before, defs, AllRequests(rx, layouts, owners, files[..k]),
                      FileRequests(rx, layouts, owners, files[k]));
        ScanRegistrations(rx, files[k]);
        k := k + 1;
      }
      assert files[..k] == files;
    }

    /** scanPropagations: the assignments whose two fields are fn-pointers. */
    method ScanPropagations(flows: seq<Prop>) returns (out: seq<Prop>)
      ensures out == LiveFlows(structLayout, flows)
    {
      out := [];
      var k := 0;
      while k < |flows|
        invariant 0 <= k <= |flows|
        invariant out == LiveFlows(structLayout, flows[..k])
      {
        assert flows[..k + 1][..k] == flows[..k];
        var p := flows[k];
        if p.to.owner != "" && p.from.owner != ""
           && IsFnPtr(LayoutOf(structLayout, p.to.owner), p.to.field)
           && IsFnPtr(LayoutOf(structLayout, p.from.owner), p.from.field) {
          out := out + [p];
        }
        k := k + 1;
      }
      assert flows[..k] == flows;
    }

    /** One field<-field assignment of pass D. */
    method FlowOnce(p: Prop) returns (changed: bool)
      modifies `registrations
      ensures registrations == Flow(old(registrations), p)
      ensures !changed ==> registrations == old(registrations)
    {
      ghost var before := registrations;
      var from := Handlers(registrations, p.from);
      changed := false;
      var k := 0;
      while k < |from|
        invariant 0 <= k <= |from|
        invariant registrations == FlowedUpTo(before, p, from, k)
        invariant !changed ==> registrations == before
      {
        FlowedOneMore(before, p, from, k);
        if from[k] !in Handlers(registrations, p.to) {
          registrations := registrations[p.to := Handlers(registrations, p.to) + [from[k]]];
          changed := true;
        }
        k := k + 1;
      }
      assert from[..k] == from;
    }

    /** Pass D: at most three passes, fewer if one changes nothing. */
    method Propagate(props: seq<Prop>)
      modifies `registrations
      ensures registrations == Passes(old(registrations), props, 3)
    {
      ghost var before := registrations;
      var n := 0;
      while n < 3
        invariant 0 <= n <= 3
        invariant registrations == Passes(before, props, n)
      {
        var changed := false;
        var i := 0;
        while i < |props|
          invariant 0 <= i <= |props|
          invariant registrations == After(before, props, n, i)
          invariant !changed ==> registrations == Passes(before, props, n)
        {
          var c := FlowOnce(props[i]);
          changed := changed || c;
          i := i + 1;
        }
        n := n + 1;
        if !changed {
          QuietFromThenOn(before, props, n - 1, 3);
          break;
        }
      }
    }

    /** mergeTable */
    method MergeTable(t: Table)
      modifies this
      ensures Value() == MergeRegs(old(Value()), t.registrations)
      ensures manualLinks == MergeLinks(old(manualLinks), t.links)
      ensures funcDefs == old(funcDefs)
    {
      hide AddRegs, MergeReg, MergeLinks;
      ghost var before := Value();
      var k := 0;
      while k < |t.registrations|
        invariant 0 <= k <= |t.registrations|
        invariant Value() == MergeRegs(before, t.registrations[..k])
        invariant manualLinks == old(manualLinks) && funcDefs == old(funcDefs)
      {
        assert t.registrations[..k + 1][..k] == t.registrations[..k];
        MergeOne(t.registrations[k]);
        k := k + 1;
      }
      assert t.registrations[..k] == t.registrations;
      MergeAllLinks(t.links);
    }

    method MergeOne(r: TableReg)
      modifies `structLayout, `fieldToStructs, `registrations
      ensures Value() == MergeReg(old(Value()), r)
    {
      var layout := LayoutOf(structLayout, r.owner);
      if !HasField(layout, r.field) {
        structLayout := structLayout[r.owner := layout + [Field(r.field, |layout|, true, "")]];
      }
      fieldToStructs := fieldToStructs[r.field := AppendUniq(OwnersOf(fieldToStructs, r.field), r.owner)];
      var k := Reg(r.owner, r.field);
      ghost var before := registrations;
      var i := 0;
      while i < |r.handlers|
        invariant 0 <= i <= |r.handlers|
        invariant structLayout == MergeReg(old(Value()), r).layouts
                  && fieldToStructs == MergeReg(old(Value()), r).owners
        invariant registrations == FlowedUpTo(before, Prop(k, k), r.handlers, i)
      {
        FlowedOneMore(before, Prop(k, k), r.handlers, i);
        if r.handlers[i] !in Handlers(registrations, k) {
          registrations := registrations[k := Handlers(registrations, k) + [r.handlers[i]]];
        }
        i := i + 1;
      }
      assert r.handlers[..i] == r.handlers;
    }

    method MergeAllLinks(ls: seq<TableLink>)
      modifies `manualLinks
      ensures manualLinks == MergeLinks(old(manualLinks), ls)
    {
      hide MergeLinks, MergeTargets, LinksOf;
      ghost var before := manualLinks;
      var k := 0;
      NoLinkYet(before);
      while k < |ls|
        invariant 0 <= k <= |ls|
        invariant manualLinks == MergeLinks(before, ls[..k])
      {
        NextLink(before, ls, k);
        ghost var sofar := manualLinks;
        var l := ls[k];
        var j := 0;
        NoTargetYet(sofar, l);
        while j < |l.to|
          invariant 0 <= j <= |l.to|
          invariant manualLinks == MergeTargets(sofar, l, l.to[..j])
        {
          NextTarget(sofar, l, j);
          var note := if l.note != "" then "manual:" + l.note else "manual";
          var c := Caller(l.from, "ccq.fnptr.json", 0, note);
          manualLinks := manualLinks[l.to[j] := LinksOf(manualLinks, l.to[j]) + [c]];
          j := j + 1;
        }
        assert l.to[..j] == l.to;
        k := k + 1;
      }
      assert ls[..k] == ls;
    }
  }

  /** buildFresh, from the recognised facts on. */
  method BuildFresh(facts: Facts) returns (ix: Index, ghost scanned: OwnersMap)
    requires CapturesShrink(facts.rx)
    ensures fresh(ix) && BuiltFrom(facts, scanned, ix.Value())
    ensures ix.funcDefs == facts.funcDefs
    ensures ix.manualLinks == MergeLinks(map[], TableLinks(facts.table))
  {
    hide ScannedFrom;
    ix := new Index(facts.funcDefs);
    scanned := Scan(ix, facts);
    ghost var before := ix.Value();
    if facts.table.Some? {
      ix.MergeTable(facts.table.value);
    }
    assert ix.Value() == MergeRegs(before, TableRegs(facts.table));
  }

  function TableLinks(table: Option<Table>): seq<TableLink> {
    match table case None => [] case Some(t) => t.links
  }

  /** Passes B to D. */
  method Scan(ix: Index, facts: Facts) returns (ghost scanned: OwnersMap)
    requires CapturesShrink(facts.rx)
    requires ix.Value() == Merged(map[], map[], map[]) && ix.funcDefs == facts.funcDefs
    modifies ix`structLayout, ix`fieldToStructs, ix`registrations
    ensures ScannedFrom(facts, scanned, ix.Value())
  {
    hide AddRegs, AllStructs, AllRequests, LiveFlows, Passes, OwnersExact;
    ix.PassB(facts.declared, facts.files);
    scanned := ix.fieldToStructs;
    ix.PassC(facts.rx, facts.files);
    var props := ix.ScanPropagations(facts.flows);
    ix.Propagate(props);
  }

  /** The list of p.to after the first k handlers of `from` have been offered. */
  function FlowedUpTo(regs: Registrations, p: Prop, from: seq<string>, k: nat): Registrations
    requires k <= |from|
  {
    var out := AppendNew(Handlers(regs, p.to), from[..k]);
    if out == Handlers(regs, p.to) then regs else regs[p.to := out]
  }

  lemma {:induction false} FlowedOneMore(regs: Registrations, p: Prop, from: seq<string>, k: nat)
    requires k < |from|
    ensures var sofar := FlowedUpTo(regs, p, from, k);
            FlowedUpTo(regs, p, from, k + 1)
            == if from[k] in Handlers(sofar, p.to) then sofar
               else sofar[p.to := Handlers(sofar, p.to) + [from[k]]]
  {
    assert from[..k + 1][..k] == from[..k];
    AppendNewKeeps(Handlers(regs, p.to), from[..k]);
  }

  /** The first of the remaining pieces, and then the others. */
  lemma {:induction false} PieceStep(rx: Recognizers, layouts: Layouts, defs: set<string>, regs: Registrations,
                                     st: string, pieces: seq<string>, k: nat, pos: int, bound: nat)
    requires CapturesShrink(rx) && k < |pieces| && NoLonger(pieces, bound)
    ensures var item := Classify(rx, pieces[k]);
            AddRegs(regs, defs, PieceRequests(rx, layouts, st, pieces[k..], pos, bound))
            == AddRegs(AddRegs(regs, defs, ItemRequests(rx, layouts, st, item, pos, bound)), defs,
                       PieceRequests(rx, layouts, st, pieces[k + 1..], NextPos(layouts, st, item, pos), bound))
  {
    hide AddRegs, ItemRequests, PieceRequests, Classify;
    var item := Classify(rx, pieces[k]);
    PieceCons(rx, layouts, st, pieces[k..], pos, bound);
    assert pieces[k..][1..] == pieces[k + 1..];
    AddRegsConcat(regs, defs, ItemRequests(rx, layouts, st, item, pos, bound),
                  PieceRequests(rx, layouts, st, pieces[k + 1..], NextPos(layouts, st, item, pos), bound));
  }

  lemma {:induction false} OneMoreField(layouts: Layouts, owners: OwnersMap, done: set<string>, st: string,
                                        some: Layout, f: Field)
    requires OwnersPartly(layouts, owners, done, st, some) && st !in done
    ensures !f.fnPtr ==> OwnersPartly(layouts, owners, done, st, some + [f])
    ensures f.fnPtr ==>
              OwnersPartly(layouts, owners[f.name := AppendUniq(OwnersOf(owners, f.name), st)], done, st, some + [f])
  {
    forall field ensures HasFnPtr(some + [f], field) <==> (HasFnPtr(some, field) || (f.fnPtr && f.name == field)) {
      if HasFnPtr(some, field) {
        var g :| g in some && g.fnPtr && g.name == field;
        assert g in some + [f];
      }
      if f.fnPtr && f.name == field { assert f in some + [f]; }
    }
    if f.fnPtr {
      var owners' := owners[f.name := AppendUniq(OwnersOf(owners, f.name), st)];
      forall field
        ensures NoDuplicates(OwnersOf(owners', field))
        ensures forall s :: s in OwnersOf(owners', field)
                  <==> ((s in done && Owns(layouts, s, field)) || (s == st && HasFnPtr(some + [f], field)))
      {
        var list := OwnersOf(owners, field);
        assert OwnersOf(owners', field) == if field == f.name then AppendUniq(list, st) else list;
        assert forall s :: s in AppendUniq(list, st) <==> (s in list || s == st);
      }
    }
  }

  /** fieldToStructs after the structs of `done` have been inverted. */
  ghost predicate OwnersUpTo(layouts: Layouts, owners: OwnersMap, done: set<string>) {
    forall field :: NoDuplicates(OwnersOf(owners, field))
                 && forall st :: st in OwnersOf(owners, field) <==> st in done && Owns(layouts, st, field)
  }

  /** The same, with the fields `some` of one more struct. */
  ghost predicate OwnersPartly(layouts: Layouts, owners: OwnersMap, done: set<string>, more: string, some: Layout) {
    forall field :: NoDuplicates(OwnersOf(owners, field))
                 && forall st :: st in OwnersOf(owners, field)
                      <==> (st in done && Owns(layouts, st, field))
                           || (st == more && HasFnPtr(some, field))
  }
}
