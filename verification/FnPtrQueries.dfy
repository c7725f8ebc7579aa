/** The two queries of internal/fnptr/fnptr.go, `Callers` and `Callees`, on a built
    index, and that they are inverse to each other. */
module FnPtrQueries {
  import opened Propagation
  import opened FnPtrIndex
  import opened Decimals
  import opened Rearrangement
  import DispatchSites
  import Strip
  import Text

  /** A dispatch site, with what the scans of the lines above it infer: the type of the
      receiver and the enclosing function, each empty where none is found. */
  datatype Site = Site(found: DispatchSites.Site, recvType: string, func: string)

  datatype FileSites = FileSites(path: string, sites: seq<Site>)

  /** What the queries read of an index. */
  datatype View = View(files: seq<FileSites>, owners: OwnersMap, regs: Registrations, links: Links)

  /** A site and the file it stands in. */
  datatype Seen = Seen(file: string, site: Site)

  const FANOUT_CAP := 300

  // ---- resolveDispatch ----

  /** The owner of a site's field: the cast's tag, else the receiver's type, else a sole
      owner, and nothing where that leaves a choice. */
  function Resolve(owners: OwnersMap, s: Site): (st: string)
    ensures st != "" ==> st in OwnersOf(owners, s.found.field)
  {
    var all := OwnersOf(owners, s.found.field);
    if |all| == 0 then ""
    else if s.found.cast != "" && s.found.cast in all then s.found.cast
    else if s.recvType != "" && s.recvType in all then s.recvType
    else if |all| == 1 then all[0]
    else ""
  }

  /** What a site says about the struct it dispatches through: a cast to an owner of the field
      decides, else a receiver type that is an owner, else st must be the one owner. */
  ghost predicate PointsTo(owners: OwnersMap, s: Site, st: string) {
    var all := OwnersOf(owners, s.found.field);
    if s.found.cast != "" && s.found.cast in all then st == s.found.cast
    else if s.recvType != "" && s.recvType in all then st == s.recvType
    else st in all && forall other :: other in all ==> other == st
  }

  /** When a field's structs are listed once each, as after a build, a site is resolved to
      what it points to, so a choice is never guessed. */
  lemma {:induction false} ResolvesConservatively(owners: OwnersMap, s: Site, st: string)
    requires NoDuplicates(OwnersOf(owners, s.found.field)) && st != ""
    ensures Resolve(owners, s) == st <==> PointsTo(owners, s, st)
  {
    var all := OwnersOf(owners, s.found.field);
    if |all| >= 2 {
      assert all[0] in all && all[1] in all;
    }
  }

  /** The key a site dispatches through. */
  function KeyAt(v: View, s: Seen): Reg {
    Reg(Resolve(v.owners, s.site), s.site.found.field)
  }

  /** The call at s may reach h: its struct is resolved, and h is registered for exactly
      that struct and field. */
  predicate Dispatches(v: View, s: Seen, h: string) {
    KeyAt(v, s).owner != "" && h in Handlers(v.regs, KeyAt(v, s))
  }

  // ---- the sites in scan order ----

  function SeenIn(f: FileSites): (r: seq<Seen>)
    ensures |r| == |f.sites|
    ensures forall k :: 0 <= k < |r| ==> r[k] == Seen(f.path, f.sites[k])
  {
    seq(|f.sites|, k requires 0 <= k < |f.sites| => Seen(f.path, f.sites[k]))
  }

  function AllSites(files: seq<FileSites>): seq<Seen> {
    if files == [] then [] else AllSites(files[..|files| - 1]) + SeenIn(files[|files| - 1])
  }

  lemma {:induction false} AllSitesGrow(files: seq<FileSites>, i: nat)
    requires i <= |files|
    ensures AllSites(files[..i]) <= AllSites(files)
    decreases |files|
  {
    var n := |files|;
    if i == n {
      assert files[..i] == files;
    } else {
      AllSitesGrow(files[..n - 1], i);
      assert files[..n - 1][..i] == files[..i];
    }
  }

  lemma {:induction false} SitesUpTo(files: seq<FileSites>, i: nat, j: nat)
    requires i < |files| && j <= |files[i].sites|
    ensures AllSites(files[..i]) + SeenIn(files[i])[..j] <= AllSites(files)
    ensures j == |files[i].sites| ==> AllSites(files[..i]) + SeenIn(files[i])[..j] == AllSites(files[..i + 1])
  {
    assert files[..i + 1][..i] == files[..i];
    AllSitesGrow(files, i + 1);
    assert SeenIn(files[i])[..|SeenIn(files[i])|] == SeenIn(files[i]);
  }

  // ---- Callers ----

  /** What Callers lists for a site. */
  function CallerAt(v: View, s: Seen): Caller {
    Caller(s.site.func, s.file, s.site.found.line + 1, KeyAt(v, s).owner + "." + KeyAt(v, s).field)
  }

  /** The string under which a caller is remembered as seen. */
  function SeenKey(c: Caller): string {
    c.func + "|" + c.field
  }

  function SeenKeys(cs: seq<Caller>): set<string> {
    if cs == [] then {} else SeenKeys(cs[..|cs| - 1]) + {SeenKey(cs[|cs| - 1])}
  }

  /** The site is in another function than h and may reach h. */
  predicate Calls(v: View, h: string, s: Seen) {
    Dispatches(v, s, h) && s.site.func != "" && s.site.func != h
  }

  /** The callers of h at the sites of `trace`, one for every key, without the cap. */
  function Kept(v: View, h: string, trace: seq<Seen>): seq<Caller> {
    if trace == [] then []
    else
      var earlier, s := Kept(v, h, trace[..|trace| - 1]), trace[|trace| - 1];
      if Calls(v, h, s) && SeenKey(CallerAt(v, s)) !in SeenKeys(earlier) then earlier + [CallerAt(v, s)] else earlier
  }

  /** All synthesized callers, and as many as Callers lists. */
  function Uncapped(v: View, h: string): seq<Caller> {
    Kept(v, h, AllSites(v.files))
  }

  function Synthesized(v: View, h: string): seq<Caller> {
    var all := Uncapped(v, h);
    if |all| <= FANOUT_CAP then all else all[..FANOUT_CAP]
  }

  /** The (struct, field) keys h is registered for. */
  ghost predicate IsKeyOf(regs: Registrations, h: string, k: Reg) {
    h in Handlers(regs, k)
  }

  lemma {:induction false} NoKeyNoCaller(v: View, h: string, trace: seq<Seen>)
    requires forall k :: !IsKeyOf(v.regs, h, k)
    ensures Kept(v, h, trace) == []
  {
    if trace != [] {
      NoKeyNoCaller(v, h, trace[..|trace| - 1]);
      assert !IsKeyOf(v.regs, h, KeyAt(v, trace[|trace| - 1]));
    }
  }

  lemma {:induction false} KeptGrows(v: View, h: string, a: seq<Seen>, b: seq<Seen>)
    requires a <= b
    ensures Kept(v, h, a) <= Kept(v, h, b)
    decreases |b|
  {
    var n := |b|;
    if |a| == n {
      assert a == b;
    } else {
      assert a <= b[..n - 1];
      KeptGrows(v, h, a, b[..n - 1]);
    }
  }

  /** Once the cap is reached the rest of the sites makes no difference. */
  lemma {:induction false} CapReached(v: View, h: string, trace: seq<Seen>)
    requires trace <= AllSites(v.files) && |Kept(v, h, trace)| == FANOUT_CAP
    ensures Synthesized(v, h) == Kept(v, h, trace)
  {
    KeptGrows(v, h, trace, AllSites(v.files));
  }

  /** One more site. */
  lemma KeptStep(v: View, h: string, trace: seq<Seen>, s: Seen)
    ensures Kept(v, h, trace + [s])
         == if Calls(v, h, s) && SeenKey(CallerAt(v, s)) !in SeenKeys(Kept(v, h, trace))
            then Kept(v, h, trace) + [CallerAt(v, s)] else Kept(v, h, trace)
    ensures SeenKeys(Kept(v, h, trace) + [CallerAt(v, s)]) == SeenKeys(Kept(v, h, trace)) + {SeenKey(CallerAt(v, s))}
  {
    hide Calls, CallerAt, SeenKey;
    assert (trace + [s])[..|trace|] == trace;
    assert (Kept(v, h, trace) + [CallerAt(v, s)])[..|Kept(v, h, trace)|] == Kept(v, h, trace);
  }

  lemma KeyOfSite(v: View, s: Seen, st: string)
    requires st == Resolve(v.owners, s.site)
    ensures SeenKey(CallerAt(v, s)) == s.site.func + "|" + (st + "." + s.site.found.field)
    ensures CallerAt(v, s) == Caller(s.site.func, s.file, s.site.found.line + 1, st + "." + s.site.found.field)
  {
  }

  /** The variables of the loop: `out`, `seen` and `added`.  `trace` is every site looked
      at so far. */
  class Gathering {
    var out: seq<Caller>
    var seen: set<string>
    var added: nat
    ghost var trace: seq<Seen>

    constructor ()
      ensures trace == [] && out == [] && seen == {} && added == 0
    {
      out, seen, added, trace := [], {}, 0, [];
    }

    ghost predicate Valid(v: View, h: string)
      reads this
    {
      out == Kept(v, h, trace) && seen == SeenKeys(out) && added == |out|
    }

    /** The body of the loop over the sites; true when the cap is reached. */
    method Look(v: View, h: string, keys: set<Reg>, s: Seen) returns (full: bool)
      requires Valid(v, h) && added < FANOUT_CAP
      requires forall k :: k in keys <==> h in Handlers(v.regs, k)
      modifies this
      ensures Valid(v, h) && trace == old(trace) + [s]
      ensures added <= FANOUT_CAP && (full <==> added == FANOUT_CAP)
    {
      hide Kept, SeenKeys, SeenKey, Resolve, CallerAt;
      KeptStep(v, h, trace, s);
      trace := trace + [s];
      var st := Resolve(v.owners, s.site);
      if st == "" || Reg(st, s.site.found.field) !in keys {
        return false;
      }
      var fn := s.site.func;
      var key := fn + "|" + (st + "." + s.site.found.field);
      KeyOfSite(v, s, st);
      if fn != "" && fn != h && key !in seen {
        seen := seen + {key};
        out := out + [Caller(fn, s.file, s.site.found.line + 1, st + "." + s.site.found.field)];
        added := added + 1;
        if added >= FANOUT_CAP {
          return true;
        }
      }
      return false;
    }

    /** The sites of file i; true when the cap is reached. */
    method LookAtFile(v: View, h: string, keys: set<Reg>, i: nat) returns (full: bool)
      requires i < |v.files| && Valid(v, h) && added < FANOUT_CAP
      requires trace == AllSites(v.files[..i])
      requires forall k :: k in keys <==> h in Handlers(v.regs, k)
      modifies this
      ensures Valid(v, h) && added <= FANOUT_CAP && (full <==> added == FANOUT_CAP)
      ensures trace <= AllSites(v.files)
      ensures !full ==> trace == AllSites(v.files[..i + 1])
    {
      hide Kept, AllSites;
      var f := v.files[i];
      var j := 0;
      SitesUpTo(v.files, i, 0);
      while j < |f.sites|
        invariant 0 <= j <= |f.sites| && Valid(v, h) && added < FANOUT_CAP
        invariant trace == AllSites(v.files[..i]) + SeenIn(f)[..j]
      {
        SitesUpTo(v.files, i, j + 1);
        full := Look(v, h, keys, Seen(f.path, f.sites[j]));
        j := j + 1;
        if full {
          return;
        }
      }
      SitesUpTo(v.files, i, j);
      return false;
    }
  }

  /** The keys the handler is registered for, in any order. */
  method KeysOf(regs: Registrations, h: string) returns (keys: set<Reg>)
    ensures forall k :: k in keys <==> h in Handlers(regs, k)
  {
    keys := {};
    var todo := regs.Keys;
    while todo != {}
      invariant todo <= regs.Keys
      invariant forall k :: k in keys <==> k !in todo && h in Handlers(regs, k)
    {
      var k :| k in todo;
      todo := todo - {k};
      if h in regs[k] {
        keys := keys + {k};
      }
    }
  }

  /** Callers: the synthesized ones, then the links of the override table. */
  method Callers(v: View, h: string) returns (out: seq<Caller>)
    ensures out == CallersOf(v, h)
  {
    var keys := KeysOf(v.regs, h);
    if keys == {} {
      NoKeyNoCaller(v, h, AllSites(v.files));
      return LinksOf(v.links, h);
    }
    var found := Gather(v, h, keys);
    return found + LinksOf(v.links, h);
  }

  function CallersOf(v: View, h: string): seq<Caller> {
    Synthesized(v, h) + LinksOf(v.links, h)
  }

  method Gather(v: View, h: string, keys: set<Reg>) returns (out: seq<Caller>)
    requires forall k :: k in keys <==> h in Handlers(v.regs, k)
    ensures out == Synthesized(v, h)
  {
    var g := new Gathering();
    var i := 0;
    assert v.files[..0] == [];
    while i < |v.files|
      invariant 0 <= i <= |v.files| && fresh(g) && g.Valid(v, h) && g.added < FANOUT_CAP
      invariant g.trace == AllSites(v.files[..i])
    {
      var full := g.LookAtFile(v, h, keys, i);
      if full {
        CapReached(v, h, g.trace);
        return g.out;
      }
      i := i + 1;
    }
    assert v.files[..i] == v.files;
    return g.out;
  }

  // ---- what Callers lists ----

  /** c is what Callers lists for a site of `trace` that calls h. */
  ghost predicate BackedIn(v: View, h: string, trace: seq<Seen>, c: Caller) {
    exists i :: 0 <= i < |trace| && Calls(v, h, trace[i]) && c == CallerAt(v, trace[i])
  }

  lemma {:induction false} KeptAreBacked(v: View, h: string, trace: seq<Seen>, c: Caller)
    requires c in Kept(v, h, trace)
    ensures BackedIn(v, h, trace, c)
  {
    var n := |trace| - 1;
    if c in Kept(v, h, trace[..n]) {
      KeptAreBacked(v, h, trace[..n], c);
      var i :| 0 <= i < n && Calls(v, h, trace[..n][i]) && c == CallerAt(v, trace[..n][i]);
      assert trace[..n][i] == trace[i];
    } else {
      assert c == CallerAt(v, trace[n]);
    }
  }

  lemma {:induction false} SeenKeysHas(cs: seq<Caller>, key: string)
    ensures key in SeenKeys(cs) <==> exists i :: 0 <= i < |cs| && SeenKey(cs[i]) == key
  {
    if cs != [] {
      var n := |cs| - 1;
      SeenKeysHas(cs[..n], key);
      assert forall i :: 0 <= i < n ==> cs[..n][i] == cs[i];
    }
  }

  /** Every site that calls h has its key listed. */
  lemma {:induction false} CallsAreKept(v: View, h: string, trace: seq<Seen>, i: nat)
    requires i < |trace| && Calls(v, h, trace[i])
    ensures SeenKey(CallerAt(v, trace[i])) in SeenKeys(Kept(v, h, trace))
  {
    hide Calls, CallerAt, SeenKey;
    var n := |trace| - 1;
    var earlier, c := Kept(v, h, trace[..n]), CallerAt(v, trace[n]);
    assert (earlier + [c])[..|earlier|] == earlier;
    if i < n {
      assert trace[..n][i] == trace[i];
      CallsAreKept(v, h, trace[..n], i);
    }
  }

  ghost predicate DistinctKeys(cs: seq<Caller>) {
    forall i, j :: 0 <= i < j < |cs| ==> SeenKey(cs[i]) != SeenKey(cs[j])
  }

  lemma {:induction false} KeptDistinct(v: View, h: string, trace: seq<Seen>)
    ensures DistinctKeys(Kept(v, h, trace))
  {
    hide Calls, CallerAt, SeenKey;
    if trace != [] {
      var n := |trace| - 1;
      var earlier, c := Kept(v, h, trace[..n]), CallerAt(v, trace[n]);
      KeptDistinct(v, h, trace[..n]);
      SeenKeysHas(earlier, SeenKey(c));
    }
  }

  /** The names of the sites are identifiers: none holds a bar or a dot. */
  predicate NamedByIdentifiers(trace: seq<Seen>) {
    forall k :: 0 <= k < |trace| ==> '|' !in trace[k].site.func && '.' !in trace[k].site.found.field
  }

  predicate Identifiers(v: View) {
    NamedByIdentifiers(AllSites(v.files))
  }

  /** On identifiers the seen-key is injective: it tells apart any two different
      (function, struct, field) triples, whatever the struct is called. */
  lemma {:induction false} SeenKeyInjective(f1: string, st1: string, field1: string, f2: string, st2: string,
                                            field2: string)
    requires '|' !in f1 && '|' !in f2 && '.' !in field1 && '.' !in field2
    requires f1 + "|" + (st1 + "." + field1) == f2 + "|" + (st2 + "." + field2)
    ensures f1 == f2 && st1 == st2 && field1 == field2
  {
    Text.FirstMarkSeparates(f1, st1 + "." + field1, f2, st2 + "." + field2, '|');
    Text.LastMarkSeparates(st1, field1, st2, field2, '.');
  }

  /** Callers synthesizes at most 300 entries, one for every
      (function, struct, field): each is backed by a dispatch site that resolves to a key
      holding the handler, and entries of two sites agree on all three only if they are
      one entry. */
  lemma {:induction false} SynthesizedAreExact(v: View, h: string)
    ensures |Synthesized(v, h)| <= 300
    ensures forall c :: c in Synthesized(v, h) ==> BackedIn(v, h, AllSites(v.files), c)
    ensures DistinctKeys(Synthesized(v, h))
  {
    KeptDistinct(v, h, AllSites(v.files));
    forall c | c in Synthesized(v, h) ensures BackedIn(v, h, AllSites(v.files), c) {
      assert c in Uncapped(v, h);
      KeptAreBacked(v, h, AllSites(v.files), c);
    }
  }

  /** No (function, struct, field) is lost to another one: every site that calls h has an
      entry, made from a site with the same function, struct and field. */
  lemma {:induction false} NoTripleLost(v: View, h: string, i: nat) returns (k: nat, j: nat)
    requires Identifiers(v) && i < |AllSites(v.files)| && Calls(v, h, AllSites(v.files)[i])
    ensures k < |Uncapped(v, h)| && j < |AllSites(v.files)|
    ensures Uncapped(v, h)[k] == CallerAt(v, AllSites(v.files)[j])
    ensures AllSites(v.files)[j].site.func == AllSites(v.files)[i].site.func
    ensures KeyAt(v, AllSites(v.files)[j]) == KeyAt(v, AllSites(v.files)[i])
  {
    hide AllSites, Kept, Calls, KeyAt;
    var all, cs := AllSites(v.files), Uncapped(v, h);
    CallsAreKept(v, h, all, i);
    SeenKeysHas(cs, SeenKey(CallerAt(v, all[i])));
    k :| 0 <= k < |cs| && SeenKey(cs[k]) == SeenKey(CallerAt(v, all[i]));
    assert cs[k] in cs;
    KeptAreBacked(v, h, all, cs[k]);
    j :| 0 <= j < |all| && Calls(v, h, all[j]) && cs[k] == CallerAt(v, all[j]);
    SameTriple(v, all[j], all[i]);
  }

  lemma {:induction false} SameTriple(v: View, s: Seen, t: Seen)
    requires '|' !in s.site.func && '|' !in t.site.func && '.' !in s.site.found.field && '.' !in t.site.found.field
    requires SeenKey(CallerAt(v, s)) == SeenKey(CallerAt(v, t))
    ensures s.site.func == t.site.func && KeyAt(v, s) == KeyAt(v, t)
  {
    SeenKeyInjective(s.site.func, KeyAt(v, s).owner, s.site.found.field, t.site.func, KeyAt(v, t).owner,
                     t.site.found.field);
  }

  /** Edge soundness, from a whole build to a query: the struct of every synthesized
      caller owns the field, and the handler is a function defined in the project or one
      the table declares for that very struct and field.  A handler registered for
      another struct's field of the same name is never listed on this site's account. */
  lemma {:induction false} CallersAreSound(facts: Facts, scanned: OwnersMap, m: Merged, v: View, h: string, c: Caller)
    requires InitRows.CapturesShrink(facts.rx) && BuiltFrom(facts, scanned, m)
    requires v.owners == m.owners && v.regs == m.regs
    requires c in Synthesized(v, h)
    ensures exists i :: 0 <= i < |AllSites(v.files)| && SoundSite(facts, v, h, AllSites(v.files)[i], c)
  {
    SynthesizedAreExact(v, h);
    var all := AllSites(v.files);
    var i :| 0 <= i < |all| && Calls(v, h, all[i]) && c == CallerAt(v, all[i]);
    var before :| ScannedFrom(facts, scanned, before) && m == MergeRegs(before, TableRegs(facts.table));
    RegistrationsAreSound(facts, scanned, before, KeyAt(v, all[i]), h);
    assert SoundSite(facts, v, h, all[i], c);
  }

  ghost predicate SoundSite(facts: Facts, v: View, h: string, s: Seen, c: Caller) {
    var k := KeyAt(v, s);
    && c == Caller(s.site.func, s.file, s.site.found.line + 1, k.owner + "." + k.field)
    && k.owner in OwnersOf(v.owners, s.site.found.field) && h in Handlers(v.regs, k)
    && (h in facts.funcDefs || Declares(TableRegs(facts.table), k, h))
  }

  // ---- where a caller stands ----

  /** What dispatchSites reads of a file: its lines, the arrows of its stripped text, and
      parseInner. */
  datatype Scan = Scan(lines: seq<string>, arrows: seq<DispatchSites.Arrow>, inner: string -> (string, string))

  function Found(f: FileSites): (r: seq<DispatchSites.Site>)
    ensures |r| == |f.sites| && forall k :: 0 <= k < |r| ==> r[k] == f.sites[k].found
  {
    seq(|f.sites|, k requires 0 <= k < |f.sites| => f.sites[k].found)
  }

  /** The sites of the file are what dispatchSites finds in it. */
  ghost predicate FoundBy(scan: Scan, f: FileSites) {
    && DispatchSites.AllArrows(Text.Join(Strip.CodeLines(scan.lines)), scan.arrows)
    && exists made :: DispatchSites.SitesOf(scan.lines, scan.inner, scan.arrows, |scan.arrows|, made, Found(f))
  }

  ghost predicate AllFoundBy(scans: seq<Scan>, files: seq<FileSites>) {
    |scans| == |files| && forall k :: 0 <= k < |files| ==> FoundBy(scans[k], files[k])
  }

  /** An arrow of the file stands on raw line `line`, counted from 1, with this field. */
  ghost predicate ArrowOn(scan: Scan, line: nat, field: string) {
    exists i :: 0 <= i < |scan.arrows| && scan.arrows[i].field == field
      && scan.arrows[i].at < |Text.Join(Strip.CodeLines(scan.lines))|
      && line >= 1 && DispatchSites.OnRawLine(scan.lines, scan.arrows[i].at, line - 1)
  }

  lemma {:induction false} SeenFrom(files: seq<FileSites>, n: nat) returns (f: nat, k: nat)
    requires n < |AllSites(files)|
    ensures f < |files| && k < |files[f].sites| && AllSites(files)[n] == Seen(files[f].path, files[f].sites[k])
  {
    var last := |files| - 1;
    if n < |AllSites(files[..last])| {
      f, k := SeenFrom(files[..last], n);
    } else {
      f, k := last, n - |AllSites(files[..last])|;
    }
  }

  lemma SiteOnArrow(scan: Scan, f: FileSites, k: nat)
    requires FoundBy(scan, f) && k < |f.sites|
    ensures ArrowOn(scan, f.sites[k].found.line + 1, f.sites[k].found.field)
  {
    hide DispatchSites.OnRawLine, DispatchSites.ReceiverIs;
    var made :| DispatchSites.SitesOf(scan.lines, scan.inner, scan.arrows, |scan.arrows|, made, Found(f));
    assert DispatchSites.MadeFrom(scan.lines, scan.inner, scan.arrows[made[k]], Found(f)[k]);
  }

  /** A synthesized caller stands on a raw line of its file that holds an arrow to a field
      through which the handler is reached. */
  lemma {:induction false} CallerStandsOnArrow(v: View, h: string, scans: seq<Scan>, c: Caller)
    requires AllFoundBy(scans, v.files) && c in Synthesized(v, h)
    ensures exists f, k: Reg :: 0 <= f < |v.files| && c.file == v.files[f].path
              && ArrowOn(scans[f], c.line, k.field) && h in Handlers(v.regs, k) && c.field == k.owner + "." + k.field
  {
    hide FoundBy, ArrowOn, Synthesized, Resolve;
    SynthesizedAreExact(v, h);
    var all := AllSites(v.files);
    var i :| 0 <= i < |all| && Calls(v, h, all[i]) && c == CallerAt(v, all[i]);
    var f, n := SeenFrom(v.files, i);
    SiteOnArrow(scans[f], v.files[f], n);
    var k := KeyAt(v, all[i]);
    assert ArrowOn(scans[f], c.line, k.field);
  }

  // ---- Callees ----

  /** A link of the table from fn to h. */
  ghost predicate Linked(links: Links, fn: string, h: string) {
    exists c :: c in LinksOf(links, h) && c.func == fn
  }

  /** A site of `trace` in fn that may reach h. */
  ghost predicate ReachedIn(v: View, fn: string, trace: seq<Seen>, h: string) {
    exists i :: 0 <= i < |trace| && trace[i].site.func == fn && Dispatches(v, trace[i], h)
  }

  /** What Callees lists for fn. */
  ghost predicate IsCallee(v: View, fn: string, h: string) {
    h != "" && h != fn && (Linked(v.links, fn, h) || ReachedIn(v, fn, AllSites(v.files), h))
  }

  /** The closure `add` and the variables it shares with the loops. */
  class Collector {
    var fn: string
    var seen: set<string>
    var out: seq<string>

    constructor (fn: string)
      ensures Valid() && this.fn == fn && out == []
    {
      this.fn, seen, out := fn, {}, [];
    }

    ghost predicate Valid()
      reads this
    {
      NoDuplicates(out) && forall h :: h in seen <==> h in out
    }

    method Add(h: string)
      requires Valid()
      modifies `seen, `out
      ensures Valid()
      ensures forall x :: x in out <==> x in old(out) || (x == h && h != "" && h != fn)
    {
      if h != "" && h != fn && h !in seen {
        seen := seen + {h};
        out := out + [h];
      }
    }

    method AddAll(hs: seq<string>)
      requires Valid()
      modifies `seen, `out
      ensures Valid()
      ensures forall x :: x in out <==> x in old(out) || (x in hs && x != "" && x != fn)
    {
      var i := 0;
      while i < |hs|
        invariant 0 <= i <= |hs| && Valid()
        invariant forall x :: x in out <==> x in old(out) || (x in hs[..i] && x != "" && x != fn)
      {
        assert hs[..i + 1] == hs[..i] + [hs[i]];
        Add(hs[i]);
        i := i + 1;
      }
      assert hs[..i] == hs;
    }

    /** The manual links from fn, in any order. */
    method AddLinks(links: Links)
      requires Valid() && out == []
      modifies `seen, `out
      ensures Valid()
      ensures forall x :: x in out <==> x != "" && x != fn && Linked(links, fn, x)
    {
      var todo := links.Keys;
      while todo != {}
        invariant todo <= links.Keys && Valid()
        invariant forall x :: x in out <==> x !in todo && x != "" && x != fn && Linked(links, fn, x)
      {
        var h :| h in todo;
        todo := todo - {h};
        ghost var before := out;
        var linked := FindLink(links[h], fn);
        assert linked <==> Linked(links, fn, h);
        if linked {
          Add(h);
        }
      }
    }

    /** The dispatch sites in fn of file i. */
    method AddFile(v: View, i: nat)
      requires i < |v.files| && Valid()
      requires forall x ::
                 x in out
                 <==> x != "" && x != fn && (Linked(v.links, fn, x) || ReachedIn(v, fn, AllSites(v.files[..i]), x))
      modifies `seen, `out
      ensures Valid()
      ensures forall x ::
                x in out
                <==> x != "" && x != fn && (Linked(v.links, fn, x) || ReachedIn(v, fn, AllSites(v.files[..i + 1]), x))
    {
      hide AllSites, Linked, ReachedIn;
      ghost var start := AllSites(v.files[..i]);
      var f := v.files[i];
      var j := 0;
      assert start + SeenIn(f)[..0] == start;
      while j < |f.sites|
        invariant 0 <= j <= |f.sites| && Valid()
        invariant forall x ::
                    x in out
                    <==> x != "" && x != fn && (Linked(v.links, fn, x) || ReachedIn(v, fn, start + SeenIn(f)[..j], x))
      {
        ghost var sofar, s := start + SeenIn(f)[..j], Seen(f.path, f.sites[j]);
        assert start + SeenIn(f)[..j + 1] == sofar + [s];
        ReachedOneMore(v, fn, sofar, s);
        AddSite(v, f.path, f.sites[j]);
        j := j + 1;
      }
      SitesUpTo(v.files, i, j);
    }

    method AddSite(v: View, path: string, site: Site)
      requires Valid()
      modifies `seen, `out
      ensures Valid()
      ensures forall x :: x in out
                     <==> x in old(out)
                          || (x != "" && x != fn && site.func == fn && Dispatches(v, Seen(path, site), x))
    {
      if site.func != fn {
        return;
      }
      var st := Resolve(v.owners, site);
      if st == "" {
        return;
      }
      AddAll(Handlers(v.regs, Reg(st, site.found.field)));
    }
  }

  /** Whether a link of the list comes from fn. */
  method FindLink(callers: seq<Caller>, fn: string) returns (linked: bool)
    ensures linked <==> exists c :: c in callers && c.func == fn
  {
    linked := false;
    for i := 0 to |callers|
      invariant linked <==> exists c :: c in callers[..i] && c.func == fn
    {
      assert callers[..i + 1] == callers[..i] + [callers[i]];
      if callers[i].func == fn {
        linked := true;
      }
    }
    assert callers[..|callers|] == callers;
  }

  lemma {:induction false} ReachedOneMore(v: View, fn: string, trace: seq<Seen>, s: Seen)
    ensures forall h :: ReachedIn(v, fn, trace + [s], h)
                   <==> ReachedIn(v, fn, trace, h) || (s.site.func == fn && Dispatches(v, s, h))
  {
    forall h
      ensures ReachedIn(v, fn, trace + [s], h)
              <==> ReachedIn(v, fn, trace, h) || (s.site.func == fn && Dispatches(v, s, h))
    {
      var all := trace + [s];
      assert forall i :: 0 <= i < |trace| ==> all[i] == trace[i];
      assert all[|trace|] == s;
    }
  }

  /** Callees: without repeats, exactly the callees. */
  method Callees(v: View, fn: string) returns (out: seq<string>)
    ensures NoDuplicates(out)
    ensures forall h :: h in out <==> IsCallee(v, fn, h)
  {
    var c := new Collector(fn);
    c.AddLinks(v.links);
    assert v.files[..0] == [];
    assert forall x :: !ReachedIn(v, fn, AllSites(v.files[..0]), x);
    var i := 0;
    while i < |v.files|
      invariant 0 <= i <= |v.files| && fresh(c) && c.Valid() && c.fn == fn
      invariant forall x ::
                  x in c.out
                  <==> x != "" && x != fn && (Linked(v.links, fn, x) || ReachedIn(v, fn, AllSites(v.files[..i]), x))
    {
      c.AddFile(v, i);
      i := i + 1;
    }
    assert v.files[..i] == v.files;
    out := c.out;
  }

  // ---- distinct calls ----

  /** A function that calls through a field of a struct. */
  datatype Triple = Triple(func: string, key: Reg)

  function TripleAt(v: View, s: Seen): Triple {
    Triple(s.site.func, KeyAt(v, s))
  }

  /** The different (function, struct, field) of the sites of `trace` that call h, in scan
      order. */
  function TriplesIn(v: View, h: string, trace: seq<Seen>): seq<Triple> {
    if trace == [] then []
    else
      var earlier, s := TriplesIn(v, h, trace[..|trace| - 1]), trace[|trace| - 1];
      if Calls(v, h, s) && TripleAt(v, s) !in earlier then earlier + [TripleAt(v, s)] else earlier
  }

  function Triples(v: View, h: string): seq<Triple> {
    TriplesIn(v, h, AllSites(v.files))
  }

  lemma {:induction false} TriplesHas(v: View, h: string, trace: seq<Seen>)
    ensures NoDuplicates(TriplesIn(v, h, trace))
    ensures forall t :: t in TriplesIn(v, h, trace)
                   <==> exists i :: 0 <= i < |trace| && Calls(v, h, trace[i]) && TripleAt(v, trace[i]) == t
  {
    hide Calls, TripleAt;
    if trace != [] {
      var n := |trace| - 1;
      TriplesHas(v, h, trace[..n]);
      forall t
        ensures t in TriplesIn(v, h, trace)
           <==> exists i :: 0 <= i < |trace| && Calls(v, h, trace[i]) && TripleAt(v, trace[i]) == t
      {
        if i :| 0 <= i < |trace| && Calls(v, h, trace[i]) && TripleAt(v, trace[i]) == t {
          if i < n { assert trace[..n][i] == trace[i]; }
        }
        if t in TriplesIn(v, h, trace[..n]) {
          var i :| 0 <= i < n && Calls(v, h, trace[..n][i]) && TripleAt(v, trace[..n][i]) == t;
          assert trace[..n][i] == trace[i];
        }
      }
    }
  }

  /** The k-th entry is that of the k-th triple. */
  predicate Matches(c: Caller, t: Triple) {
    c.func == t.func && c.field == t.key.owner + "." + t.key.field && '|' !in t.func && '.' !in t.key.field
  }

  predicate AllMatch(cs: seq<Caller>, ts: seq<Triple>) {
    |cs| == |ts| && forall k :: 0 <= k < |cs| ==> Matches(cs[k], ts[k])
  }

  lemma {:induction false} SeenIffTriple(cs: seq<Caller>, ts: seq<Triple>, c: Caller, t: Triple)
    requires AllMatch(cs, ts) && Matches(c, t)
    ensures SeenKey(c) in SeenKeys(cs) <==> t in ts
  {
    SeenKeysHas(cs, SeenKey(c));
    if i :| 0 <= i < |cs| && SeenKey(cs[i]) == SeenKey(c) {
      SeenKeyInjective(cs[i].func, ts[i].key.owner, ts[i].key.field, t.func, t.key.owner, t.key.field);
      assert ts[i] == t;
    }
    if t in ts {
      var i :| 0 <= i < |ts| && ts[i] == t;
      assert SeenKey(cs[i]) == SeenKey(c);
    }
  }

  /** One entry for every triple, in the order of the triples. */
  lemma {:induction false} OneEntryPerTriple(v: View, h: string, trace: seq<Seen>)
    requires NamedByIdentifiers(trace)
    ensures AllMatch(Kept(v, h, trace), TriplesIn(v, h, trace))
  {
    if trace != [] {
      var (n, s) := (|trace| - 1, trace[|trace| - 1]);
      OneEntryPerTriple(v, h, trace[..n]);
      assert Matches(CallerAt(v, s), TripleAt(v, s));
      hide Calls, CallerAt, TripleAt, Matches;
      SeenIffTriple(Kept(v, h, trace[..n]), TriplesIn(v, h, trace[..n]), CallerAt(v, s), TripleAt(v, s));
    }
  }

  lemma EntriesAreTriples(v: View, h: string)
    requires Identifiers(v)
    ensures |Uncapped(v, h)| == |Triples(v, h)|
    ensures forall k :: 0 <= k < |Triples(v, h)| ==> Uncapped(v, h)[k].func == Triples(v, h)[k].func
  {
    hide AllSites;
    OneEntryPerTriple(v, h, AllSites(v.files));
  }

  // ---- the two queries are inverse ----

  /** fn is the function of a caller of h. */
  ghost predicate IsCaller(v: View, h: string, fn: string) {
    exists c :: c in CallersOf(v, h) && c.func == fn
  }

  /** Every caller of h has h among its callees, unless h is empty or the caller itself. */
  lemma {:induction false} CallerHasCallee(v: View, h: string, fn: string)
    requires IsCaller(v, h, fn)
    ensures IsCallee(v, fn, h) <==> h != "" && h != fn
  {
    var c :| c in CallersOf(v, h) && c.func == fn;
    if c in Synthesized(v, h) {
      SynthesizedAreExact(v, h);
      assert ReachedIn(v, fn, AllSites(v.files), h);
    } else {
      assert c in LinksOf(v.links, h);
    }
  }

  /** A callee's caller, before the cap: linked, or among the synthesized entries. */
  lemma {:induction false} CalleeIsSomewhere(v: View, fn: string, h: string) returns (i: nat)
    requires Identifiers(v) && fn != "" && IsCallee(v, fn, h) && !Linked(v.links, fn, h)
    ensures i < |Uncapped(v, h)| && Uncapped(v, h)[i].func == fn
  {
    var all := AllSites(v.files);
    var k :| 0 <= k < |all| && all[k].site.func == fn && Dispatches(v, all[k], h);
    var j;
    i, j := NoTripleLost(v, h, k);
  }

  /** Every function whose call is beyond the cap has another call below it, or a link. */
  ghost predicate CapLosesNobody(v: View, h: string) {
    forall i :: 300 <= i < |Triples(v, h)| ==>
      || Linked(v.links, Triples(v, h)[i].func, h)
      || exists j :: 0 <= j < 300 && Triples(v, h)[j].func == Triples(v, h)[i].func
  }

  ghost predicate CalleesHaveCallers(v: View, h: string) {
    forall fn :: fn != "" && IsCallee(v, fn, h) ==> IsCaller(v, h, fn)
  }

  /** The converse holds exactly when the cap cuts off no function altogether. */
  lemma {:induction false} InverseExactlyWhen(v: View, h: string)
    requires Identifiers(v) && h != ""
    ensures CalleesHaveCallers(v, h) <==> CapLosesNobody(v, h)
  {
    if CapLosesNobody(v, h) {
      forall fn | fn != "" && IsCallee(v, fn, h) ensures IsCaller(v, h, fn) {
        LosesNobody(v, h, fn);
      }
    }
    if CalleesHaveCallers(v, h) {
      forall i | 300 <= i < |Triples(v, h)|
        ensures || Linked(v.links, Triples(v, h)[i].func, h)
                || exists j :: 0 <= j < 300 && Triples(v, h)[j].func == Triples(v, h)[i].func
      {
        NotLost(v, h, i);
      }
    }
  }

  lemma {:induction false} NotLost(v: View, h: string, i: nat)
    requires Identifiers(v) && h != "" && CalleesHaveCallers(v, h) && 300 <= i < |Triples(v, h)|
    ensures || Linked(v.links, Triples(v, h)[i].func, h)
            || exists j :: 0 <= j < 300 && Triples(v, h)[j].func == Triples(v, h)[i].func
  {
    hide Identifiers, Uncapped, Triples, IsCallee;
    EntriesAreTriples(v, h);
    KeptIsCallee(v, h, i);
    var fn := Uncapped(v, h)[i].func;
    var c :| c in CallersOf(v, h) && c.func == fn;
    if c in Synthesized(v, h) {
      var j :| 0 <= j < |Synthesized(v, h)| && Synthesized(v, h)[j] == c;
      assert Uncapped(v, h)[j] == c;
      assert Triples(v, h)[j].func == fn;
    }
  }

  lemma {:induction false} KeptIsCallee(v: View, h: string, i: nat)
    requires h != "" && i < |Uncapped(v, h)|
    ensures Uncapped(v, h)[i].func != "" && IsCallee(v, Uncapped(v, h)[i].func, h)
  {
    var all, c := AllSites(v.files), Uncapped(v, h)[i];
    KeptAreBacked(v, h, all, c);
    var k :| 0 <= k < |all| && Calls(v, h, all[k]) && c == CallerAt(v, all[k]);
    assert ReachedIn(v, c.func, all, h);
  }

  lemma {:induction false} LosesNobody(v: View, h: string, fn: string)
    requires Identifiers(v) && CapLosesNobody(v, h) && fn != "" && IsCallee(v, fn, h)
    ensures IsCaller(v, h, fn)
  {
    hide Identifiers, Uncapped, Triples, IsCallee;
    if Linked(v.links, fn, h) {
      var c :| c in LinksOf(v.links, h) && c.func == fn;
      assert c in CallersOf(v, h);
    } else {
      var i := CalleeIsSomewhere(v, fn, h);
      EntriesAreTriples(v, h);
      var j := if i < 300 then i
               else var j :| 0 <= j < 300 && Triples(v, h)[j].func == Triples(v, h)[i].func; j;
      assert Synthesized(v, h)[j] == Uncapped(v, h)[j];
      assert Uncapped(v, h)[j] in CallersOf(v, h);
    }
  }

  /** In particular it holds whenever at most 300 different calls may reach h, so for
      fewer, Callees is the inverse of Callers on all pairs of different, non-empty names. */
  lemma {:induction false} InverseBelowCap(v: View, h: string, fn: string)
    requires Identifiers(v) && |Triples(v, h)| <= 300
    requires fn != "" && h != "" && fn != h
    ensures IsCaller(v, h, fn) <==> IsCallee(v, fn, h)
  {
    if IsCaller(v, h, fn) {
      CallerHasCallee(v, h, fn);
    }
    if IsCallee(v, fn, h) {
      LosesNobody(v, h, fn);
    }
  }

  // ---- from the index to the queries ----

  /** A site lists what it dispatches to: wherever h is registered for the field and the
      struct the site points to, h is a callee of the site's function, and unless more than
      300 calls may reach h that function is listed for h with that struct and field. */
  lemma {:induction false} SiteIsListed(v: View, f: nat, n: nat, st: string, h: string)
    requires f < |v.files| && n < |v.files[f].sites|
    requires var s := v.files[f].sites[n];
             && NoDuplicates(OwnersOf(v.owners, s.found.field)) && PointsTo(v.owners, s, st) && st != ""
             && h in Handlers(v.regs, Reg(st, s.found.field)) && h != "" && h != s.func
    ensures IsCallee(v, v.files[f].sites[n].func, h)
    ensures Identifiers(v) && |Triples(v, h)| <= 300 && v.files[f].sites[n].func != ""
            ==> ListedAs(v, h, v.files[f].sites[n].func, st, v.files[f].sites[n].found.field)
  {
    var s := v.files[f].sites[n];
    var all := AllSites(v.files);
    var i := SeenAt(v.files, f, n);
    ResolvesConservatively(v.owners, s, st);
    assert KeyAt(v, all[i]) == Reg(st, s.found.field) && Dispatches(v, all[i], h);
    assert ReachedIn(v, s.func, all, h);
    if Identifiers(v) && |Triples(v, h)| <= 300 && s.func != "" {
      var k, j := NoTripleLost(v, h, i);
      EntriesAreTriples(v, h);
      assert Uncapped(v, h)[k] in CallersOf(v, h);
    }
  }

  /** Callers lists fn for h, through the field of the struct st. */
  ghost predicate ListedAs(v: View, h: string, fn: string, st: string, field: string) {
    exists c :: c in CallersOf(v, h) && c.func == fn && c.field == st + "." + field
  }

  /** The place of a file's site among all sites. */
  lemma {:induction false} SeenAt(files: seq<FileSites>, f: nat, n: nat) returns (i: nat)
    requires f < |files| && n < |files[f].sites|
    ensures i < |AllSites(files)| && AllSites(files)[i] == Seen(files[f].path, files[f].sites[n])
  {
    i := |AllSites(files[..f])| + n;
    SitesUpTo(files, f, n + 1);
    assert (AllSites(files[..f]) + SeenIn(files[f])[..n + 1])[i] == SeenIn(files[f])[n];
  }

  /** From a whole build to both queries: a function that C has an item of a flat initializer
      initialize for a fn-pointer field is listed at every site that points to that field. */
  lemma {:induction false} InitializedIsCalled(facts: Facts, scanned: OwnersMap, m: Merged, file: FileFacts,
                                               init: (string, string), members: seq<InitRows.Member>, i: nat, k: Reg,
                                               v: View, f: nat, n: nat)
    requires InitRows.CapturesShrink(facts.rx) && BuiltFrom(facts, scanned, m)
    requires v.owners == m.owners && v.regs == m.regs
    requires InitializesInPlace(facts, file, init, members, i, k)
    requires f < |v.files| && n < |v.files[f].sites|
    requires var s, h := v.files[f].sites[n], HandlerOfItem(facts.rx, init.1, i);
             && s.found.field == k.field && PointsTo(v.owners, s, k.owner) && k.owner != "" && h != s.func
    ensures IsCallee(v, v.files[f].sites[n].func, HandlerOfItem(facts.rx, init.1, i))
    ensures var h := HandlerOfItem(facts.rx, init.1, i);
            Identifiers(v) && |Triples(v, h)| <= 300 && v.files[f].sites[n].func != ""
            ==> ListedAs(v, h, v.files[f].sites[n].func, k.owner, k.field)
  {
    InitializerRegisters(facts, scanned, m, file, init, members, i, k);
    BuiltOwnersDistinct(facts, scanned, m, k.field);
    hide *;
    SiteIsListed(v, f, n, k.owner, HandlerOfItem(facts.rx, init.1, i));
  }

  /** A link of the override table makes its source a caller of each of its targets, and each
      target but itself and the empty name a callee of its source. */
  lemma {:induction false} LinkIsListed(facts: Facts, v: View, t: Table, l: TableLink, h: string)
    requires v.links == MergeLinks(map[], TableLinks(facts.table))
    requires facts.table == Text.Some(t) && l in t.links && h in l.to
    ensures exists c :: c in CallersOf(v, h) && IsLink(c, l)
    ensures IsCaller(v, h, l.from)
    ensures h != "" && h != l.from ==> IsCallee(v, l.from, h)
  {
    hide MergeLinks, AllSites, Synthesized;
    var c := Caller(l.from, "ccq.fnptr.json", 0, if l.note == "" then "manual" else "manual:" + l.note);
    assert IsLink(c, l);
    LinksMean(t.links, h, c);
    assert c in CallersOf(v, h);
  }

  // ---- the cap does lose callers ----

  /** The name of a function: f0, f1, f2, ... */
  function Numbered(i: nat): string {
    "f" + Decimal(i)
  }

  lemma NumberedDiffer(i: nat, j: nat)
    ensures '|' !in Numbered(i) && Numbered(i) != "h" && Numbered(i) != ""
    ensures Numbered(i) == Numbered(j) ==> i == j
  {
    DecimalIsDigits(i);
    DecimalIsDigits(j);
    assert Numbered(i)[1..] == Decimal(i) && Numbered(j)[1..] == Decimal(j);
    assert Numbered(i)[0] == 'f';
    if Numbered(i) == Numbered(j) {
      DecimalInjective(i, j);
    }
  }

  /** n functions, each with one dispatch through ops.op. */
  function Crowd(n: nat): View {
    View([FileSites("a.c",
                    seq(n, i requires 0 <= i < n => Site(DispatchSites.Site(i, "p", "", "op"), "", Numbered(i))))],
         map["op" := ["ops"]], map[Reg("ops", "op") := ["h"]], map[])
  }

  /** The entries of the first m functions. */
  ghost predicate FirstOfCrowd(cs: seq<Caller>, m: nat) {
    |cs| == m && forall i :: 0 <= i < m ==> cs[i].func == Numbered(i) && cs[i].field == "ops.op"
  }

  lemma CrowdSite(n: nat, m: nat)
    requires m < n
    ensures |SeenIn(Crowd(n).files[0])| == n
    ensures SeenIn(Crowd(n).files[0])[..m + 1]
         == SeenIn(Crowd(n).files[0])[..m] + [Seen("a.c", Site(DispatchSites.Site(m, "p", "", "op"), "", Numbered(m)))]
  {
  }

  lemma NoCrowd(n: nat)
    ensures |SeenIn(Crowd(n).files[0])| == n && |Crowd(n).files| == 1
    ensures FirstOfCrowd(Kept(Crowd(n), "h", SeenIn(Crowd(n).files[0])[..0]), 0)
  {
    hide Calls, CallerAt, SeenKey, SeenKeys;
  }

  lemma OneMoreOfCrowd(cs: seq<Caller>, m: nat, c: Caller)
    requires FirstOfCrowd(cs, m) && c.func == Numbered(m) && c.field == "ops.op"
    ensures FirstOfCrowd(cs + [c], m + 1)
  {
    hide Numbered;
  }

  lemma {:induction false} CrowdKept(n: nat, m: nat)
    requires m <= n
    ensures |Crowd(n).files| == 1 && |SeenIn(Crowd(n).files[0])| == n
    ensures FirstOfCrowd(Kept(Crowd(n), "h", SeenIn(Crowd(n).files[0])[..m]), m)
  {
    hide *;
    NoCrowd(n);
    if m > 0 {
      CrowdKept(n, m - 1);
      var v, trace := Crowd(n), SeenIn(Crowd(n).files[0])[..m - 1];
      var s := Seen("a.c", Site(DispatchSites.Site(m - 1, "p", "", "op"), "", Numbered(m - 1)));
      CrowdSite(n, m - 1);
      CrowdCalls(n, s, m - 1);
      NextOfCrowd(Kept(v, "h", trace), m - 1, CallerAt(v, s));
      KeptStep(v, "h", trace, s);
      OneMoreOfCrowd(Kept(v, "h", trace), m - 1, CallerAt(v, s));
    }
  }

  lemma {:induction false} CrowdCalls(n: nat, s: Seen, i: nat)
    requires s == Seen("a.c", Site(DispatchSites.Site(i, "p", "", "op"), "", Numbered(i)))
    ensures Calls(Crowd(n), "h", s) && CallerAt(Crowd(n), s).func == Numbered(i)
            && CallerAt(Crowd(n), s).field == "ops.op"
  {
    NumberedDiffer(i, i);
    assert KeyAt(Crowd(n), s) == Reg("ops", "op");
  }

  lemma {:induction false} NextOfCrowd(cs: seq<Caller>, m: nat, c: Caller)
    requires FirstOfCrowd(cs, m) && c.func == Numbered(m) && c.field == "ops.op"
    ensures SeenKey(c) !in SeenKeys(cs)
  {
    SeenKeysHas(cs, SeenKey(c));
    forall i | 0 <= i < m ensures SeenKey(cs[i]) != SeenKey(c) {
      if SeenKey(cs[i]) == SeenKey(c) {
        NumberedDiffer(i, m);
        NumberedDiffer(m, i);
        Text.FirstMarkSeparates(Numbered(i), "ops.op", Numbered(m), "ops.op", '|');
      }
    }
  }

  lemma {:induction false} CrowdUncapped(n: nat)
    ensures FirstOfCrowd(Uncapped(Crowd(n), "h"), n)
  {
    var v := Crowd(n);
    assert v.files[..0] == [] && AllSites(v.files) == SeenIn(v.files[0]);
    assert SeenIn(v.files[0])[..n] == SeenIn(v.files[0]);
    CrowdKept(n, n);
  }

  lemma BeyondCap(cs: seq<Caller>, i: nat)
    requires FirstOfCrowd(cs, 301) && i < 300
    ensures cs[i].func != Numbered(300)
  {
    if cs[i].func == Numbered(300) {
      NumberedDiffer(i, 300);
    }
  }

  /** With 301 functions, one more than the cap, the last one has h among its callees and is
      not among the callers of h. */
  lemma {:induction false} CapLosesCaller()
    ensures IsCallee(Crowd(301), Numbered(300), "h")
    ensures !IsCaller(Crowd(301), "h", Numbered(300))
  {
    hide Crowd, Uncapped, IsCallee, Numbered;
    var v := Crowd(301);
    CrowdUncapped(301);
    KeptIsCallee(v, "h", 300);
    forall c | c in Synthesized(v, "h") ensures c.func != Numbered(300) {
      var i :| 0 <= i < |Synthesized(v, "h")| && Synthesized(v, "h")[i] == c;
      assert c == Uncapped(v, "h")[i];
      BeyondCap(Uncapped(v, "h"), i);
    }
    NoLinks(301);
  }

  lemma NoLinks(n: nat)
    ensures LinksOf(Crowd(n).links, "h") == []
  {
  }
}
