/** Pass D of internal/fnptr/fnptr.go: handlers flow along assignments. */
module Propagation {
  // The at most three passes over the field<-field assignments are characterised exactly
  // by paths in the assignment graph.  Writing a path as the list of the assignments'
  // positions in scan order, n passes carry a handler along precisely the paths made of
  // at most n ascending runs.

  import opened Rearrangement

  /** A (struct type, field) key. */
  datatype Reg = Reg(owner: string, field: string)

  /** An assignment `to = from` between two fn-pointer fields. */
  datatype Prop = Prop(to: Reg, from: Reg)

  type Registrations = map<Reg, seq<string>>

  /** A Go map read: a missing key reads as the empty list. */
  function Handlers(regs: Registrations, k: Reg): seq<string> {
    if k in regs then regs[k] else []
  }

  /** The elements of `more` appended in order, each unless already there. */
  function AppendNew(s: seq<string>, more: seq<string>): seq<string> {
    if more == [] then s
    else
      var r, h := AppendNew(s, more[..|more| - 1]), more[|more| - 1];
      if h in r then r else r + [h]
  }

  lemma {:induction false} AppendNewKeeps(s: seq<string>, more: seq<string>)
    ensures s <= AppendNew(s, more)
    ensures NoDuplicates(s) ==> NoDuplicates(AppendNew(s, more))
  {
    if more != [] {
      AppendNewKeeps(s, more[..|more| - 1]);
    }
  }

  lemma {:induction false} AppendNewHolds(s: seq<string>, more: seq<string>, h: string)
    ensures h in AppendNew(s, more) <==> h in s || h in more
  {
    if more != [] {
      var n := |more| - 1;
      AppendNewHolds(s, more[..n], h);
      assert more == more[..n] + [more[n]];
    }
  }

  /** One assignment carried out. */
  function Flow(regs: Registrations, p: Prop): Registrations {
    var out := AppendNew(Handlers(regs, p.to), Handlers(regs, p.from));
    if out == Handlers(regs, p.to) then regs else regs[p.to := out]
  }

  /** n whole passes and then the first i assignments of one more. */
  function After(regs: Registrations, props: seq<Prop>, n: nat, i: nat): Registrations
    requires i <= |props|
    decreases n, i
  {
    if i > 0 then Flow(After(regs, props, n, i - 1), props[i - 1])
    else if n > 0 then After(regs, props, n - 1, |props|)
    else regs
  }

  function Passes(regs: Registrations, props: seq<Prop>, n: nat): Registrations {
    After(regs, props, n, 0)
  }

  // ---- lists only grow ----

  lemma FlowMoves(regs: Registrations, p: Prop, k: Reg, h: string)
    ensures Handlers(regs, k) <= Handlers(Flow(regs, p), k)
    ensures h in Handlers(Flow(regs, p), k)
       <==> h in Handlers(regs, k) || (k == p.to && h in Handlers(regs, p.from))
  {
    AppendNewKeeps(Handlers(regs, p.to), Handlers(regs, p.from));
    AppendNewHolds(Handlers(regs, p.to), Handlers(regs, p.from), h);
  }

  lemma PrefixTransitive(a: seq<string>, b: seq<string>, c: seq<string>)
    requires a <= b <= c
    ensures a <= c
  {
  }

  /** No list ever shrinks or is reordered. */
  lemma {:induction false} ListsGrow(regs: Registrations, props: seq<Prop>, n: nat, i: nat, m: nat, j: nat, k: Reg)
    requires i <= |props| && j <= |props|
    requires n < m || (n == m && i <= j)
    ensures Handlers(After(regs, props, n, i), k) <= Handlers(After(regs, props, m, j), k)
    decreases m, j
  {
    if n == m && i == j {
    } else if j == 0 {
      ListsGrow(regs, props, n, i, m - 1, |props|, k);
    } else {
      ListsGrow(regs, props, n, i, m, j - 1, k);
      FlowMoves(After(regs, props, m, j - 1), props[j - 1], k, "");
      PrefixTransitive(Handlers(After(regs, props, n, i), k), Handlers(After(regs, props, m, j - 1), k),
                       Handlers(After(regs, props, m, j), k));
    }
  }

  /** No pass repeats a handler in a list. */
  lemma {:induction false} StaysDistinct(regs: Registrations, props: seq<Prop>, n: nat, i: nat, k: Reg)
    requires (forall k :: NoDuplicates(Handlers(regs, k))) && i <= |props|
    ensures NoDuplicates(Handlers(After(regs, props, n, i), k))
    decreases n, i
  {
    if i > 0 {
      var before, p := After(regs, props, n, i - 1), props[i - 1];
      StaysDistinct(regs, props, n, i - 1, k);
      AppendNewKeeps(Handlers(before, p.to), Handlers(before, p.from));
    } else if n > 0 {
      StaysDistinct(regs, props, n - 1, |props|, k);
    }
  }

  // ---- paths ----

  /** A path: the assignments passed through, by their positions in scan order. */
  datatype Path = Start | Then(before: Path, last: nat)

  function Length(path: Path): nat {
    if path.Start? then 0 else Length(path.before) + 1
  }

  /** `path` leads from a key that holds h in `regs` to key k. */
  predicate Carries(regs: Registrations, props: seq<Prop>, path: Path, k: Reg, h: string) {
    match path
    case Start => h in Handlers(regs, k)
    case Then(before, j) => j < |props| && props[j].to == k && Carries(regs, props, before, props[j].from, h)
  }

  /** The number of maximal ascending runs. */
  function Runs(path: Path): (r: nat)
    ensures r <= Length(path)
    ensures path.Then? ==> r > 0
  {
    match path
    case Start => 0
    case Then(before, j) => Runs(before) + if before.Then? && before.last < j then 0 else 1
  }

  /** The path is used up after n passes and i more assignments. */
  predicate Fits(path: Path, n: nat, i: nat) {
    Runs(path) <= n || (Runs(path) == n + 1 && path.Then? && path.last < i)
  }

  /** What has arrived came along a path that fits. */
  lemma {:induction false} ArrivedAlong(regs: Registrations, props: seq<Prop>, n: nat, i: nat, k: Reg, h: string)
    returns (path: Path)
    requires i <= |props| && h in Handlers(After(regs, props, n, i), k)
    ensures Carries(regs, props, path, k, h) && Fits(path, n, i)
    decreases n, i
  {
    hide Flow;
    if i > 0 {
      FlowMoves(After(regs, props, n, i - 1), props[i - 1], k, h);
      if h in Handlers(After(regs, props, n, i - 1), k) {
        path := ArrivedAlong(regs, props, n, i - 1, k, h);
      } else {
        path := ArrivedAlong(regs, props, n, i - 1, props[i - 1].from, h);
        path := Then(path, i - 1);
      }
    } else if n > 0 {
      path := ArrivedAlong(regs, props, n - 1, |props|, k, h);
    } else {
      path := Start;
    }
  }

  /** Whatever a fitting path carries has arrived. */
  lemma {:induction false} Arrives(regs: Registrations, props: seq<Prop>, path: Path, n: nat, i: nat, k: Reg, h: string)
    requires i <= |props| && Carries(regs, props, path, k, h) && Fits(path, n, i)
    ensures h in Handlers(After(regs, props, n, i), k)
    decreases path
  {
    match path
    case Start =>
      ListsGrow(regs, props, 0, 0, n, i, k);
    case Then(before, j) =>
      var m := Runs(path) - 1;
      Arrives(regs, props, before, m, j, props[j].from, h);
      FlowMoves(After(regs, props, m, j), props[j], k, h);
      ListsGrow(regs, props, m, j + 1, n, i, k);
  }

  ghost predicate CarriedWithin(regs: Registrations, props: seq<Prop>, n: nat, k: Reg, h: string) {
    exists path :: Carries(regs, props, path, k, h) && Runs(path) <= n
  }

  /** The exact content after n passes: h is registered at k if and only if a path of
      at most n ascending runs carries it there. */
  lemma {:induction false} PassesExactly(regs: Registrations, props: seq<Prop>, n: nat, k: Reg, h: string)
    ensures h in Handlers(Passes(regs, props, n), k) <==> CarriedWithin(regs, props, n, k, h)
  {
    if h in Handlers(Passes(regs, props, n), k) {
      var path := ArrivedAlong(regs, props, n, 0, k, h);
    } else if CarriedWithin(regs, props, n, k, h) {
      var path :| Carries(regs, props, path, k, h) && Runs(path) <= n;
      Arrives(regs, props, path, n, 0, k, h);
    }
  }

  /** Every handler that at most n assignments carry is there after n passes. */
  lemma ShortPathsArrive(regs: Registrations, props: seq<Prop>, path: Path, n: nat, k: Reg, h: string)
    requires Carries(regs, props, path, k, h) && Length(path) <= n
    ensures h in Handlers(Passes(regs, props, n), k)
  {
    Arrives(regs, props, path, n, 0, k, h);
  }

  // ---- the least fixpoint ----

  /** Every assignment's source list is contained in its target list. */
  ghost predicate Closed(regs: Registrations, props: seq<Prop>) {
    forall j, h :: 0 <= j < |props| && h in Handlers(regs, props[j].from) ==> h in Handlers(regs, props[j].to)
  }

  ghost predicate Included(a: Registrations, b: Registrations) {
    forall k, h :: h in Handlers(a, k) ==> h in Handlers(b, k)
  }

  lemma {:induction false} ClosedFollowsPaths(regs: Registrations, closed: Registrations, props: seq<Prop>,
                                              path: Path, k: Reg, h: string)
    requires Closed(closed, props) && Included(regs, closed) && Carries(regs, props, path, k, h)
    ensures h in Handlers(closed, k)
    decreases path
  {
    if path.Then? {
      ClosedFollowsPaths(regs, closed, props, path.before, props[path.last].from, h);
    }
  }

  /** No number of passes leaves any closed table that contains the initial one. */
  lemma {:induction false} PassesWithinClosed(regs: Registrations, closed: Registrations, props: seq<Prop>, n: nat)
    requires Closed(closed, props) && Included(regs, closed)
    ensures Included(Passes(regs, props, n), closed)
  {
    forall k, h | h in Handlers(Passes(regs, props, n), k) ensures h in Handlers(closed, k) {
      var path := ArrivedAlong(regs, props, n, 0, k, h);
      ClosedFollowsPaths(regs, closed, props, path, k, h);
    }
  }

  ghost predicate LeastFixpoint(regs: Registrations, props: seq<Prop>, out: Registrations) {
    && Closed(out, props) && Included(regs, out)
    && forall closed :: Closed(closed, props) && Included(regs, closed) ==> Included(out, closed)
  }

  /** A closed result is the least fixpoint. */
  lemma {:induction false} ClosedIsLeast(regs: Registrations, props: seq<Prop>, n: nat)
    requires Closed(Passes(regs, props, n), props)
    ensures LeastFixpoint(regs, props, Passes(regs, props, n))
  {
    var out := Passes(regs, props, n);
    forall k, h | h in Handlers(regs, k) ensures h in Handlers(out, k) {
      ListsGrow(regs, props, 0, 0, n, 0, k);
    }
    forall closed | Closed(closed, props) && Included(regs, closed) ensures Included(out, closed) {
      PassesWithinClosed(regs, closed, props, n);
    }
  }

  /** A pass that changes nothing has reached the least fixpoint, cycles or not. */
  lemma {:induction false} QuietPassIsLeastFixpoint(regs: Registrations, props: seq<Prop>, n: nat)
    requires Passes(regs, props, n + 1) == Passes(regs, props, n)
    ensures LeastFixpoint(regs, props, Passes(regs, props, n))
  {
    var out := Passes(regs, props, n);
    forall j, h | 0 <= j < |props| && h in Handlers(out, props[j].from) ensures h in Handlers(out, props[j].to) {
      QuietAssignment(regs, props, n, j, h);
    }
    ClosedIsLeast(regs, props, n);
  }

  lemma {:induction false} QuietAssignment(regs: Registrations, props: seq<Prop>, n: nat, j: nat, h: string)
    requires Passes(regs, props, n + 1) == Passes(regs, props, n)
    requires j < |props| && h in Handlers(Passes(regs, props, n), props[j].from)
    ensures h in Handlers(Passes(regs, props, n), props[j].to)
  {
    ListsGrow(regs, props, n, 0, n, j, props[j].from);
    FlowMoves(After(regs, props, n, j), props[j], props[j].to, h);
    ListsGrow(regs, props, n, j + 1, n + 1, 0, props[j].to);
  }

  /** After a pass that changes nothing the others change nothing either. */
  lemma {:induction false} QuietFromThenOn(regs: Registrations, props: seq<Prop>, n: nat, m: nat)
    requires Passes(regs, props, n + 1) == Passes(regs, props, n) && n <= m
    ensures Passes(regs, props, m) == Passes(regs, props, n)
    decreases m
  {
    if n < m {
      QuietFromThenOn(regs, props, n, m - 1);
      SameStartSamePass(regs, props, m - 1, n, |props|);
    }
  }

  lemma {:induction false} SameStartSamePass(regs: Registrations, props: seq<Prop>, m: nat, n: nat, i: nat)
    requires i <= |props| && Passes(regs, props, m) == Passes(regs, props, n)
    ensures After(regs, props, m, i) == After(regs, props, n, i)
  {
    if i > 0 { SameStartSamePass(regs, props, m, n, i - 1); }
  }

  // ---- when a number of passes suffices ----

  /** `path` leads from key `from` to key k. */
  predicate Connects(props: seq<Prop>, path: Path, from: Reg, k: Reg) {
    match path
    case Start => from == k
    case Then(before, j) => j < |props| && props[j].to == k && Connects(props, before, from, props[j].from)
  }

  ghost predicate ConnectsWithin(props: seq<Prop>, n: nat, from: Reg, k: Reg) {
    exists path :: Connects(props, path, from, k) && Runs(path) <= n
  }

  /** Every connection can be made with at most n ascending runs. */
  ghost predicate AscendsWithin(props: seq<Prop>, n: nat) {
    forall path, from, k :: Connects(props, path, from, k) ==> ConnectsWithin(props, n, from, k)
  }

  lemma {:induction false} CarriesConnects(regs: Registrations, props: seq<Prop>, path: Path, k: Reg, h: string)
    returns (from: Reg)
    requires Carries(regs, props, path, k, h)
    ensures Connects(props, path, from, k) && h in Handlers(regs, from)
    decreases path
  {
    match path
    case Start => from := k;
    case Then(before, j) => from := CarriesConnects(regs, props, before, props[j].from, h);
  }

  lemma {:induction false} ConnectsCarries(regs: Registrations, props: seq<Prop>, path: Path, from: Reg, k: Reg,
                                           h: string)
    requires Connects(props, path, from, k) && h in Handlers(regs, from)
    ensures Carries(regs, props, path, k, h)
    decreases path
  {
    if path.Then? {
      ConnectsCarries(regs, props, path.before, from, props[path.last].from, h);
    }
  }

  ghost predicate AlwaysCloses(props: seq<Prop>, n: nat) {
    forall regs :: Closed(Passes(regs, props, n), props)
  }

  /** The exact condition: n passes close every table if and only if the assignments
      connect whatever they connect within n ascending runs. */
  lemma {:induction false} PassesCloseExactlyWhen(props: seq<Prop>, n: nat)
    ensures AlwaysCloses(props, n) <==> AscendsWithin(props, n)
  {
    if AscendsWithin(props, n) {
      forall regs ensures Closed(Passes(regs, props, n), props) {
        AscendingCloses(regs, props, n);
      }
    }
    if AlwaysCloses(props, n) {
      forall path, from, k | Connects(props, path, from, k) ensures ConnectsWithin(props, n, from, k) {
        ClosingAscends(props, n, path, from, k);
      }
    }
  }

  lemma {:induction false} AscendingCloses(regs: Registrations, props: seq<Prop>, n: nat)
    requires AscendsWithin(props, n)
    ensures Closed(Passes(regs, props, n), props)
  {
    var out := Passes(regs, props, n);
    forall j, h | 0 <= j < |props| && h in Handlers(out, props[j].from) ensures h in Handlers(out, props[j].to) {
      var path := ArrivedAlong(regs, props, n, 0, props[j].from, h);
      var from := CarriesConnects(regs, props, Then(path, j), props[j].to, h);
      var better :| Connects(props, better, from, props[j].to) && Runs(better) <= n;
      ConnectsCarries(regs, props, better, from, props[j].to, h);
      Arrives(regs, props, better, n, 0, props[j].to, h);
    }
  }

  lemma {:induction false} ClosingAscends(props: seq<Prop>, n: nat, path: Path, from: Reg, k: Reg)
    requires AlwaysCloses(props, n) && Connects(props, path, from, k)
    ensures ConnectsWithin(props, n, from, k)
  {
    var regs: Registrations := map[from := ["h"]];
    ClosedIsLeast(regs, props, n);
    ConnectsCarries(regs, props, path, from, k, "h");
    ClosedFollowsPaths(regs, Passes(regs, props, n), props, path, k, "h");
    var better := ArrivedAlong(regs, props, n, 0, k, "h");
    var origin := CarriesConnects(regs, props, better, k, "h");
  }

  /** Assignments listed along their flow need one pass. */
  predicate ListedAlongFlow(props: seq<Prop>) {
    forall i, j :: 0 <= i < |props| && 0 <= j < |props| && props[i].to == props[j].from ==> i < j
  }

  lemma {:induction false} AlongFlowOnePass(props: seq<Prop>)
    requires ListedAlongFlow(props)
    ensures AscendsWithin(props, 1)
  {
    forall path, from, k | Connects(props, path, from, k) ensures ConnectsWithin(props, 1, from, k) {
      AlongFlowAscends(props, path, from, k);
    }
  }

  lemma {:induction false} AlongFlowAscends(props: seq<Prop>, path: Path, from: Reg, k: Reg)
    requires ListedAlongFlow(props) && Connects(props, path, from, k)
    ensures Runs(path) <= 1
    decreases path
  {
    if path.Then? {
      AlongFlowAscends(props, path.before, from, props[path.last].from);
    }
  }

  /** A field of one struct. */
  function Slot(field: string): Reg {
    Reg("s", field)
  }

  /** Four assignments listed against their flow, which leads from a over b, c and d to e. */
  const AGAINST_FLOW := [
    Prop(Slot("e"), Slot("d")), Prop(Slot("d"), Slot("c")), Prop(Slot("c"), Slot("b")), Prop(Slot("b"), Slot("a"))]

  /** Three passes are not enough for them. */
  lemma ThreePassesCanFallShort()
    ensures !AscendsWithin(AGAINST_FLOW, 3)
    ensures !AlwaysCloses(AGAINST_FLOW, 3)
  {
    PassesCloseExactlyWhen(AGAINST_FLOW, 3);
    var toB := Then(Start, 3);
    var toD := Then(Then(toB, 2), 1);
    assert Connects(AGAINST_FLOW, toB, Slot("a"), Slot("b"));
    assert Connects(AGAINST_FLOW, toD, Slot("a"), Slot("d"));
    assert Connects(AGAINST_FLOW, Then(toD, 0), Slot("a"), Slot("e"));
    if AscendsWithin(AGAINST_FLOW, 3) {
      var better :| Connects(AGAINST_FLOW, better, Slot("a"), Slot("e")) && Runs(better) <= 3;
      OnlyAgainstFlow(better);
    }
  }

  lemma OnlyAgainstFlow(path: Path)
    requires Connects(AGAINST_FLOW, path, Slot("a"), Slot("e"))
    ensures Runs(path) == 4
  {
    var a, b, c, d, e := Slot("a"), Slot("b"), Slot("c"), Slot("d"), Slot("e");
    var props := AGAINST_FLOW;
    assert props == [Prop(e, d), Prop(d, c), Prop(c, b), Prop(b, a)];
    assert path.Then? && path.last == 0;
    var toD := path.before;
    assert Connects(props, toD, a, d) && toD.Then? && toD.last == 1;
    var toC := toD.before;
    assert Connects(props, toC, a, c) && toC.Then? && toC.last == 2;
    var toB := toC.before;
    assert Connects(props, toB, a, b) && toB.Then? && toB.last == 3;
    assert Connects(props, toB.before, a, a) && toB.before.Start?;
  }
}
