/** buildNeighborhood of internal/cmd/export.go: the part of the call graph around a
    focus symbol. */
module Neighborhood {
  import opened Reach
  import Text

  datatype Kind = Calls | FnPtr

  datatype Edge = Edge(src: string, dst: string, kind: Kind)

  /** What is known about a symbol: its callers, its fn-pointer callers, its callees
      (none if it does not resolve). */
  datatype Relations = Relations(callers: Relation, heuristic: Relation, callees: Relation)

  /** Everything adjacent to a symbol. */
  function Adjacent(r: Relations): Relation {
    fn => r.callers(fn) + r.heuristic(fn) + r.callees(fn)
  }

  function EdgesInto(names: seq<string>, fn: string, k: Kind): seq<Edge> {
    seq(|names|, i requires 0 <= i < |names| => Edge(names[i], fn, k))
  }

  function EdgesFrom(fn: string, names: seq<string>): seq<Edge> {
    seq(|names|, i requires 0 <= i < |names| => Edge(fn, names[i], Calls))
  }

  /** The edges found while looking at a symbol, in the order of discovery. */
  function EdgesAt(r: Relations, fn: string): seq<Edge> {
    EdgesInto(r.callers(fn), fn, Calls) + EdgesInto(r.heuristic(fn), fn, FnPtr) + EdgesFrom(fn, r.callees(fn))
  }

  function EdgesOf(r: Relations, fns: seq<string>): seq<Edge> {
    if fns == [] then [] else EdgesOf(r, fns[..|fns| - 1]) + EdgesAt(r, fns[|fns| - 1])
  }

  lemma {:induction false} EdgesOfConcat(r: Relations, a: seq<string>, b: seq<string>)
    ensures EdgesOf(r, a + b) == EdgesOf(r, a) + EdgesOf(r, b)
  {
    if b == [] {
      assert a + b == a;
    } else {
      var n := |b| - 1;
      EdgesOfConcat(r, a, b[..n]);
      assert (a + b)[..|a + b| - 1] == a + b[..n];
    }
  }

  lemma {:induction false} EdgesOfHas(r: Relations, fns: seq<string>, e: Edge)
    ensures e in EdgesOf(r, fns) <==> exists fn :: fn in fns && e in EdgesAt(r, fn)
  {
    if fns != [] {
      var n := |fns| - 1;
      EdgesOfHas(r, fns[..n], e);
      assert fns == fns[..n] + [fns[n]];
    }
  }

  // ---- the string key of an edge ----

  function KindName(k: Kind): string {
    match k case Calls => "calls" case FnPtr => "fnptr"
  }

  /** The string under which an edge is remembered as seen. */
  function Key(e: Edge): string {
    e.src + ">" + e.dst + "|" + KindName(e.kind)
  }

  /** The key is injective on edges whose source has no '>' in its name, as no C
      identifier has. */
  lemma KeyInjective(e: Edge, f: Edge)
    requires '>' !in e.src && '>' !in f.src && Key(e) == Key(f)
    ensures e == f
  {
    SameEnding(e.src + ">" + e.dst, KindName(e.kind), f.src + ">" + f.dst, KindName(f.kind));
    Text.FirstMarkSeparates(e.src, e.dst, f.src, f.dst, '>');
    assert "calls"[0] != "fnptr"[0];
  }

  lemma SameEnding(a: string, b: string, c: string, d: string)
    requires |b| == |d| && a + "|" + b == c + "|" + d
    ensures a == c && b == d
  {
    var s, n := a + "|" + b, |a|;
    assert |c| == n;
    assert a == s[..n] && c == s[..n] && b == s[n + 1..] && d == s[n + 1..];
  }

  /** A '>' in a name, as in a C++ operator, can make two edges look alike. */
  lemma KeyCollides()
    ensures Key(Edge("a>b", "c", Calls)) == Key(Edge("a", "b>c", Calls))
  {
    assert "a>b" + ">" + "c" == "a" + ">" + "b>c";
  }

  // ---- edges without repeats ----

  function Keys(trace: seq<Edge>): set<string> {
    if trace == [] then {} else Keys(trace[..|trace| - 1]) + {Key(trace[|trace| - 1])}
  }

  /** The edges of `trace` whose key has not occurred before. */
  function Deduplicated(trace: seq<Edge>): seq<Edge> {
    if trace == [] then []
    else
      var earlier, e := trace[..|trace| - 1], trace[|trace| - 1];
      if Key(e) in Keys(earlier) then Deduplicated(earlier) else Deduplicated(earlier) + [e]
  }

  lemma DeduplicatedStep(trace: seq<Edge>, e: Edge)
    ensures Keys(trace + [e]) == Keys(trace) + {Key(e)}
    ensures Deduplicated(trace + [e])
         == if Key(e) in Keys(trace) then Deduplicated(trace) else Deduplicated(trace) + [e]
  {
    assert (trace + [e])[..|trace|] == trace;
  }

  ghost predicate DistinctKeys(edges: seq<Edge>) {
    forall i, j :: 0 <= i < j < |edges| ==> Key(edges[i]) != Key(edges[j])
  }

  lemma {:induction false} KeysHas(trace: seq<Edge>, key: string)
    ensures key in Keys(trace) <==> exists e :: e in trace && Key(e) == key
  {
    if trace != [] {
      var n := |trace| - 1;
      KeysHas(trace[..n], key);
      assert trace == trace[..n] + [trace[n]];
    }
  }

  /** Deduplication keeps one edge for every key, and no two with the same. */
  lemma {:induction false} DeduplicatedKeeps(trace: seq<Edge>)
    ensures forall e :: e in Deduplicated(trace) ==> e in trace
    ensures forall key :: key in Keys(trace) <==> exists e :: e in Deduplicated(trace) && Key(e) == key
    ensures DistinctKeys(Deduplicated(trace))
  {
    hide Key;
    if trace != [] {
      var earlier, e := trace[..|trace| - 1], trace[|trace| - 1];
      DeduplicatedKeeps(earlier);
      assert trace == earlier + [e];
      if Key(e) !in Keys(earlier) {
        var kept := Deduplicated(earlier);
        assert forall k :: 0 <= k < |kept| ==> kept[k] in kept;
      }
    }
  }

  ghost predicate KeysTellApart(trace: seq<Edge>) {
    forall e, f :: e in trace && f in trace && Key(e) == Key(f) ==> e == f
  }

  /** No edge is lost if and only if no two found edges share a key. */
  lemma {:induction false} NothingLostExactlyWhen(trace: seq<Edge>)
    ensures (forall e :: e in trace ==> e in Deduplicated(trace)) <==> KeysTellApart(trace)
  {
    var edges := Deduplicated(trace);
    DeduplicatedKeeps(trace);
    if KeysTellApart(trace) {
      forall e | e in trace ensures e in edges {
        KeysHas(trace, Key(e));
        var f :| f in edges && Key(f) == Key(e);
      }
    }
    if forall e :: e in trace ==> e in edges {
      forall e, f | e in trace && f in trace && Key(e) == Key(f) ensures e == f {
        var i :| 0 <= i < |edges| && edges[i] == e;
        var j :| 0 <= j < |edges| && edges[j] == f;
      }
    }
  }

  // ---- the search ----

  /** The variables the closures addNode and addEdge share with the loops.  `trace` is
      every edge handed to addEdge so far, `base` what was visited before this round. */
  class Search {
    var nodes: set<string>
    var edges: seq<Edge>
    var eseen: set<string>
    var visited: set<string>
    var next: seq<string>
    ghost var trace: seq<Edge>
    ghost var base: set<string>

    constructor (focus: string)
      ensures Valid() && fresh(this)
      ensures visited == {focus} && base == {} && trace == [] && next == [focus]
    {
      nodes, edges, eseen := {focus}, [], {};
      visited, next := {focus}, [focus];
      trace, base := [], {};
    }

    ghost predicate Valid()
      reads this
    {
      && nodes == visited
      && edges == Deduplicated(trace) && eseen == Keys(trace)
      && base <= visited && Elements(next) == visited - base
    }

    /** A new round: what was found in the last one is looked at now. */
    method BeginRound() returns (frontier: seq<string>)
      requires Valid()
      modifies `next, `base
      ensures Valid() && frontier == old(next) && base == visited && Elements(frontier) == visited - old(base)
    {
      frontier := next;
      next, base := [], visited;
    }

    /** addNode, addEdge and the visit that follows them in each of the three loops. */
    method Meet(x: string, e: Edge)
      requires Valid()
      modifies `nodes, `visited, `next, `edges, `eseen, `trace
      ensures Valid()
      ensures visited == old(visited) + {x} && trace == old(trace) + [e]
    {
      hide Deduplicated, Keys, Key;
      DeduplicatedStep(trace, e);
      nodes := nodes + {x};
      var key := Key(e);
      if key !in eseen {
        eseen := eseen + {key};
        edges := edges + [e];
      }
      trace := trace + [e];
      if x !in visited {
        assert Elements(next + [x]) == Elements(next) + {x};
        visited := visited + {x};
        next := next + [x];
      }
    }

    method LookAtCallers(names: seq<string>, fn: string, kind: Kind)
      requires Valid()
      modifies `nodes, `visited, `next, `edges, `eseen, `trace
      ensures Valid()
      ensures visited == old(visited) + Elements(names)
      ensures trace == old(trace) + EdgesInto(names, fn, kind)
    {
      hide Deduplicated, Keys, Elements;
      ghost var visited0, trace0 := visited, trace;
      ElementsOfAll(names);
      ghost var all := EdgesInto(names, fn, kind);
      var i := 0;
      while i < |names|
        invariant 0 <= i <= |names| && Valid()
        invariant visited == visited0 + Elements(names[..i])
        invariant trace == trace0 + all[..i]
      {
        ElementsOneMore(names, i);
        OneMore(trace0, all, i);
        Meet(names[i], Edge(names[i], fn, kind));
        i := i + 1;
      }
    }

    method LookAtCallees(fn: string, names: seq<string>)
      requires Valid()
      modifies `nodes, `visited, `next, `edges, `eseen, `trace
      ensures Valid()
      ensures visited == old(visited) + Elements(names)
      ensures trace == old(trace) + EdgesFrom(fn, names)
    {
      hide Deduplicated, Keys, Elements;
      ghost var visited0, trace0 := visited, trace;
      ElementsOfAll(names);
      ghost var all := EdgesFrom(fn, names);
      var i := 0;
      while i < |names|
        invariant 0 <= i <= |names| && Valid()
        invariant visited == visited0 + Elements(names[..i])
        invariant trace == trace0 + all[..i]
      {
        ElementsOneMore(names, i);
        OneMore(trace0, all, i);
        Meet(names[i], Edge(fn, names[i], Calls));
        i := i + 1;
      }
    }

    /** The three loops over the neighbours of one symbol. */
    method Look(r: Relations, fn: string)
      requires Valid()
      modifies `nodes, `visited, `next, `edges, `eseen, `trace
      ensures Valid()
      ensures visited == old(visited) + Elements(Adjacent(r)(fn))
      ensures trace == old(trace) + EdgesAt(r, fn)
    {
      ghost var visited0, trace0 := visited, trace;
      LookAtCallers(r.callers(fn), fn, Calls);
      LookAtCallers(r.heuristic(fn), fn, FnPtr);
      LookAtCallees(fn, r.callees(fn));
      ThreeParts(r, fn, visited0, trace0);
    }

    /** The state after d rounds that looked at `looked`. */
    ghost predicate After(r: Relations, focus: string, d: nat, looked: seq<string>)
      reads this
    {
      Valid() && Explored(r, focus, d, looked, visited, base, trace)
    }

    method Step(r: Relations, ghost focus: string, ghost d: nat, ghost looked: seq<string>)
      returns (ghost frontier: seq<string>)
      requires After(r, focus, d, looked)
      modifies this
      ensures After(r, focus, d + 1, looked + frontier)
    {
      ghost var visited0, base0, trace0 := visited, base, trace;
      frontier := Round(r);
      RoundExplores(r, focus, d, looked, visited0, base0, trace0, frontier);
    }

    /** One round of the search. */
    method Round(r: Relations) returns (ghost frontier: seq<string>)
      requires Valid()
      modifies this
      ensures Valid() && Elements(frontier) == old(visited - base) && base == old(visited)
      ensures visited == old(visited) + Elements(Expand(Adjacent(r), frontier))
      ensures trace == old(trace) + EdgesOf(r, frontier)
    {
      ghost var visited0, trace0 := visited, trace;
      var todo := BeginRound();
      frontier := todo;
      ElementsOfAll(todo);
      var i := 0;
      while i < |todo|
        invariant 0 <= i <= |todo| && Valid() && base == visited0
        invariant visited == visited0 + Elements(Expand(Adjacent(r), todo[..i]))
        invariant trace == trace0 + EdgesOf(r, todo[..i])
      {
        ExpandOneMore(Adjacent(r), todo, i);
        EdgesOfOneMore(r, todo, i, trace0);
        Look(r, todo[i]);
        i := i + 1;
      }
      assert todo[..i] == todo;
    }
  }

  lemma OneMore<T>(trace: seq<T>, all: seq<T>, i: nat)
    requires i < |all|
    ensures (trace + all[..i]) + [all[i]] == trace + all[..i + 1]
    ensures trace + all[..0] == trace && trace + all[..|all|] == trace + all
  {
  }

  lemma ThreeParts(r: Relations, fn: string, visited: set<string>, trace: seq<Edge>)
    ensures visited + Elements(r.callers(fn)) + Elements(r.heuristic(fn)) + Elements(r.callees(fn))
         == visited + Elements(Adjacent(r)(fn))
    ensures trace + EdgesInto(r.callers(fn), fn, Calls) + EdgesInto(r.heuristic(fn), fn, FnPtr)
            + EdgesFrom(fn, r.callees(fn))
         == trace + EdgesAt(r, fn)
  {
    ElementsConcat(r.callers(fn) + r.heuristic(fn), r.callees(fn));
    ElementsConcat(r.callers(fn), r.heuristic(fn));
  }

  lemma EdgesOfOneMore(r: Relations, fns: seq<string>, i: nat, trace: seq<Edge>)
    requires i < |fns|
    ensures (trace + EdgesOf(r, fns[..i])) + EdgesAt(r, fns[i]) == trace + EdgesOf(r, fns[..i + 1])
  {
    assert fns[..i + 1][..i] == fns[..i];
  }

  /** What the rounds keep: `looked`, the frontiers of all rounds in order, is what was
      visited before the last round, and the edges found are those at its symbols. */
  ghost predicate Explored(r: Relations, focus: string, d: nat, looked: seq<string>,
                           visited: set<string>, base: set<string>, trace: seq<Edge>)
  {
    && Rounds(Adjacent(r), focus, d, visited, base)
    && Elements(looked) == base
    && trace == EdgesOf(r, looked)
  }

  lemma NothingExplored(r: Relations, focus: string)
    ensures Explored(r, focus, 0, [], {focus}, {}, [])
  {
  }

  lemma {:induction false} RoundExplores(r: Relations, focus: string, d: nat, looked: seq<string>,
                                         visited: set<string>, base: set<string>, trace: seq<Edge>,
                                         frontier: seq<string>)
    requires Explored(r, focus, d, looked, visited, base, trace)
    requires Elements(frontier) == visited - base
    ensures Explored(r, focus, d + 1, looked + frontier, visited + Elements(Expand(Adjacent(r), frontier)),
                     visited, trace + EdgesOf(r, frontier))
  {
    RoundGrows(Adjacent(r), focus, d, visited, base, frontier);
    ElementsConcat(looked, frontier);
    EdgesOfConcat(r, looked, frontier);
  }

  /** A negative depth makes no rounds, like depth 0. */
  function Radius(depth: int): nat {
    if depth <= 0 then 0 else depth
  }

  /** The search.  Its nodes are the symbols within `depth` of the focus; its edges have
      no repeats, are found within `depth`, and end at nodes; and none is missing where no
      source name contains '>'. */
  method BuildNeighborhood(r: Relations, focus: string, depth: int)
    returns (nodes: set<string>, edges: seq<Edge>, ghost looked: seq<string>)
    ensures Rounds(Adjacent(r), focus, Radius(depth), nodes, Elements(looked))
    ensures edges == Deduplicated(EdgesOf(r, looked))
    ensures forall x :: x in nodes <==> exists d :: d <= Radius(depth) && IsDistance(Adjacent(r), focus, x, d)
    ensures DistinctKeys(edges)
    ensures forall e :: e in edges ==> FoundWithin(r, focus, Radius(depth), e) && e.src in nodes && e.dst in nodes
    ensures (forall e :: FoundWithin(r, focus, Radius(depth), e) ==> '>' !in e.src)
            ==> forall e :: e in edges <==> FoundWithin(r, focus, Radius(depth), e)
  {
    hide Rounds, IsDistance, FoundWithin, DistinctKeys, Deduplicated, EdgesOf;
    var s := new Search(focus);
    NothingExplored(r, focus);
    looked := [];
    var d := 0;
    ghost var radius := Radius(depth);
    while d < depth && |s.next| > 0
      invariant 0 <= d <= radius
      invariant fresh(s) && s.After(r, focus, d, looked)
      decreases depth - d
    {
      ghost var frontier := s.Step(r, focus, d, looked);
      looked := looked + frontier;
      d := d + 1;
    }
    nodes, edges := s.nodes, s.edges;
    if d < depth {
      assert s.visited - s.base == Elements(s.next) == {};
      RoundsRanDry(Adjacent(r), focus, d, radius, s.visited, s.base);
    } else {
      assert d == radius;
    }
    NeighborhoodIsExact(r, focus, radius, looked, nodes, edges);
  }

  // ---- what the answer means ----

  /** e is found while looking at fn. */
  ghost predicate FoundAt(r: Relations, fn: string, e: Edge) {
    || (e.kind == Calls && e.dst == fn && e.src in r.callers(fn))
    || (e.kind == FnPtr && e.dst == fn && e.src in r.heuristic(fn))
    || (e.kind == Calls && e.src == fn && e.dst in r.callees(fn))
  }

  lemma {:induction false} EdgesAtAreFound(r: Relations, fn: string, e: Edge)
    ensures e in EdgesAt(r, fn) <==> FoundAt(r, fn, e)
  {
    IntoHas(r.callers(fn), fn, Calls, e);
    IntoHas(r.heuristic(fn), fn, FnPtr, e);
    FromHas(fn, r.callees(fn), e);
  }

  lemma IntoHas(names: seq<string>, fn: string, k: Kind, e: Edge)
    ensures e in EdgesInto(names, fn, k) <==> e.kind == k && e.dst == fn && e.src in names
  {
    if e.kind == k && e.dst == fn && e.src in names {
      var i :| 0 <= i < |names| && names[i] == e.src;
      assert EdgesInto(names, fn, k)[i] == e;
    }
  }

  lemma FromHas(fn: string, names: seq<string>, e: Edge)
    ensures e in EdgesFrom(fn, names) <==> e.kind == Calls && e.src == fn && e.dst in names
  {
    if e.kind == Calls && e.src == fn && e.dst in names {
      var i :| 0 <= i < |names| && names[i] == e.dst;
      assert EdgesFrom(fn, names)[i] == e;
    }
  }

  /** e is found at a symbol at distance less than depth from the focus. */
  ghost predicate FoundWithin(r: Relations, focus: string, depth: int, e: Edge) {
    exists fn, d :: d < depth && IsDistance(Adjacent(r), focus, fn, d) && FoundAt(r, fn, e)
  }

  /** The edges found by the whole search. */
  lemma {:induction false} TraceIsFoundWithin(r: Relations, focus: string, depth: int, looked: seq<string>, e: Edge)
    requires Elements(looked) == if depth <= 0 then {} else Ball(Adjacent(r), focus, depth - 1)
    ensures e in EdgesOf(r, looked) <==> FoundWithin(r, focus, depth, e)
  {
    hide Ball, EdgesOf, EdgesAt;
    EdgesOfHas(r, looked, e);
    if e in EdgesOf(r, looked) {
      var fn :| fn in looked && e in EdgesAt(r, fn);
      assert fn in Elements(looked);
      EdgesAtAreFound(r, fn, e);
      BallIsByDistance(Adjacent(r), focus, depth - 1, fn);
    }
    if FoundWithin(r, focus, depth, e) {
      var fn, d :| d < depth && IsDistance(Adjacent(r), focus, fn, d) && FoundAt(r, fn, e);
      assert d >= 0;
      BallIsByDistance(Adjacent(r), focus, depth - 1, fn);
      EdgesAtAreFound(r, fn, e);
      assert fn in Elements(looked);
    }
  }

  /** The neighbourhood: its nodes are the symbols within `depth` of the focus; its
      edges have no repeats and are, where no source name contains '>', exactly those
      found at symbols at distance less than depth; and every end of an edge is a node. */
  lemma {:induction false} NeighborhoodIsExact(r: Relations, focus: string, depth: nat, looked: seq<string>,
                                               nodes: set<string>, edges: seq<Edge>)
    requires Rounds(Adjacent(r), focus, depth, nodes, Elements(looked))
    requires edges == Deduplicated(EdgesOf(r, looked))
    ensures forall x :: x in nodes <==> exists d :: d <= depth && IsDistance(Adjacent(r), focus, x, d)
    ensures DistinctKeys(edges)
    ensures forall e :: e in edges ==> FoundWithin(r, focus, depth, e) && e.src in nodes && e.dst in nodes
    ensures (forall e :: FoundWithin(r, focus, depth, e) ==> '>' !in e.src)
            ==> forall e :: e in edges <==> FoundWithin(r, focus, depth, e)
  {
    forall x ensures x in nodes <==> exists d :: d <= depth && IsDistance(Adjacent(r), focus, x, d) {
      BallIsByDistance(Adjacent(r), focus, depth, x);
    }
    var trace := EdgesOf(r, looked);
    DeduplicatedKeeps(trace);
    forall e ensures e in trace <==> FoundWithin(r, focus, depth, e) {
      TraceIsFoundWithin(r, focus, depth, looked, e);
    }
    forall e | e in edges ensures e.src in nodes && e.dst in nodes {
      EndsAreNodes(r, focus, depth, looked, e);
    }
    if forall e :: FoundWithin(r, focus, depth, e) ==> '>' !in e.src {
      forall e, f | e in trace && f in trace && Key(e) == Key(f) ensures e == f {
        KeyInjective(e, f);
      }
      NothingLostExactlyWhen(trace);
    }
  }

  lemma {:induction false} EndsAreNodes(r: Relations, focus: string, depth: nat, looked: seq<string>, e: Edge)
    requires Elements(looked) == if depth == 0 then {} else Ball(Adjacent(r), focus, depth - 1)
    requires e in EdgesOf(r, looked)
    ensures e.src in Ball(Adjacent(r), focus, depth) && e.dst in Ball(Adjacent(r), focus, depth)
  {
    hide Ball, EdgesOf, EdgesAt, IsDistance;
    EdgesOfHas(r, looked, e);
    var fn :| fn in looked && e in EdgesAt(r, fn);
    assert fn in Elements(looked);
    EdgesAtAreFound(r, fn, e);
    assert depth > 0;
    var other := if e.src == fn then e.dst else e.src;
    BallHas(Adjacent(r), focus, depth - 1, fn);
    BallHas(Adjacent(r), focus, depth - 1, other);
    if other != fn {
      assert other in Adjacent(r)(fn);
    }
  }
}
