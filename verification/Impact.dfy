/** Impact of internal/cmd/run.go: the transitive callers of a symbol up to a depth. */
module Impact {
  import opened Reach
  import opened Rearrangement

  /** One line of the report: a symbol and its hop count. */
  datatype Entry = Entry(name: string, hop: nat)

  function Tagged(names: seq<string>, hop: nat): (r: seq<Entry>)
    ensures |r| == |names| && forall k :: 0 <= k < |names| ==> r[k] == Entry(names[k], hop)
  {
    seq(|names|, k requires 0 <= k < |names| => Entry(names[k], hop))
  }

  /** Each symbol once, hop counts nondecreasing. */
  ghost predicate Ordered(order: seq<Entry>) {
    forall i, j :: 0 <= i < j < |order| ==> order[i].name != order[j].name && order[i].hop <= order[j].hop
  }

  /** Every entry's hop count is a radius up to d at which its symbol enters. */
  ghost predicate Right(callers: Relation, start: string, d: int, order: seq<Entry>) {
    forall e :: e in order ==> 1 <= e.hop <= d && EntersAt(callers, start, e.name, e.hop)
  }

  /** Every symbol that enters at a radius from 1 to d has an entry. */
  ghost predicate Full(callers: Relation, start: string, d: int, order: seq<Entry>) {
    forall x, h: nat :: 1 <= h <= d && EntersAt(callers, start, x, h) ==> Entry(x, h) in order
  }

  ghost predicate ReportUpTo(callers: Relation, start: string, d: int, order: seq<Entry>) {
    Ordered(order) && Right(callers, start, d, order) && Full(callers, start, d, order)
  }

  lemma {:induction false} EntersOnce(callers: Relation, start: string, x: string, d: nat, e: nat)
    requires EntersAt(callers, start, x, d) && EntersAt(callers, start, x, e)
    ensures d == e
  {
    if d < e {
      BallsGrow(callers, start, d, e - 1);
    } else if e < d {
      BallsGrow(callers, start, e, d - 1);
    }
  }

  /** The symbols that enter at radius d + 1. */
  ghost predicate IsLayer(callers: Relation, start: string, d: nat, layer: seq<string>) {
    NoDuplicates(layer) && forall x :: x in layer <==> EntersAt(callers, start, x, d + 1)
  }

  lemma TaggedHas(layer: seq<string>, h: nat, e: Entry)
    ensures e in Tagged(layer, h) <==> e.hop == h && e.name in layer
  {
    if e.hop == h && e.name in layer {
      var k :| 0 <= k < |layer| && layer[k] == e.name;
      assert Tagged(layer, h)[k] == e;
    }
  }

  lemma {:induction false} LayerOrdered(callers: Relation, start: string, d: nat, order: seq<Entry>, layer: seq<string>)
    requires Ordered(order) && Right(callers, start, d, order) && IsLayer(callers, start, d, layer)
    ensures Ordered(order + Tagged(layer, d + 1))
  {
    hide EntersAt;
    var all, n := order + Tagged(layer, d + 1), |order|;
    forall i, j | 0 <= i < |order| && 0 <= j < |layer|
      ensures order[i].name != layer[j] && order[i].hop <= d + 1
    {
      assert order[i] in order && layer[j] in layer;
      if order[i].name == layer[j] {
        EntersOnce(callers, start, layer[j], order[i].hop, d + 1);
      }
    }
    forall i, j | 0 <= i < j < |all| ensures all[i].name != all[j].name && all[i].hop <= all[j].hop {
      if j < n {
        assert all[i] == order[i] && all[j] == order[j];
      } else if i < n {
        assert all[i] == order[i] && all[j] == Entry(layer[j - n], d + 1);
      } else {
        assert all[i] == Entry(layer[i - n], d + 1) && all[j] == Entry(layer[j - n], d + 1);
      }
    }
  }

  /** Appending a whole layer extends the report by one radius. */
  lemma {:induction false} ReportLayer(callers: Relation, start: string, d: nat, order: seq<Entry>, layer: seq<string>)
    requires ReportUpTo(callers, start, d, order) && IsLayer(callers, start, d, layer)
    ensures ReportUpTo(callers, start, d + 1, order + Tagged(layer, d + 1))
  {
    LayerOrdered(callers, start, d, order, layer);
    var more := Tagged(layer, d + 1);
    forall e | e in order + more ensures 1 <= e.hop <= d + 1 && EntersAt(callers, start, e.name, e.hop) {
      TaggedHas(layer, d + 1, e);
    }
    forall x, h: nat | 1 <= h <= d + 1 && EntersAt(callers, start, x, h) ensures Entry(x, h) in order + more {
      TaggedHas(layer, d + 1, Entry(x, h));
    }
  }

  /** A search that runs dry has a full report for any greater depth. */
  lemma {:induction false} ReportOfDrySearch(callers: Relation, start: string, d: nat, depth: nat,
                                             visited: set<string>, base: set<string>, order: seq<Entry>)
    requires ReportUpTo(callers, start, d, order) && d <= depth
    requires Rounds(callers, start, d, visited, base) && visited - base == {}
    ensures ReportUpTo(callers, start, depth, order)
  {
    RoundsRanDry(callers, start, d, depth, visited, base);
    forall x, h: nat | 1 <= h <= depth && EntersAt(callers, start, x, h) ensures Entry(x, h) in order {
      assert h > d ==> !EntersAt(callers, start, x, h);
    }
  }

  /** What the inner loops keep: `next` lists, once each, the symbols visited beyond the
      ball, and the report has grown by just these. */
  ghost predicate Layering(visited: set<string>, ball: set<string>, next: seq<string>,
                           before: seq<Entry>, order: seq<Entry>, hop: nat)
  {
    && ball <= visited && NoDuplicates(next)
    && (forall x :: x in next <==> x in visited && x !in ball)
    && order == before + Tagged(next, hop)
  }

  lemma LayerDone(callers: Relation, start: string, d: nat, seen: set<string>, base: set<string>, frontier: seq<string>,
                  visited: set<string>, next: seq<string>, before: seq<Entry>, order: seq<Entry>)
    requires Rounds(callers, start, d, seen, base) && Elements(frontier) == seen - base
    requires visited == seen + Elements(Expand(callers, frontier))
    requires Layering(visited, seen, next, before, order, d + 1)
    ensures Rounds(callers, start, d + 1, visited, seen) && Elements(next) == visited - seen
    ensures IsLayer(callers, start, d, next)
  {
    RoundGrows(callers, start, d, seen, base, frontier);
  }

  /** One round of the search: the callers of every frontier symbol.  `callers` stands
      for resolving a symbol and asking for its incoming calls; a symbol that does not
      resolve has none. */
  method Round(callers: Relation, frontier: seq<string>, seen: set<string>, before: seq<Entry>, hop: nat)
    returns (visited: set<string>, next: seq<string>, order: seq<Entry>)
    ensures visited == seen + Elements(Expand(callers, frontier))
    ensures Layering(visited, seen, next, before, order, hop)
  {
    visited, next, order := seen, [], before;
    ElementsOfAll(frontier);
    var i := 0;
    while i < |frontier|
      invariant 0 <= i <= |frontier|
      invariant visited == seen + Elements(Expand(callers, frontier[..i]))
      invariant Layering(visited, seen, next, before, order, hop)
    {
      var found := callers(frontier[i]);
      ghost var visited0 := visited;
      ElementsOfAll(found);
      var j := 0;
      while j < |found|
        invariant 0 <= j <= |found|
        invariant visited == visited0 + Elements(found[..j])
        invariant Layering(visited, seen, next, before, order, hop)
      {
        ElementsOneMore(found, j);
        if found[j] !in visited {
          assert Tagged(next + [found[j]], hop) == Tagged(next, hop) + [Entry(found[j], hop)];
          visited := visited + {found[j]};
          next := next + [found[j]];
          order := order + [Entry(found[j], hop)];
        }
        j := j + 1;
      }
      ExpandOneMore(callers, frontier, i);
      i := i + 1;
    }
  }

  lemma {:induction false} NothingReported(callers: Relation, name: string, depth: int)
    ensures Rounds(callers, name, 0, {name}, {}) && Elements([name]) == {name} - {}
    ensures ReportUpTo(callers, name, 0, [])
    ensures depth <= 0 ==> ReportUpTo(callers, name, depth, [])
  {
  }

  /** The search. */
  method Impact(callers: Relation, name: string, depth: int) returns (order: seq<Entry>)
    ensures ReportUpTo(callers, name, depth, order)
  {
    hide Rounds, ReportUpTo, Layering, IsLayer;
    NothingReported(callers, name, depth);
    var visited := {name};
    var frontier := [name];
    order := [];
    var d := 0;
    ghost var base: set<string> := {};
    while d < depth && |frontier| > 0
      invariant 0 <= d && (d <= depth || d == 0) && (d == 0 ==> order == [])
      invariant Rounds(callers, name, d, visited, base) && Elements(frontier) == visited - base
      invariant ReportUpTo(callers, name, d, order)
      decreases depth - d
    {
      ghost var before, seen, looked := order, visited, frontier;
      visited, frontier, order := Round(callers, frontier, visited, order, d + 1);
      LayerDone(callers, name, d, seen, base, looked, visited, frontier, before, order);
      ReportLayer(callers, name, d, before, frontier);
      base := seen;
      d := d + 1;
    }
    if d < depth {
      assert visited - base == Elements(frontier) == {};
      ReportOfDrySearch(callers, name, d, depth, visited, base, order);
    } else {
      assert d == depth || d == 0;
    }
  }

  /** The report lists exactly the symbols whose shortest caller distance from the
      start is between 1 and the depth, each once, with that distance as its hop count,
      in nondecreasing order, and never the start itself. */
  lemma {:induction false} ReportIsShortestDistances(callers: Relation, start: string, depth: int, order: seq<Entry>)
    requires ReportUpTo(callers, start, depth, order)
    ensures forall x, h: nat :: Entry(x, h) in order <==> 1 <= h <= depth && IsDistance(callers, start, x, h)
    ensures forall i, j :: 0 <= i < j < |order| ==> order[i].name != order[j].name && order[i].hop <= order[j].hop
    ensures forall e :: e in order ==> e.name != start
  {
    forall x, h: nat ensures Entry(x, h) in order <==> 1 <= h <= depth && IsDistance(callers, start, x, h) {
      EntersAtDistance(callers, start, x, h);
    }
    forall e | e in order ensures e.name != start {
      BallsGrow(callers, start, 0, e.hop - 1);
    }
  }
}
