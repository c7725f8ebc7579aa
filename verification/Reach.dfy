/** Reachability in a finite-branching relation: walks, the balls around a symbol, and
    shortest distances. */
module Reach {

  /** A relation on symbol names: whom the search visits from a symbol.  The answers of
      the language server are such a relation. */
  type Relation = string -> seq<string>

  /** A walk, by the symbols it leaves in order of visit. */
  datatype Walk = Here | Hop(before: Walk, via: string)

  function Length(w: Walk): nat {
    match w
    case Here => 0
    case Hop(before, _) => Length(before) + 1
  }

  predicate IsWalk(next: Relation, w: Walk, from: string, to: string) {
    match w
    case Here => from == to
    case Hop(before, via) => IsWalk(next, before, from, via) && to in next(via)
  }

  /** d is the length of a shortest walk from `start` to x. */
  ghost predicate IsDistance(next: Relation, start: string, x: string, d: int) {
    && (exists w :: IsWalk(next, w, start, x) && Length(w) == d)
    && (forall w :: IsWalk(next, w, start, x) ==> d <= Length(w))
  }

  // ---- lists as sets ----

  function Elements<T(!new)>(s: seq<T>): set<T> {
    set x | x in s
  }

  lemma ElementsConcat<T(!new)>(s: seq<T>, t: seq<T>)
    ensures Elements(s + t) == Elements(s) + Elements(t)
  {
  }

  lemma ElementsOneMore<T(!new)>(s: seq<T>, j: nat)
    requires j < |s|
    ensures Elements(s[..j + 1]) == Elements(s[..j]) + {s[j]}
  {
    assert s[..j + 1] == s[..j] + [s[j]];
  }

  lemma ElementsOfAll<T(!new)>(s: seq<T>)
    ensures s[..|s|] == s && Elements(s[..0]) == {}
  {
  }

  // ---- balls ----

  /** Everything one step away from the symbols of a list. */
  function Expand(next: Relation, from: seq<string>): seq<string> {
    if from == [] then [] else Expand(next, from[..|from| - 1]) + next(from[|from| - 1])
  }

  /** Everything at most n steps away from `start`, as a list with repeats. */
  function Listing(next: Relation, start: string, n: nat): seq<string> {
    if n == 0 then [start] else Listing(next, start, n - 1) + Expand(next, Listing(next, start, n - 1))
  }

  /** The same as a set. */
  function Ball(next: Relation, start: string, n: nat): set<string> {
    Elements(Listing(next, start, n))
  }

  lemma {:induction false} ExpandHas(next: Relation, from: seq<string>, y: string)
    ensures y in Expand(next, from) <==> exists x :: x in from && y in next(x)
  {
    if from != [] {
      var n := |from| - 1;
      ExpandHas(next, from[..n], y);
      assert from == from[..n] + [from[n]];
    }
  }

  lemma {:induction false} ExpandOneMore(next: Relation, from: seq<string>, i: nat)
    requires i < |from|
    ensures Elements(Expand(next, from[..i + 1])) == Elements(Expand(next, from[..i])) + Elements(next(from[i]))
  {
    assert from[..i + 1][..i] == from[..i];
    ElementsConcat(Expand(next, from[..i]), next(from[i]));
  }

  lemma BallHas(next: Relation, start: string, n: nat, y: string)
    ensures y in Ball(next, start, n + 1)
       <==> y in Ball(next, start, n) || exists x :: x in Ball(next, start, n) && y in next(x)
  {
    ExpandHas(next, Listing(next, start, n), y);
    if x :| x in Listing(next, start, n) && y in next(x) {
      assert x in Ball(next, start, n);
    }
  }

  lemma {:induction false} BallsGrow(next: Relation, start: string, m: nat, n: nat)
    requires m <= n
    ensures Ball(next, start, m) <= Ball(next, start, n)
    decreases n
  {
    if m < n { BallsGrow(next, start, m, n - 1); }
  }

  lemma {:induction false} BallHasWalk(next: Relation, start: string, n: nat, x: string) returns (w: Walk)
    requires x in Ball(next, start, n)
    ensures IsWalk(next, w, start, x) && Length(w) <= n
  {
    if n == 0 {
      w := Here;
    } else {
      BallHas(next, start, n - 1, x);
      if x in Ball(next, start, n - 1) {
        w := BallHasWalk(next, start, n - 1, x);
      } else {
        var via :| via in Ball(next, start, n - 1) && x in next(via);
        w := BallHasWalk(next, start, n - 1, via);
        w := Hop(w, via);
      }
    }
  }

  lemma {:induction false} WalkStaysInBall(next: Relation, start: string, n: nat, x: string, w: Walk)
    requires IsWalk(next, w, start, x) && Length(w) <= n
    ensures x in Ball(next, start, n)
    decreases n
  {
    match w
    case Here =>
      BallsGrow(next, start, 0, n);
    case Hop(before, via) =>
      WalkStaysInBall(next, start, n - 1, via, before);
      BallHas(next, start, n - 1, x);
  }

  /** x enters the balls at radius d. */
  ghost predicate EntersAt(next: Relation, start: string, x: string, d: nat) {
    x in Ball(next, start, d) && (d > 0 ==> x !in Ball(next, start, d - 1))
  }

  /** Entering the balls at radius d is having distance d. */
  lemma {:induction false} EntersAtDistance(next: Relation, start: string, x: string, d: nat)
    ensures EntersAt(next, start, x, d) <==> IsDistance(next, start, x, d)
  {
    if EntersAt(next, start, x, d) {
      var w := BallHasWalk(next, start, d, x);
      forall w' | IsWalk(next, w', start, x) ensures d <= Length(w') {
        if Length(w') < d { WalkStaysInBall(next, start, d - 1, x, w'); }
      }
    }
    if IsDistance(next, start, x, d) {
      var w :| IsWalk(next, w, start, x) && Length(w) == d;
      WalkStaysInBall(next, start, d, x, w);
      if d > 0 && x in Ball(next, start, d - 1) {
        var shorter := BallHasWalk(next, start, d - 1, x);
      }
    }
  }

  /** A layer with nothing new ends the search. */
  lemma {:induction false} BallsStop(next: Relation, start: string, m: nat, n: nat)
    requires m <= n && Ball(next, start, m + 1) == Ball(next, start, m)
    ensures Ball(next, start, n) == Ball(next, start, m)
    decreases n
  {
    if m < n {
      BallsStop(next, start, m, n - 1);
      forall y ensures y in Ball(next, start, n) <==> y in Ball(next, start, m) {
        BallHas(next, start, n - 1, y);
        BallHas(next, start, m, y);
      }
    }
  }

  /** A symbol is in a ball exactly when it has a distance up to the radius. */
  lemma {:induction false} BallIsByDistance(next: Relation, start: string, n: nat, x: string)
    ensures x in Ball(next, start, n) <==> exists d :: d <= n && IsDistance(next, start, x, d)
  {
    if x in Ball(next, start, n) {
      var d := FirstBall(next, start, n, x);
      EntersAtDistance(next, start, x, d);
    }
    if d :| d <= n && IsDistance(next, start, x, d) {
      assert d >= 0;
      EntersAtDistance(next, start, x, d);
      BallsGrow(next, start, d, n);
    }
  }

  lemma {:induction false} FirstBall(next: Relation, start: string, n: nat, x: string) returns (d: nat)
    requires x in Ball(next, start, n)
    ensures d <= n && EntersAt(next, start, x, d)
  {
    if n == 0 || x !in Ball(next, start, n - 1) {
      d := n;
    } else {
      d := FirstBall(next, start, n - 1, x);
    }
  }

  // ---- the rounds of a breadth-first search ----

  /** What a breadth-first search has visited after d rounds, and what before the last. */
  ghost predicate Rounds(next: Relation, start: string, d: nat, visited: set<string>, base: set<string>) {
    && visited == Ball(next, start, d)
    && base == if d == 0 then {} else Ball(next, start, d - 1)
  }

  /** Expanding only what the last round added gives the next ball. */
  lemma {:induction false} RoundGrows(next: Relation, start: string, d: nat, visited: set<string>, base: set<string>,
                                      frontier: seq<string>)
    requires Rounds(next, start, d, visited, base) && Elements(frontier) == visited - base
    ensures Rounds(next, start, d + 1, visited + Elements(Expand(next, frontier)), visited)
  {
    forall y ensures y in Ball(next, start, d + 1) <==> y in visited + Elements(Expand(next, frontier)) {
      FrontierSuffices(next, start, d, visited, base, frontier, y);
    }
  }

  lemma {:induction false} FrontierSuffices(next: Relation, start: string, d: nat, visited: set<string>,
                                            base: set<string>, frontier: seq<string>, y: string)
    requires Rounds(next, start, d, visited, base) && Elements(frontier) == visited - base
    ensures y in Ball(next, start, d + 1) <==> y in visited || y in Expand(next, frontier)
  {
    BallHas(next, start, d, y);
    ExpandHas(next, frontier, y);
    if x :| x in visited && y in next(x) {
      if x in base {
        BallHas(next, start, d - 1, y);
      } else {
        assert x in Elements(frontier);
      }
    }
    if x :| x in frontier && y in next(x) {
      assert x in Elements(frontier);
    }
  }

  /** A search that runs dry before its depth has visited what the depth allows. */
  lemma {:induction false} RoundsRanDry(next: Relation, start: string, d: nat, depth: nat, visited: set<string>,
                                        base: set<string>)
    requires Rounds(next, start, d, visited, base) && visited - base == {} && d <= depth
    ensures Rounds(next, start, depth, visited, base)
    ensures forall h :: d <= h <= depth ==> Ball(next, start, h) == visited
  {
    hide Ball;
    FirstRoundIsNotDry(next, start, visited, base);
    BallsGrow(next, start, d - 1, d);
    assert visited == (visited - base) + base;
    BallsStop(next, start, d - 1, depth - 1);
    forall h | d <= h <= depth ensures Ball(next, start, h) == visited {
      BallsStop(next, start, d - 1, h);
    }
  }

  lemma FirstRoundIsNotDry(next: Relation, start: string, visited: set<string>, base: set<string>)
    ensures Rounds(next, start, 0, visited, base) ==> start in visited - base
  {
  }
}
