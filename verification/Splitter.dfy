/** splitTopLevel of internal/fnptr/fnptr.go: a comma list cut at bracket depth 0. */
module Splitter {
  import opened Brackets
  import opened Rearrangement
  import opened Text

  /** A comma of the list itself, not of a nested bracket. */
  predicate TopComma(s: string, p: nat) {
    p < |s| && s[p] == ',' && Depth(s, AllKinds, 0, p) == 0
  }

  /** A comma cuts exactly where as many brackets have been opened as closed, of the three
      kinds together. */
  lemma {:induction false} CommaCutsExactlyWhen(s: string, p: nat)
    requires p < |s|
    ensures p in Cuts(s, 0) <==> s[p] == ',' && var t := s[..p];
              Count(t, '{') + Count(t, '(') + Count(t, '[') == Count(t, '}') + Count(t, ')') + Count(t, ']')
  {
    CutsAreTheTopCommas(s, 0, p);
    DepthIsCounts(s[..p]);
    assert s[0..p] == s[..p];
    DepthOfSlice(s, AllKinds, 0, p, 0, p);
  }

  /** The positions of all such commas from i on, ascending. */
  function Cuts(s: string, i: nat): seq<nat>
    decreases |s| - i
  {
    if i >= |s| then []
    else (if TopComma(s, i) then [i] else []) + Cuts(s, i + 1)
  }

  lemma CutsStep(s: string, i: nat)
    requires i < |s|
    ensures Cuts(s, i) == if TopComma(s, i) then [i] + Cuts(s, i + 1) else Cuts(s, i + 1)
    ensures TopComma(s, i) ==> Cuts(s, i)[1..] == Cuts(s, i + 1)
  {
  }

  lemma {:induction false} CutsAreTheTopCommas(s: string, i: nat, p: nat)
    ensures p in Cuts(s, i) <==> i <= p && TopComma(s, p)
    decreases |s| - i
  {
    if i < |s| {
      CutsAreTheTopCommas(s, i + 1, p);
    }
  }

  predicate AscendingFrom(cuts: seq<nat>, last: nat, n: nat) {
    if cuts == [] then true
    else last <= cuts[0] < n && AscendingFrom(cuts[1..], cuts[0] + 1, n)
  }

  lemma {:induction false} CutsAscend(s: string, i: nat, last: nat)
    requires last <= i
    ensures AscendingFrom(Cuts(s, i), last, |s|)
    decreases |s| - i
  {
    if i < |s| {
      if TopComma(s, i) {
        CutsAscend(s, i + 1, i + 1);
        assert Cuts(s, i)[1..] == Cuts(s, i + 1);
      } else {
        CutsAscend(s, i + 1, last);
        assert Cuts(s, i) == Cuts(s, i + 1);
      }
    }
  }

  /** What stands between consecutive cuts. */
  function Slices(s: string, last: nat, cuts: seq<nat>): seq<string>
    requires last <= |s| && AscendingFrom(cuts, last, |s|)
    decreases |cuts|
  {
    if cuts == [] then [s[last..]]
    else [s[last..cuts[0]]] + Slices(s, cuts[0] + 1, cuts[1..])
  }

  /** The list cut at exactly its top-level commas. */
  function SplitTopLevel(s: string): seq<string> {
    CutsAscend(s, 0, 0);
    Slices(s, 0, Cuts(s, 0))
  }

  lemma SliceStep(s: string, last: nat, i: nat)
    requires last <= i < |s| && AscendingFrom(Cuts(s, i), last, |s|)
    ensures TopComma(s, i) ==>
      AscendingFrom(Cuts(s, i + 1), i + 1, |s|)
      && Slices(s, last, Cuts(s, i)) == [s[last..i]] + Slices(s, i + 1, Cuts(s, i + 1))
    ensures !TopComma(s, i) ==> Cuts(s, i) == Cuts(s, i + 1)
  {
    CutsStep(s, i);
  }

  /** The scan. */
  method Split(s: string) returns (out: seq<string>)
    ensures out == SplitTopLevel(s)
  {
    out := [];
    var depth := 0;
    var last := 0;
    var i := 0;
    CutsAscend(s, 0, 0);
    ghost var goal := SplitTopLevel(s);
    while i < |s|
      invariant last <= i <= |s| && depth == Depth(s, AllKinds, 0, i)
      invariant AscendingFrom(Cuts(s, i), last, |s|)
      invariant out + Slices(s, last, Cuts(s, i)) == goal
    {
      assert TopComma(s, i) <==> s[i] == ',' && depth == 0;
      SliceStep(s, last, i);
      if s[i] == '{' || s[i] == '(' || s[i] == '[' {
        depth := depth + 1;
      } else if s[i] == '}' || s[i] == ')' || s[i] == ']' {
        depth := depth - 1;
      } else if s[i] == ',' {
        if depth == 0 {
          Associative(out, [s[last..i]], Slices(s, i + 1, Cuts(s, i + 1)));
          out := out + [s[last..i]];
          last := i + 1;
        }
      }
      i := i + 1;
    }
    out := out + [s[last..]];
  }

  // ---- joining undoes splitting ----

  function JoinCommas(pieces: seq<string>): string {
    if |pieces| == 0 then ""
    else if |pieces| == 1 then pieces[0]
    else pieces[0] + "," + JoinCommas(pieces[1..])
  }

  lemma JoinCons(piece: string, rest: seq<string>)
    requires |rest| > 0
    ensures JoinCommas([piece] + rest) == piece + "," + JoinCommas(rest)
  {
    assert ([piece] + rest)[1..] == rest;
  }

  lemma {:induction false} SlicesJoin(s: string, last: nat, cuts: seq<nat>)
    requires last <= |s| && AscendingFrom(cuts, last, |s|)
    requires forall k :: 0 <= k < |cuts| ==> cuts[k] < |s| && s[cuts[k]] == ','
    ensures |Slices(s, last, cuts)| == |cuts| + 1
    ensures JoinCommas(Slices(s, last, cuts)) == s[last..]
    decreases |cuts|
  {
    if cuts != [] {
      var c := cuts[0];
      SlicesJoin(s, c + 1, cuts[1..]);
      JoinCons(s[last..c], Slices(s, c + 1, cuts[1..]));
      assert s[last..c] + "," + s[c + 1..] == s[last..];
    }
  }

  /** Joining the pieces with commas gives the list back. */
  lemma {:induction false} JoinUndoesSplit(s: string)
    ensures JoinCommas(SplitTopLevel(s)) == s
  {
    forall k | 0 <= k < |Cuts(s, 0)| ensures Cuts(s, 0)[k] < |s| && s[Cuts(s, 0)[k]] == ',' {
      CutsAreTheTopCommas(s, 0, Cuts(s, 0)[k]);
    }
    CutsAscend(s, 0, 0);
    SlicesJoin(s, 0, Cuts(s, 0));
    assert s[0..] == s;
  }

  // ---- the pieces ----

  /** No comma at depth 0. */
  ghost predicate OnePiece(s: string) {
    forall p: nat :: !TopComma(s, p)
  }

  /** s[lo..hi) lies between depth-0 positions and holds no top-level comma of s. */
  ghost predicate BetweenCuts(s: string, lo: nat, hi: nat) {
    && lo <= hi <= |s| && Depth(s, AllKinds, 0, lo) == 0
    && forall p: nat :: lo <= p < hi ==> !TopComma(s, p)
  }

  lemma {:induction false} SliceIsOnePiece(s: string, lo: nat, hi: nat)
    requires BetweenCuts(s, lo, hi)
    ensures OnePiece(s[lo..hi])
    ensures forall k :: 0 <= k <= hi - lo ==> Depth(s[lo..hi], AllKinds, 0, k) == Depth(s, AllKinds, 0, lo + k)
  {
    var t := s[lo..hi];
    forall k | 0 <= k <= hi - lo ensures Depth(t, AllKinds, 0, k) == Depth(s, AllKinds, 0, lo + k) {
      DepthShifts(t, s, AllKinds, 0, k, lo);
      DepthSplits(s, AllKinds, 0, lo, lo + k);
    }
    forall p: nat ensures !TopComma(t, p) {
      if p < |t| {
        assert !TopComma(s, lo + p);
      }
    }
  }

  /** Cuts(s, i) with every earlier comma from `last` on excluded. */
  lemma {:induction false} SlicesArePieces(s: string, last: nat, i: nat, k: nat)
    requires last <= i <= |s| && BetweenCuts(s, last, i)
    requires AscendingFrom(Cuts(s, i), last, |s|)
    requires k < |Slices(s, last, Cuts(s, i))|
    ensures OnePiece(Slices(s, last, Cuts(s, i))[k])
    ensures Balanced(s, AllKinds) ==> Balanced(Slices(s, last, Cuts(s, i))[k], AllKinds)
    decreases |s| - i
  {
    hide Slices, Cuts, OnePiece, Balanced;
    if i == |s| {
      LastSlice(s, last);
      WholeSlice(s, last, |s|);
      assert s[last..] == s[last..|s|];
    } else if TopComma(s, i) {
      SliceStep(s, last, i);
      if k == 0 {
        WholeSlice(s, last, i);
      } else {
        DepthAtComma(s, i);
        SlicesArePieces(s, i + 1, i + 1, k - 1);
      }
    } else {
      SliceStep(s, last, i);
      SlicesArePieces(s, last, i + 1, k);
    }
  }

  lemma LastSlice(s: string, last: nat)
    requires last <= |s|
    ensures Cuts(s, |s|) == [] && Slices(s, last, []) == [s[last..]]
  {
  }

  lemma WholeSlice(s: string, lo: nat, hi: nat)
    requires BetweenCuts(s, lo, hi)
    ensures OnePiece(s[lo..hi])
    ensures Balanced(s, AllKinds) && (hi == |s| || TopComma(s, hi)) ==> Balanced(s[lo..hi], AllKinds)
  {
    SliceIsOnePiece(s, lo, hi);
  }

  /** No piece has a top-level comma left, and the pieces of a balanced list are
      themselves balanced. */
  lemma {:induction false} PiecesAreWhole(s: string, k: nat)
    requires k < |SplitTopLevel(s)|
    ensures OnePiece(SplitTopLevel(s)[k])
    ensures Balanced(s, AllKinds) ==> Balanced(SplitTopLevel(s)[k], AllKinds)
  {
    CutsAscend(s, 0, 0);
    SlicesArePieces(s, 0, 0, k);
  }

  /** A piece is never longer than the list. */
  lemma {:induction false} SlicesAreShort(s: string, last: nat, cuts: seq<nat>, k: nat)
    requires last <= |s| && AscendingFrom(cuts, last, |s|)
    requires k < |Slices(s, last, cuts)|
    ensures |Slices(s, last, cuts)[k]| <= |s|
    decreases |cuts|
  {
    if cuts != [] && k > 0 {
      SlicesAreShort(s, cuts[0] + 1, cuts[1..], k - 1);
    }
  }

  lemma PiecesAreShort(s: string, k: nat)
    requires k < |SplitTopLevel(s)|
    ensures |SplitTopLevel(s)[k]| <= |s|
  {
    CutsAscend(s, 0, 0);
    SlicesAreShort(s, 0, Cuts(s, 0), k);
  }

  // ---- splitting undoes joining ----

  ghost predicate Pieces(pieces: seq<string>) {
    forall k :: 0 <= k < |pieces| ==> OnePiece(pieces[k]) && Depth(pieces[k], AllKinds, 0, |pieces[k]|) == 0
  }

  lemma {:induction false} CutsOfOnePiece(s: string, i: nat)
    requires OnePiece(s)
    ensures Cuts(s, i) == []
    decreases |s| - i
  {
    if i < |s| {
      assert !TopComma(s, i);
      CutsOfOnePiece(s, i + 1);
    }
  }

  function Shifted(cuts: seq<nat>, d: nat): (r: seq<nat>)
    ensures |r| == |cuts|
    ensures forall k :: 0 <= k < |cuts| ==> r[k] == cuts[k] + d
  {
    seq(|cuts|, k requires 0 <= k < |cuts| => cuts[k] + d)
  }

  lemma ShiftedCons(c: nat, cuts: seq<nat>, d: nat)
    ensures Shifted([c] + cuts, d) == [c + d] + Shifted(cuts, d)
  {
  }

  /** If s continues with `rest` at depth 0 from d on, its cuts from there on are
      those of rest. */
  lemma {:induction false} CutsOfRest(s: string, rest: string, d: nat, i: nat)
    requires |s| == |rest| + d && i <= |rest|
    requires forall k :: 0 <= k < |rest| ==> TopComma(rest, k) == TopComma(s, k + d)
    ensures Cuts(s, i + d) == Shifted(Cuts(rest, i), d)
    decreases |rest| - i
  {
    if i < |rest| {
      CutsOfRest(s, rest, d, i + 1);
      ShiftedCons(i, Cuts(rest, i + 1), d);
    }
  }

  lemma AroundComma(piece: string, rest: string)
    ensures var (s, d) := (piece + "," + rest, |piece| + 1);
            && |s| == d + |rest| && s[|piece|] == ','
            && (forall k :: 0 <= k < |piece| ==> piece[k] == s[k + 0])
            && forall k :: 0 <= k < |rest| ==> rest[k] == s[k + d]
  {
  }

  lemma DepthAtComma(s: string, k: nat)
    requires k < |s| && s[k] == ','
    ensures Depth(s, AllKinds, 0, k + 1) == Depth(s, AllKinds, 0, k)
  {
  }

  lemma {:induction false} DepthAfterPiece(piece: string, rest: string, i: nat)
    requires Depth(piece, AllKinds, 0, |piece|) == 0 && i <= |rest|
    ensures Depth(piece + "," + rest, AllKinds, 0, i + |piece| + 1) == Depth(rest, AllKinds, 0, i)
  {
    var s, d := piece + "," + rest, |piece| + 1;
    AroundComma(piece, rest);
    hide *;
    DepthShifts(piece, s, AllKinds, 0, |piece|, 0);
    DepthAtComma(s, |piece|);
    DepthSplits(s, AllKinds, 0, d, i + d);
    DepthShifts(rest, s, AllKinds, 0, i, d);
  }

  lemma {:induction false} CutsBeforeComma(piece: string, rest: string, i: nat)
    requires OnePiece(piece) && Depth(piece, AllKinds, 0, |piece|) == 0 && i <= |piece|
    ensures Cuts(piece + "," + rest, i) == [|piece|] + Cuts(piece + "," + rest, |piece| + 1)
    decreases |piece| - i
  {
    var s := piece + "," + rest;
    DepthShifts(piece, s, AllKinds, 0, i, 0);
    if i < |piece| {
      assert !TopComma(piece, i);
      CutsBeforeComma(piece, rest, i + 1);
    } else {
      assert TopComma(s, i);
    }
  }

  lemma {:induction false} SlicesOfShifted(s: string, t: string, last: nat, cuts: seq<nat>, d: nat)
    requires last <= |s| && AscendingFrom(cuts, last, |s|)
    requires |t| == |s| + d && t[d..] == s
    ensures AscendingFrom(Shifted(cuts, d), last + d, |t|)
    ensures Slices(t, last + d, Shifted(cuts, d)) == Slices(s, last, cuts)
    decreases |cuts|
  {
    assert forall k :: 0 <= k < |s| ==> s[k] == t[d..][k];
    if cuts == [] {
      assert t[last + d..] == s[last..];
    } else {
      SlicesOfShifted(s, t, cuts[0] + 1, cuts[1..], d);
      assert Shifted(cuts, d)[1..] == Shifted(cuts[1..], d);
      assert t[last + d..cuts[0] + d] == s[last..cuts[0]];
    }
  }

  lemma {:induction false} SplitsOffPiece(piece: string, rest: string)
    requires OnePiece(piece) && Depth(piece, AllKinds, 0, |piece|) == 0
    ensures SplitTopLevel(piece + "," + rest) == [piece] + SplitTopLevel(rest)
  {
    var s, d := piece + "," + rest, |piece| + 1;
    CutsBeforeComma(piece, rest, 0);
    forall k | 0 <= k < |rest| ensures TopComma(rest, k) == TopComma(s, k + d) {
      DepthAfterPiece(piece, rest, k);
    }
    CutsOfRest(s, rest, d, 0);
    CutsAtPiece(s, rest, |piece|);
    assert s[..|piece|] == piece;
  }

  lemma {:induction false} CutsAtPiece(s: string, rest: string, n: nat)
    requires n < |s| && s[n + 1..] == rest
    requires Cuts(s, 0) == [n] + Shifted(Cuts(rest, 0), n + 1)
    ensures SplitTopLevel(s) == [s[..n]] + SplitTopLevel(rest)
  {
    CutsAscend(rest, 0, 0);
    SlicesOfShifted(rest, s, 0, Cuts(rest, 0), n + 1);
    CutsAscend(s, 0, 0);
    assert Cuts(s, 0)[1..] == Shifted(Cuts(rest, 0), n + 1);
    assert s[0..n] == s[..n];
  }

  /** Splitting undoes joining, for pieces whose brackets cancel and that have no
      top-level comma. */
  lemma {:induction false} SplitUndoesJoin(pieces: seq<string>)
    requires |pieces| > 0 && Pieces(pieces)
    ensures SplitTopLevel(JoinCommas(pieces)) == pieces
  {
    if |pieces| == 1 {
      CutsOfOnePiece(pieces[0], 0);
      assert pieces[0][0..] == pieces[0];
    } else {
      SplitUndoesJoin(pieces[1..]);
      SplitsOffPiece(pieces[0], JoinCommas(pieces[1..]));
    }
  }
}
