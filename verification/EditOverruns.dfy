/** Lists of edits with ranges past the end of a line, from the sort on.

    EditClamps says when edits applied in a given bottom-up order do what LSP's defaulting of
    positions asks for; EditTies says when the order of edits at one start does not matter.
    Here both are put together, for a list of edits as it is received and for every order
    that the sort of internal/cmd/edit.go may leave it in. */
module EditOverruns {
  import opened Text
  import opened Edits
  import opened EditOrder
  import opened EditTies
  import opened EditClamps
  import opened Rearrangement

  /** Edits in the form LSP asks for once its positions are defaulted, none of which
      overruns a line it also starts on. */
  predicate WellFormed(lines: seq<string>, es: seq<Edit>) {
    && |lines| > 0 && AllOnLines(lines, es) && OverrunsAcrossLines(lines, es)
    && NonOverlapping(ClampedAll(lines, es)) && InsertionsFirst(ClampedAll(lines, es))
  }

  /** Whatever the unstable sort does, the lines end up as LSP says. */
  ghost predicate AlwaysMeansClamped(lines: seq<string>, es: seq<Edit>)
    requires AllOnLines(lines, es)
  {
    forall out :: SortOutcome(es, out) ==>
      AllUnsigned(out) && Join(AppliedAll(lines, out)) == Meaning(lines, ClampedAll(lines, es))
  }

  predicate StartsPast(lines: seq<string>, e: Edit)
    requires OnLines(lines, e)
  {
    e.start.character > |lines[e.start.line]|
  }

  /** Every replacement leaves alone what is inserted at its start.  One that starts past
      the end of its line does so in any case: the sort puts it in front. */
  predicate NoneSwallowed(lines: seq<string>, es: seq<Edit>)
    requires AllOnLines(lines, es)
  {
    forall k :: 0 <= k < |es| && !IsInsertion(es[k]) && !StartsPast(lines, es[k]) ==>
      SwallowsNothing(lines, es, es[k])
  }

  predicate SwallowsNothing(lines: seq<string>, es: seq<Edit>, r: Edit)
    requires OnLines(lines, r)
  {
    ClampedIsValid(lines, r);
    SwallowFree(lines, Texts(InsertionsAt(es, r.start)), Clamped(lines, r))
  }

  /** The edits leave no text between the end of an overrun line and its line break. */
  predicate NothingBehind(lines: seq<string>, es: seq<Edit>)
    requires AllOnLines(lines, es) && AllValid(lines, LatestFirst(ClampedAll(lines, es)))
  {
    forall k :: 0 <= k < |es| ==> ClearBehind(lines, LatestFirst(ClampedAll(lines, es)), es[k])
  }

  /** If e overruns a line, the applied edits have left nothing behind that line. */
  predicate ClearBehind(lines: seq<string>, applied: seq<Edit>, e: Edit)
    requires AllValid(lines, applied) && OnLines(lines, e)
  {
    Overruns(lines, e) ==> After(lines, applied, EndOfLine(lines, e.end.line)) == ""
  }

  // ---- rearrangements of the edits and of their clamped forms ----

  lemma OnLinesRearranged(lines: seq<string>, es: seq<Edit>, out: seq<Edit>)
    requires AllOnLines(lines, es) && multiset(es) == multiset(out)
    ensures AllOnLines(lines, out) && AllUnsigned(out)
    ensures OverrunsAcrossLines(lines, es) ==> OverrunsAcrossLines(lines, out)
  {
    forall k | 0 <= k < |out|
      ensures OnLines(lines, out[k])
      ensures OverrunsAcrossLines(lines, es) && Overruns(lines, out[k]) ==> out[k].start.line < out[k].end.line
    {
      assert out[k] in multiset(out);
      var i := MultisetIndex(es, out[k]);
    }
  }

  lemma {:induction false} ClampedRearranged(lines: seq<string>, es: seq<Edit>, out: seq<Edit>)
    requires AllOnLines(lines, es) && AllOnLines(lines, out) && multiset(es) == multiset(out)
    ensures multiset(ClampedAll(lines, es)) == multiset(ClampedAll(lines, out))
    decreases |es|
  {
    if es == [] {
      assert |multiset(out)| == 0;
    } else {
      var k := FindAndRemove(es, out);
      ClampedWithout(lines, out, k);
      ClampedWithout(lines, es, 0);
      assert Without(es, 0) == es[1..];
      ClampedRearranged(lines, es[1..], Without(out, k));
      MultisetWithout(ClampedAll(lines, out), k);
      MultisetWithout(ClampedAll(lines, es), 0);
    }
  }

  lemma ClampedWithout(lines: seq<string>, es: seq<Edit>, k: nat)
    requires AllOnLines(lines, es) && k < |es|
    ensures AllOnLines(lines, Without(es, k))
    ensures Without(ClampedAll(lines, es), k) == ClampedAll(lines, Without(es, k))
  {
    hide OnLines, Clamped;
    assert forall i :: 0 <= i < |es| - 1 ==> Without(es, k)[i] == es[if i < k then i else i + 1];
  }

  lemma LiftCons(lines: seq<string>, es: seq<Edit>, k: nat, rest: seq<Edit>)
    requires AllOnLines(lines, es) && k < |es| && multiset(rest) == multiset(Without(es, k))
    requires AllOnLines(lines, rest)
    ensures multiset([es[k]] + rest) == multiset(es) && AllOnLines(lines, [es[k]] + rest)
    ensures ClampedAll(lines, es)[k] == Clamped(lines, es[k])
    ensures ClampedAll(lines, [es[k]] + rest) == [Clamped(lines, es[k])] + ClampedAll(lines, rest)
  {
    hide Clamped;
    MultisetWithout(es, k);
    assert AllOnLines(lines, [es[k]] + rest);
  }

  /** Every order of the clamped edits is the clamped form of an order of the edits. */
  lemma {:induction false} Lifted(lines: seq<string>, es: seq<Edit>, clamped: seq<Edit>) returns (out: seq<Edit>)
    requires AllOnLines(lines, es) && multiset(clamped) == multiset(ClampedAll(lines, es))
    ensures multiset(out) == multiset(es) && AllOnLines(lines, out) && ClampedAll(lines, out) == clamped
    decreases |clamped|
  {
    hide Clamped, OnLines, Without;
    if clamped == [] {
      assert |multiset(ClampedAll(lines, es))| == 0;
      out := [];
    } else {
      var k := FindAndRemove(clamped, ClampedAll(lines, es));
      ClampedWithout(lines, es, k);
      var rest := Lifted(lines, Without(es, k), clamped[1..]);
      LiftCons(lines, es, k, rest);
      out := [es[k]] + rest;
      assert clamped == [clamped[0]] + clamped[1..];
    }
  }

  /** Clamped edits in bottom-up order come from edits in an order the sort may leave. */
  lemma PairSorts(lines: seq<string>, e: Edit, f: Edit)
    requires OnLines(lines, e) && OnLines(lines, f) && (Overruns(lines, f) ==> f.start.line < f.end.line)
    requires AtOrBefore(Clamped(lines, f).end, Clamped(lines, e).start)
    ensures AtOrBefore(f.start, e.start)
  {
  }

  lemma LiftSorts(lines: seq<string>, out: seq<Edit>)
    requires AllOnLines(lines, out) && OverrunsAcrossLines(lines, out) && BottomUp(ClampedAll(lines, out))
    ensures SortedBottomUp(out)
  {
    hide Clamped, AtOrBefore;
    forall i, j | 0 <= i < j < |out| ensures AtOrBefore(out[j].start, out[i].start) {
      assert AtOrBefore(ClampedAll(lines, out)[j].end, ClampedAll(lines, out)[i].start);
      PairSorts(lines, out[i], out[j]);
    }
  }

  // ---- the order in which ties are reversed ----

  /** e and f are ordered as their clamped forms are. */
  predicate OrderedAlike(lines: seq<string>, e: Edit, f: Edit)
    requires OnLines(lines, e) && OnLines(lines, f)
  {
    AtOrBefore(e.start, f.start) <==> AtOrBefore(Clamped(lines, e).start, Clamped(lines, f).start)
  }

  /** f, listed after e, starts elsewhere once clamped, or e is an insertion. */
  predicate MayFollow(lines: seq<string>, e: Edit, f: Edit)
    requires OnLines(lines, e) && OnLines(lines, f)
  {
    Clamped(lines, e).start == Clamped(lines, f).start ==> IsInsertion(Clamped(lines, e))
  }

  lemma SameOrder(lines: seq<string>, e: Edit, f: Edit)
    requires OnLines(lines, e) && OnLines(lines, f) && MayFollow(lines, e, f)
    requires Overruns(lines, e) ==> e.start.line < e.end.line
    ensures OrderedAlike(lines, e, f)
  {
  }

  lemma {:induction false} SamePlace(lines: seq<string>, e: Edit, s: seq<Edit>)
    requires OnLines(lines, e) && AllOnLines(lines, s)
    requires forall j :: 0 <= j < |s| ==> OrderedAlike(lines, e, s[j])
    ensures Place(Clamped(lines, e), ClampedAll(lines, s)) == Place(e, s)
  {
    hide AtOrBefore, Clamped;
    var c, all := Clamped(lines, e), ClampedAll(lines, s);
    forall j | 0 <= j < |s| ensures AtOrBefore(e.start, s[j].start) <==> AtOrBefore(c.start, all[j].start) {
      assert OrderedAlike(lines, e, s[j]);
    }
  }

  lemma ClampedRest(lines: seq<string>, es: seq<Edit>)
    requires AllOnLines(lines, es) && es != []
    ensures AllOnLines(lines, es[1..]) && ClampedAll(lines, es)[1..] == ClampedAll(lines, es[1..])
    ensures OverrunsAcrossLines(lines, es) ==> OverrunsAcrossLines(lines, es[1..])
  {
    hide Clamped, OnLines, Overruns;
    forall k | 0 <= k < |es[1..]| ensures OnLines(lines, es[1..][k]) && es[1..][k] == es[k + 1] {
    }
  }

  lemma RestInForm(all: seq<Edit>)
    requires NonOverlapping(all) && InsertionsFirst(all) && all != []
    ensures NonOverlapping(all[1..]) && InsertionsFirst(all[1..])
    ensures forall f :: f in all[1..] && all[0].start == f.start ==> IsInsertion(all[0])
  {
    hide AtOrBefore;
    assert forall i :: 0 <= i < |all[1..]| ==> all[1..][i] == all[i + 1];
  }

  lemma FormOfRest(lines: seq<string>, es: seq<Edit>)
    requires WellFormed(lines, es) && es != []
    ensures WellFormed(lines, es[1..]) && ClampedAll(lines, es)[1..] == ClampedAll(lines, es[1..])
    ensures OnLines(lines, es[0]) && (Overruns(lines, es[0]) ==> es[0].start.line < es[0].end.line)
    ensures forall f :: f in es[1..] ==> OnLines(lines, f) && MayFollow(lines, es[0], f)
  {
    hide Clamped, Overruns, InsertionsFirst, NonOverlapping, OnLines;
    var all, rest := ClampedAll(lines, es), ClampedAll(lines, es[1..]);
    ClampedRest(lines, es);
    RestInForm(all);
    forall f | f in es[1..] ensures OnLines(lines, f) && MayFollow(lines, es[0], f) {
      var i :| 0 <= i < |es[1..]| && es[1..][i] == f;
      assert rest[i] in all[1..];
    }
  }

  /** The order the sort could leave in which ties are reversed is LSP's for the clamped
      edits. */
  lemma {:induction false} LatestFirstClamped(lines: seq<string>, es: seq<Edit>)
    requires WellFormed(lines, es)
    ensures AllOnLines(lines, LatestFirst(es)) && OverrunsAcrossLines(lines, LatestFirst(es))
    ensures ClampedAll(lines, LatestFirst(es)) == LatestFirst(ClampedAll(lines, es))
  {
    FormHolds(lines, es);
    LatestFirstIsOutcome(es);
    OnLinesRearranged(lines, es, LatestFirst(es));
    if es != [] {
      hide *;
      FormOfRest(lines, es);
      LatestFirstClamped(lines, es[1..]);
      RestOrderedAlike(lines, es, LatestFirst(es[1..]));
      SamePlace(lines, es[0], LatestFirst(es[1..]));
      LatestFirstCons(es);
      LatestFirstCons(ClampedAll(lines, es));
      PlacedClamped(lines, es[0], LatestFirst(es[1..]));
    }
  }

  lemma LatestFirstCons(es: seq<Edit>)
    requires es != []
    ensures LatestFirst(es) == Placed(es[0], LatestFirst(es[1..]))
  {
  }

  lemma {:induction false} RestOrderedAlike(lines: seq<string>, es: seq<Edit>, rest: seq<Edit>)
    requires WellFormed(lines, es) && es != [] && rest == LatestFirst(es[1..]) && AllOnLines(lines, rest)
    ensures OnLines(lines, es[0]) && forall j :: 0 <= j < |rest| ==> OrderedAlike(lines, es[0], rest[j])
  {
    FormOfRest(lines, es);
    LatestFirstIsOutcome(es[1..]);
    hide WellFormed, OnLines, Clamped, AtOrBefore, LatestFirst, OrderedAlike, MayFollow;
    forall j | 0 <= j < |rest| ensures OrderedAlike(lines, es[0], rest[j]) {
      assert rest[j] in multiset(rest) && rest[j] in es[1..];
      SameOrder(lines, es[0], rest[j]);
    }
  }

  lemma FormHolds(lines: seq<string>, es: seq<Edit>)
    requires WellFormed(lines, es)
    ensures |lines| > 0 && AllOnLines(lines, es) && OverrunsAcrossLines(lines, es)
    ensures NonOverlapping(ClampedAll(lines, es)) && InsertionsFirst(ClampedAll(lines, es))
  {
  }

  lemma OnLinesConcat(lines: seq<string>, a: seq<Edit>, b: seq<Edit>)
    requires AllOnLines(lines, a + b)
    ensures AllOnLines(lines, a) && AllOnLines(lines, b)
    ensures OverrunsAcrossLines(lines, a + b) ==> OverrunsAcrossLines(lines, a) && OverrunsAcrossLines(lines, b)
  {
    hide OnLines, Overruns;
    var all := a + b;
    forall k | 0 <= k < |a|
      ensures OnLines(lines, a[k])
      ensures OverrunsAcrossLines(lines, all) && Overruns(lines, a[k]) ==> a[k].start.line < a[k].end.line
    {
      assert all[k] == a[k];
    }
    forall k | 0 <= k < |b|
      ensures OnLines(lines, b[k])
      ensures OverrunsAcrossLines(lines, all) && Overruns(lines, b[k]) ==> b[k].start.line < b[k].end.line
    {
      assert all[|a| + k] == b[k];
    }
  }

  /** Clamping goes part by part. */
  lemma ClampedConcat(lines: seq<string>, a: seq<Edit>, b: seq<Edit>)
    requires AllOnLines(lines, a + b)
    ensures AllOnLines(lines, a) && AllOnLines(lines, b)
    ensures ClampedAll(lines, a + b) == ClampedAll(lines, a) + ClampedAll(lines, b)
    ensures OverrunsAcrossLines(lines, a + b) ==> OverrunsAcrossLines(lines, a) && OverrunsAcrossLines(lines, b)
  {
    hide Clamped, OverrunsAcrossLines, AllOnLines;
    OnLinesConcat(lines, a, b);
    var all, parts := ClampedAll(lines, a + b), ClampedAll(lines, a) + ClampedAll(lines, b);
    forall k | 0 <= k < |a + b| ensures all[k] == parts[k] {
      assert (a + b)[k] == if k < |a| then a[k] else b[k - |a|];
    }
  }

  lemma ClampedOne(lines: seq<string>, e: Edit)
    requires OnLines(lines, e)
    ensures AllOnLines(lines, [e]) && ClampedAll(lines, [e]) == [Clamped(lines, e)]
  {
    hide Clamped;
  }

  lemma PlacedClamped(lines: seq<string>, e: Edit, s: seq<Edit>)
    requires OnLines(lines, e) && AllOnLines(lines, s)
    requires Place(Clamped(lines, e), ClampedAll(lines, s)) == Place(e, s)
    requires AllOnLines(lines, Placed(e, s))
    ensures ClampedAll(lines, Placed(e, s)) == Placed(Clamped(lines, e), ClampedAll(lines, s))
  {
    hide Clamped, AtOrBefore, Place;
  }

  // ---- the text behind a line ----

  /** Edits on earlier lines leave the rest of a line alone. */
  lemma {:induction false} AfterSkips(lines: seq<string>, es: seq<Edit>, p: Position, k: nat)
    requires ValidPosition(lines, p) && AllValid(lines, es) && k <= |es|
    requires forall i :: k <= i < |es| ==> es[i].start.line < p.line
    ensures After(lines, es, p) == After(lines, es[..k], p)
    decreases |es|
  {
    if k < |es| {
      AfterSkips(lines, es[..|es| - 1], p, k);
      assert es[..|es| - 1][..k] == es[..k];
    } else {
      assert es[..k] == es;
    }
  }

  /** What stands behind an overrun line in the end stands there when the overrun edit is
      applied. */
  lemma {:induction false} BehindInTheEnd(lines: seq<string>, es: seq<Edit>, k: nat)
    requires AllOnLines(lines, es) && OverrunsAcrossLines(lines, es) && BottomUp(ClampedAll(lines, es))
    requires k < |es| && Overruns(lines, es[k])
    ensures Behind(lines, es, k) == After(lines, ClampedAll(lines, es), EndOfLine(lines, es[k].end.line))
  {
    hide After, OnLines;
    var all := ClampedAll(lines, es);
    ClampedIsValid(lines, es[k]);
    assert OnLines(lines, es[k]);
    forall i | k <= i < |es| ensures all[i].start.line < es[k].end.line {
      assert i > k ==> AtOrBefore(all[i].end, all[k].start);
      assert ValidEdit(lines, all[i]);
    }
    AfterSkips(lines, all, EndOfLine(lines, es[k].end.line), k);
    assert all[..k] == ClampedAll(lines, es[..k]);
  }

  lemma {:induction false} HarmlessWhenClear(lines: seq<string>, out: seq<Edit>)
    requires AllOnLines(lines, out) && OverrunsAcrossLines(lines, out) && BottomUp(ClampedAll(lines, out))
    ensures AllHarmless(lines, out)
       <==> forall k :: 0 <= k < |out| ==> ClearBehind(lines, ClampedAll(lines, out), out[k])
  {
    hide After, Clamped, BottomUp, Behind;
    forall k | 0 <= k < |out|
      ensures (Overruns(lines, out[k]) ==> Harmless(lines, Behind(lines, out, k), out[k]))
         <==> ClearBehind(lines, ClampedAll(lines, out), out[k])
    {
      if Overruns(lines, out[k]) {
        BehindInTheEnd(lines, out, k);
      }
    }
  }

  lemma ClearTransfers(lines: seq<string>, applied: seq<Edit>, es: seq<Edit>, out: seq<Edit>)
    requires AllOnLines(lines, es) && AllOnLines(lines, out) && AllValid(lines, applied)
    requires (forall k :: 0 <= k < |es| ==> es[k] in out) && forall k :: 0 <= k < |out| ==> out[k] in es
    ensures (forall k :: 0 <= k < |es| ==> ClearBehind(lines, applied, es[k]))
       <==> (forall k :: 0 <= k < |out| ==> ClearBehind(lines, applied, out[k]))
  {
    hide ClearBehind, AllValid;
    if forall k :: 0 <= k < |es| ==> ClearBehind(lines, applied, es[k]) {
      forall k | 0 <= k < |out| ensures ClearBehind(lines, applied, out[k]) {
        assert out[k] in es;
        var i :| 0 <= i < |es| && es[i] == out[k];
      }
    }
    if forall k :: 0 <= k < |out| ==> ClearBehind(lines, applied, out[k]) {
      forall k | 0 <= k < |es| ensures ClearBehind(lines, applied, es[k]) {
        assert es[k] in out;
        var i :| 0 <= i < |out| && out[i] == es[k];
      }
    }
  }

  lemma {:induction false} HarmlessExactlyWhen(lines: seq<string>, es: seq<Edit>)
    requires WellFormed(lines, es)
    ensures AllOnLines(lines, LatestFirst(es)) && AllValid(lines, LatestFirst(ClampedAll(lines, es)))
    ensures AllHarmless(lines, LatestFirst(es)) <==> NothingBehind(lines, es)
  {
    FormHolds(lines, es);
    LatestFirstClamped(lines, es);
    LatestFirstIsOutcome(es);
    LatestFirstIsBottomUp(lines, ClampedAll(lines, es));
    SameMembers(es, LatestFirst(es));
    hide LatestFirst, OnLines, Clamped, BottomUp, WellFormed, AllHarmless, ClearBehind, SortOutcome, AllOnLines;
    hide OverrunsAcrossLines, NonOverlapping, InsertionsFirst;
    HarmlessWhenClear(lines, LatestFirst(es));
    ClearTransfers(lines, LatestFirst(ClampedAll(lines, es)), es, LatestFirst(es));
  }

  lemma SameMembers(es: seq<Edit>, out: seq<Edit>)
    requires SortOutcome(es, out)
    ensures forall k :: 0 <= k < |es| ==> es[k] in out
    ensures forall k :: 0 <= k < |out| ==> out[k] in es
  {
    forall k | 0 <= k < |es| ensures es[k] in out {
      assert es[k] in multiset(es);
    }
    forall k | 0 <= k < |out| ensures out[k] in es {
      assert out[k] in multiset(out);
    }
  }

  /** With ties reversed the text is LSP's if and only if nothing is left behind an
      overrun line. */
  lemma {:induction false} LatestFirstExactlyWhen(lines: seq<string>, es: seq<Edit>)
    requires WellFormed(lines, es)
    ensures AllValid(lines, LatestFirst(ClampedAll(lines, es)))
    ensures SortOutcome(es, LatestFirst(es)) && AllUnsigned(LatestFirst(es))
    ensures Join(AppliedAll(lines, LatestFirst(es))) == Meaning(lines, ClampedAll(lines, es))
       <==> NothingBehind(lines, es)
  {
    FormHolds(lines, es);
    hide *;
    LatestFirstIsOutcome(es);
    LatestFirstClamped(lines, es);
    LatestFirstIsBottomUp(lines, ClampedAll(lines, es));
    LatestFirstMeansLSP(lines, ClampedAll(lines, es));
    HarmlessExactlyWhen(lines, es);
    ClampsAllExactlyWhen(lines, LatestFirst(es));
  }

  // ---- the order of edits that share a start ----

  /** An insertion does not start past its line. */
  lemma InsertionStays(lines: seq<string>, e: Edit)
    requires OnLines(lines, e) && IsInsertion(e) && (Overruns(lines, e) ==> e.start.line < e.end.line)
    ensures ValidPosition(lines, e.start) && Clamped(lines, e) == e
  {
  }

  /** What is inserted in front of a replacement at one start survives it. */
  lemma {:induction false} PartOfTie(lines: seq<string>, es: seq<Edit>, a: seq<Edit>, r: Edit)
    requires AllOnLines(lines, es) && InsertionsCommute(es) && NoneSwallowed(lines, es)
    requires r in es && !IsInsertion(r) && OnLines(lines, r) && !StartsPast(lines, r)
    requires multiset(a) <= multiset(es)
    requires forall e :: e in a ==> IsInsertion(e) && e.start == r.start
    ensures ValidEdit(lines, Clamped(lines, r)) && Clamped(lines, r).start == r.start
    ensures SwallowFree(lines, Texts(Reversed(a)), Clamped(lines, r))
  {
    hide SwallowFree, Texts, InsertionsCommute;
    var k :| 0 <= k < |es| && es[k] == r;
    assert SwallowsNothing(lines, es, es[k]);
    assert a[..|a|] == a;
    PartOfInsertions(es, a, |a|, r.start);
    InsertionsTextsCommute(es, r.start);
    ClampedIsValid(lines, r);
    PartSurvives(lines, InsertionsAt(es, r.start), Reversed(a), Clamped(lines, r));
  }

  lemma {:induction false} NothingInserted(cur: seq<string>, a: seq<Edit>, q: Position)
    requires ValidPosition(cur, q) && Texts(Reversed(a)) == ""
    requires forall e :: e in a ==> IsInsertion(e) && e.start == q
    ensures AllUnsigned(a) && AppliedAll(cur, a) == cur
  {
    InsertionsMerge(cur, a, q);
    InsertNothing(cur, q);
  }

  lemma {:induction false} SwapsInFront(cur: seq<string>, lines: seq<string>, es: seq<Edit>, a: seq<Edit>, r: Edit,
                                        p: Position)
    requires AllOnLines(lines, es) && InsertionsCommute(es) && NoneSwallowed(lines, es)
    requires r in es && !IsInsertion(r) && OnLines(lines, r) && !StartsPast(lines, r)
    requires Overruns(lines, r) ==> r.start.line < r.end.line
    requires multiset(a) <= multiset(es)
    requires forall e :: e in a ==> IsInsertion(e) && e.start == r.start
    requires AgreeBefore(cur, lines, p) && AtOrBefore(Clamped(lines, r).end, p)
    ensures AllUnsigned(a + [r]) && AllUnsigned([r] + a)
    ensures AppliedAll(cur, a + [r]) == AppliedAll(cur, [r] + a)
  {
    PartOfTie(lines, es, a, r);
    var c, q := Clamped(lines, r), r.start;
    ClampedIsValid(lines, r);
    AgreeEarlier(cur, lines, p, c.end);
    AgreeEarlier(cur, lines, c.end, q);
    hide InsertionsCommute, NoneSwallowed, Applied, Texts, AllOnLines;
    if r.start.line == r.end.line {
      GroupApplies(cur, lines, a, r);
    } else {
      assert Texts(Reversed(a)) == "";
      KeepsBefore(cur, lines, q, r);
      AgreeEarlier(Applied(cur, r), lines, q, q);
      hide SwallowFree, AgreeBefore, AtOrBefore;
      NothingInserted(cur, a, q);
      NothingInserted(Applied(cur, r), a, q);
      assert AllUnsigned([r]);
      AppliedAllConcat(cur, a, [r]);
      AppliedAllConcat(cur, [r], a);
      OneEdit(cur, r);
    }
  }

  /** Edits on existing lines that start at q, at most one of them a replacement. */
  predicate Group(lines: seq<string>, g: seq<Edit>, q: Position) {
    && AllOnLines(lines, g) && OverrunsAcrossLines(lines, g)
    && (forall k :: 0 <= k < |g| ==> g[k].start == q)
    && forall i, j :: 0 <= i < j < |g| ==> IsInsertion(g[i]) || IsInsertion(g[j])
  }

  predicate AllInsertions(g: seq<Edit>, q: Position) {
    forall e :: e in g ==> IsInsertion(e) && e.start == q
  }

  lemma {:induction false} SameTexts(es: seq<Edit>, g: seq<Edit>, h: seq<Edit>, q: Position)
    requires InsertionsCommute(es) && multiset(g) == multiset(h) && multiset(h) <= multiset(es)
    requires AllInsertions(h, q)
    ensures Texts(Reversed(g)) == Texts(Reversed(h))
  {
    hide Texts, InsertionsCommute, Reversed, InsertionsAt;
    ReversedIsRearranged(g);
    ReversedIsRearranged(h);
    assert h[..|h|] == h;
    PartOfInsertions(es, h, |h|, q);
    InsertionsTextsCommute(es, q);
    var at := InsertionsAt(es, q);
    forall e | e in Reversed(h) ensures e in at {
      assert e in multiset(Reversed(h)) && e in multiset(at);
    }
    TextsRearranged(Reversed(g), Reversed(h));
  }

  /** The order of insertions at one position does not matter. */
  lemma {:induction false} SameInsertions(cur: seq<string>, es: seq<Edit>, g: seq<Edit>, h: seq<Edit>, q: Position)
    requires InsertionsCommute(es) && multiset(g) == multiset(h) && multiset(h) <= multiset(es)
    requires AllInsertions(g, q) && AllInsertions(h, q) && (h != [] ==> ValidPosition(cur, q))
    ensures AllUnsigned(g) && AllUnsigned(h) && AppliedAll(cur, g) == AppliedAll(cur, h)
  {
    hide Texts, InsertionsCommute, Applied, AppliedAll, Reversed;
    if h == [] {
      assert |multiset(g)| == 0;
    } else {
      SameTexts(es, g, h, q);
      InsertionsMerge(cur, g, q);
      InsertionsMerge(cur, h, q);
    }
  }

  lemma {:induction false} GroupParts(lines: seq<string>, g: seq<Edit>, k: nat, q: Position)
    requires Group(lines, g, q) && k < |g| && !IsInsertion(g[k])
    ensures AllInsertions(g[..k], q) && AllInsertions(g[k + 1..], q) && AllInsertions(Without(g, k), q)
    ensures |g| > 1 ==> ValidPosition(lines, q)
  {
    hide OnLines, Overruns;
    forall i | 0 <= i < |g| && i != k ensures IsInsertion(g[i]) {
    }
    var rest, others := g[k + 1..], Without(g, k);
    assert forall i :: 0 <= i < |rest| ==> rest[i] == g[k + 1 + i];
    assert forall i :: 0 <= i < |others| ==> others[i] == g[if i < k then i else i + 1];
    if |g| > 1 {
      var i := if k == 0 then 1 else 0;
      assert OnLines(lines, g[i]);
      InsertionStays(lines, g[i]);
    }
  }

  /** The replacement of a group may be applied first. */
  lemma {:induction false} ReplacementFirst(cur: seq<string>, lines: seq<string>, es: seq<Edit>, g: seq<Edit>, k: nat,
                                            q: Position, p: Position)
    requires AllOnLines(lines, es) && InsertionsCommute(es) && NoneSwallowed(lines, es)
    requires Group(lines, g, q) && multiset(g) <= multiset(es) && k < |g| && !IsInsertion(g[k])
    requires OnLines(lines, g[k]) && AgreeBefore(cur, lines, p) && AtOrBefore(Clamped(lines, g[k]).end, p)
    ensures AllUnsigned(g) && AllUnsigned(Without(g, k))
    ensures AppliedAll(cur, g) == AppliedAll(Applied(cur, g[k]), Without(g, k))
  {
    hide *;
    var a, r, b := g[..k], g[k], g[k + 1..];
    GroupParts(lines, g, k, q);
    GroupSplits(lines, g, k, q);
    UnsignedNeverPanics(cur, r);
    if a == [] {
      assert a + [r] == [r] + a;
    } else {
      assert r in es && multiset(a) <= multiset(es);
      SwapsInFront(cur, lines, es, a, r, p);
    }
    AppliedAllConcat(cur, a + [r], b);
    AppliedAllConcat(cur, [r] + a, b);
    AppliedAllConcat(cur, [r], a);
    OneEdit(cur, r);
    AppliedAllConcat(Applied(cur, r), a, b);
  }

  lemma {:induction false} GroupSplits(lines: seq<string>, g: seq<Edit>, k: nat, q: Position)
    requires Group(lines, g, q) && k < |g| && !IsInsertion(g[k])
    ensures g == (g[..k] + [g[k]]) + g[k + 1..] && Without(g, k) == g[..k] + g[k + 1..]
    ensures multiset(g[..k]) <= multiset(g) && g[k] in multiset(g)
    ensures AllUnsigned(g[..k]) && AllUnsigned(g[k + 1..]) && AllUnsigned([g[k]]) && OnLines(lines, g[k])
    ensures AllUnsigned(g[..k] + [g[k]]) && AllUnsigned([g[k]] + g[..k]) && AllUnsigned(g) && AllUnsigned(Without(g, k))
    ensures g[k].start == q && Unsigned(g[k]) && (Overruns(lines, g[k]) ==> g[k].start.line < g[k].end.line)
    ensures g[..k] != [] ==> !StartsPast(lines, g[k])
    ensures forall e :: e in g[..k] ==> IsInsertion(e) && e.start == g[k].start
  {
    GroupParts(lines, g, k, q);
    hide Overruns;
    assert g == (g[..k] + [g[k]]) + g[k + 1..];
    assert forall i :: 0 <= i < |g| ==> OnLines(lines, g[i]);
  }

  predicate EndsBy(lines: seq<string>, e: Edit, p: Position) {
    OnLines(lines, e) && AtOrBefore(Clamped(lines, e).end, p)
  }

  predicate AllEndBy(lines: seq<string>, s: seq<Edit>, p: Position) {
    forall e :: e in s ==> EndsBy(lines, e, p)
  }

  /** Two orders of a group do the same. */
  lemma {:induction false} GroupsAgree(cur: seq<string>, lines: seq<string>, es: seq<Edit>, g: seq<Edit>, h: seq<Edit>,
                                       q: Position, p: Position)
    requires AllOnLines(lines, es) && InsertionsCommute(es) && NoneSwallowed(lines, es)
    requires Group(lines, g, q) && Group(lines, h, q) && multiset(g) == multiset(h) && multiset(g) <= multiset(es)
    requires AgreeBefore(cur, lines, p) && AllEndBy(lines, g, p)
    ensures AllUnsigned(g) && AllUnsigned(h) && AppliedAll(cur, g) == AppliedAll(cur, h)
  {
    hide InsertionsCommute, NoneSwallowed, Applied, AgreeBefore, OnLines, AtOrBefore;
    if k :| 0 <= k < |g| && !IsInsertion(g[k]) {
      var r := g[k];
      assert r in multiset(h);
      var i := MultisetIndex(h, r);
      GroupParts(lines, g, k, q);
      GroupParts(lines, h, i, q);
      SameWithout(g, k, h, i);
      assert r in g;
      ReplacementFirst(cur, lines, es, g, k, q, p);
      ReplacementFirst(cur, lines, es, h, i, q, p);
      MultisetWithout(h, i);
      assert |g| == |h| by { assert |multiset(g)| == |multiset(h)|; }
      AfterReplacement(cur, lines, r, q, p);
      SameInsertions(Applied(cur, r), es, Without(g, k), Without(h, i), q);
    } else {
      AllOfGroup(lines, g, h, q);
      if g != [] {
        InsertionStays(lines, g[0]);
        assert g[0] in g;
        AtEnd(cur, lines, q, p);
      }
      SameInsertions(cur, es, g, h, q);
    }
  }

  lemma AfterReplacement(cur: seq<string>, lines: seq<string>, r: Edit, q: Position, p: Position)
    requires OnLines(lines, r) && AgreeBefore(cur, lines, p) && AtOrBefore(Clamped(lines, r).end, p) && r.start == q
    ensures ValidPosition(lines, q) ==> ValidPosition(Applied(cur, r), q)
  {
    if ValidPosition(lines, q) {
      ClampedIsValid(lines, r);
      AgreeEarlier(cur, lines, p, Clamped(lines, r).end);
      AgreeEarlier(cur, lines, Clamped(lines, r).end, q);
      KeepsBefore(cur, lines, q, r);
    }
  }

  lemma AtEnd(cur: seq<string>, lines: seq<string>, q: Position, p: Position)
    requires AgreeBefore(cur, lines, p) && ValidPosition(lines, q) && AtOrBefore(q, p)
    ensures ValidPosition(cur, q)
  {
    AgreeEarlier(cur, lines, p, q);
  }

  lemma AllOfGroup(lines: seq<string>, g: seq<Edit>, h: seq<Edit>, q: Position)
    requires Group(lines, g, q) && multiset(g) == multiset(h)
    requires forall k :: 0 <= k < |g| ==> IsInsertion(g[k])
    ensures AllInsertions(g, q) && AllInsertions(h, q)
    ensures g == [] <==> h == []
  {
    forall e | e in h ensures e in g {
      assert e in multiset(h) && e in multiset(g);
    }
    assert |multiset(g)| == |multiset(h)|;
  }

  // ---- two orders the sort may leave ----

  /** How many edits at the front start at q. */
  function Ties(s: seq<Edit>, q: Position): (n: nat)
    ensures n <= |s| && (n < |s| ==> s[n].start != q)
    ensures forall i :: 0 <= i < n ==> s[i].start == q
  {
    if s == [] || s[0].start != q then 0 else 1 + Ties(s[1..], q)
  }

  /** In sorted order the edits that start where the first does stand at the front. */
  lemma {:induction false} FrontGroup(s: seq<Edit>, q: Position)
    requires SortedBottomUp(s) && forall i :: 0 <= i < |s| ==> AtOrBefore(s[i].start, q)
    ensures s == s[..Ties(s, q)] + s[Ties(s, q)..]
    ensures forall e :: e in s[Ties(s, q)..] ==> e.start != q && AtOrBefore(e.start, q)
  {
    var n := Ties(s, q);
    var rest := s[n..];
    forall e | e in rest ensures e.start != q && AtOrBefore(e.start, q) {
      var i :| 0 <= i < |rest| && rest[i] == e;
      assert s[n + i] == e && (i > 0 ==> AtOrBefore(s[n + i].start, s[n].start));
    }
  }

  lemma {:induction false} StartCount(a: seq<Edit>, b: seq<Edit>, q: Position, e: Edit)
    requires (forall k :: 0 <= k < |a| ==> a[k].start == q) && forall f :: f in b ==> f.start != q
    ensures multiset(a)[e] == if e.start == q then multiset(a + b)[e] else 0
  {
    if e.start == q {
      assert e !in b && e !in multiset(b);
    } else {
      assert e !in a && e !in multiset(a);
    }
  }

  /** Lists with the same edits have the same edits at q. */
  lemma {:induction false} SameAtStart(a: seq<Edit>, b: seq<Edit>, c: seq<Edit>, d: seq<Edit>, q: Position)
    requires multiset(a + b) == multiset(c + d)
    requires (forall k :: 0 <= k < |a| ==> a[k].start == q) && forall f :: f in b ==> f.start != q
    requires (forall k :: 0 <= k < |c| ==> c[k].start == q) && forall f :: f in d ==> f.start != q
    ensures multiset(a) == multiset(c) && multiset(b) == multiset(d)
    ensures multiset(a) <= multiset(a + b) && multiset(b) <= multiset(a + b)
  {
    forall e ensures multiset(a)[e] == multiset(c)[e] {
      StartCount(a, b, q, e);
      StartCount(c, d, q, e);
    }
    assert multiset(a) == multiset(c);
    assert multiset(b) == multiset(a + b) - multiset(a);
    assert multiset(d) == multiset(c + d) - multiset(c);
  }

  lemma {:induction false} FirstIsLast(s: seq<Edit>, t: seq<Edit>)
    requires multiset(s) == multiset(t) && SortedBottomUp(s) && s != []
    ensures forall i :: 0 <= i < |s| ==> AtOrBefore(s[i].start, s[0].start)
    ensures forall i :: 0 <= i < |t| ==> AtOrBefore(t[i].start, s[0].start)
  {
    forall i | 0 <= i < |s| ensures AtOrBefore(s[i].start, s[0].start) {
      assert i > 0 ==> AtOrBefore(s[i].start, s[0].start);
    }
    forall i | 0 <= i < |t| ensures AtOrBefore(t[i].start, s[0].start) {
      assert t[i] in multiset(t);
      var j := MultisetIndex(s, t[i]);
    }
  }

  /** The front groups of two sorted orders hold the same edits. */
  lemma {:induction false} SameGroups(s: seq<Edit>, t: seq<Edit>, q: Position)
    requires multiset(s) == multiset(t) && SortedBottomUp(s) && SortedBottomUp(t) && s != [] && q == s[0].start
    ensures var (n, m) := (Ties(s, q), Ties(t, q));
            && n > 0 && multiset(s[..n]) == multiset(t[..m]) && multiset(s[n..]) == multiset(t[m..])
            && multiset(s[..n]) <= multiset(s) && multiset(s[n..]) <= multiset(s)
            && s == s[..n] + s[n..] && t == t[..m] + t[m..]
            && forall e :: e in s[n..] ==> e.start != q && AtOrBefore(e.start, q)
  {
    FirstIsLast(s, t);
    FrontGroup(s, q);
    FrontGroup(t, q);
    hide SortedBottomUp, AtOrBefore;
    var n, m := Ties(s, q), Ties(t, q);
    SameAtStart(s[..n], s[n..], t[..m], t[m..], q);
  }

  /** Of two edits that do not overlap once clamped, the one sorted later ends where the
      other starts or before. */
  lemma SortedLater(lines: seq<string>, m: Edit, e: Edit)
    requires OnLines(lines, m) && OnLines(lines, e) && (Overruns(lines, m) ==> m.start.line < m.end.line)
    requires AtOrBefore(Clamped(lines, m).end, Clamped(lines, e).start)
          || AtOrBefore(Clamped(lines, e).end, Clamped(lines, m).start)
    requires AtOrBefore(e.start, m.start) && e.start != m.start
    ensures AtOrBefore(Clamped(lines, e).end, Clamped(lines, m).start)
  {
  }

  lemma NotBoth(lines: seq<string>, e: Edit, f: Edit)
    requires OnLines(lines, e) && OnLines(lines, f) && e.start == f.start
    requires Overruns(lines, e) ==> e.start.line < e.end.line
    requires Overruns(lines, f) ==> f.start.line < f.end.line
    requires AtOrBefore(Clamped(lines, e).end, Clamped(lines, f).start)
          || AtOrBefore(Clamped(lines, f).end, Clamped(lines, e).start)
    ensures IsInsertion(e) || IsInsertion(f)
  {
  }

  /** Edits on existing lines that do not overlap once clamped. */
  predicate Apart(lines: seq<string>, s: seq<Edit>) {
    AllOnLines(lines, s) && OverrunsAcrossLines(lines, s) && NonOverlapping(ClampedAll(lines, s))
  }

  lemma ApartParts(lines: seq<string>, s: seq<Edit>, n: nat)
    requires Apart(lines, s) && n <= |s|
    ensures Apart(lines, s[..n]) && Apart(lines, s[n..])
  {
    hide OnLines, Clamped, AtOrBefore, Overruns;
    var a, b, all := s[..n], s[n..], ClampedAll(lines, s);
    assert AllOnLines(lines, a) && OverrunsAcrossLines(lines, a);
    assert ClampedAll(lines, a) == all[..n];
    assert forall i :: 0 <= i < |b| ==> b[i] == s[n + i];
    assert AllOnLines(lines, b) && OverrunsAcrossLines(lines, b);
    assert ClampedAll(lines, b) == all[n..];
  }

  lemma {:induction false} ApartRearranged(lines: seq<string>, s: seq<Edit>, t: seq<Edit>)
    requires Apart(lines, s) && multiset(s) == multiset(t)
    ensures Apart(lines, t)
  {
    hide OnLines, Clamped, AtOrBefore, Overruns, AllOnLines, OverrunsAcrossLines, NonOverlapping;
    OnLinesRearranged(lines, s, t);
    ClampedRearranged(lines, s, t);
    NonOverlappingRearranged(ClampedAll(lines, s), ClampedAll(lines, t));
  }

  lemma IsGroup(lines: seq<string>, g: seq<Edit>, q: Position)
    requires Apart(lines, g) && forall k :: 0 <= k < |g| ==> g[k].start == q
    ensures Group(lines, g, q)
  {
    hide OnLines, Clamped, AtOrBefore, Overruns, IsInsertion;
    forall i, j | 0 <= i < j < |g| ensures IsInsertion(g[i]) || IsInsertion(g[j]) {
      var all := ClampedAll(lines, g);
      assert AtOrBefore(all[i].end, all[j].start) || AtOrBefore(all[j].end, all[i].start);
      NotBoth(lines, g[i], g[j]);
    }
  }

  /** What follows the front group ends where the group starts. */
  lemma {:induction false} RestEndsBy(lines: seq<string>, s: seq<Edit>, n: nat)
    requires Apart(lines, s) && 0 < n <= |s| && OnLines(lines, s[0])
    requires forall e :: e in s[n..] ==> e.start != s[0].start && AtOrBefore(e.start, s[0].start)
    ensures AllEndBy(lines, s[n..], Clamped(lines, s[0]).start)
  {
    hide Clamped, AtOrBefore, Overruns;
    var rest, all := s[n..], ClampedAll(lines, s);
    forall e | e in rest ensures EndsBy(lines, e, Clamped(lines, s[0]).start) {
      var i :| 0 <= i < |rest| && rest[i] == e;
      assert s[n + i] == e;
      assert AtOrBefore(all[0].end, all[n + i].start) || AtOrBefore(all[n + i].end, all[0].start);
      SortedLater(lines, s[0], e);
    }
  }

  /** The front group does not reach what comes before it. */
  lemma {:induction false} AfterGroup(cur: seq<string>, lines: seq<string>, g: seq<Edit>, q: Position, p: Position)
    requires Group(lines, g, q) && g != [] && OnLines(lines, g[0])
    requires AgreeBefore(cur, lines, p) && AllEndBy(lines, g, p)
    ensures AllUnsigned(g) && AgreeBefore(AppliedAll(cur, g), lines, Clamped(lines, g[0]).start)
  {
    var start := Clamped(lines, g[0]).start;
    assert g[0] in g && EndsBy(lines, g[0], p);
    ClampedIsValid(lines, g[0]);
    AgreeEarlier(cur, lines, p, Clamped(lines, g[0]).end);
    AgreeEarlier(cur, lines, Clamped(lines, g[0]).end, start);
    forall e | e in g ensures AtOrBefore(start, e.start) && AtOrBefore(e.start, e.end) {
      assert OnLines(lines, e) && e.start == g[0].start;
    }
    AllKeepBefore(cur, lines, start, g);
  }

  lemma AllEndByParts(lines: seq<string>, s: seq<Edit>, n: nat, p: Position)
    requires AllEndBy(lines, s, p) && n <= |s|
    ensures AllEndBy(lines, s[..n], p)
  {
    hide EndsBy;
  }

  /** The front groups of two orders do the same, and do not reach the rest. */
  lemma {:induction false} FrontsDoTheSame(cur: seq<string>, lines: seq<string>, es: seq<Edit>,
                                           s: seq<Edit>, t: seq<Edit>, q: Position, p: Position)
    requires AllOnLines(lines, es) && InsertionsCommute(es) && NoneSwallowed(lines, es)
    requires multiset(s) == multiset(t) && multiset(s) <= multiset(es) && SortedBottomUp(s) && SortedBottomUp(t)
    requires Apart(lines, s) && Apart(lines, t) && AgreeBefore(cur, lines, p) && AllEndBy(lines, s, p)
    requires s != [] && q == s[0].start && OnLines(lines, s[0])
    ensures var (g, h) := (s[..Ties(s, q)], t[..Ties(t, q)]);
            && AllUnsigned(g) && AllUnsigned(h) && AppliedAll(cur, g) == AppliedAll(cur, h)
            && AgreeBefore(AppliedAll(cur, g), lines, Clamped(lines, s[0]).start)
    ensures AllEndBy(lines, s[Ties(s, q)..], Clamped(lines, s[0]).start)
  {
    hide *;
    var n, m := Ties(s, q), Ties(t, q);
    SameGroups(s, t, q);
    ApartParts(lines, s, n);
    ApartParts(lines, t, m);
    IsGroup(lines, s[..n], q);
    IsGroup(lines, t[..m], q);
    AllEndByParts(lines, s, n, p);
    GroupsAgree(cur, lines, es, s[..n], t[..m], q, p);
    AfterGroup(cur, lines, s[..n], q, p);
    RestEndsBy(lines, s, n);
  }

  /** Where insertions commute and nothing is swallowed, all orders the sort may leave
      rewrite the lines alike, overruns or not. */
  lemma {:induction false} OrdersDoTheSame(cur: seq<string>, lines: seq<string>, es: seq<Edit>,
                                           s: seq<Edit>, t: seq<Edit>, p: Position)
    requires AllOnLines(lines, es) && InsertionsCommute(es) && NoneSwallowed(lines, es)
    requires multiset(s) == multiset(t) && multiset(s) <= multiset(es) && SortedBottomUp(s) && SortedBottomUp(t)
    requires Apart(lines, s) && Apart(lines, t) && AgreeBefore(cur, lines, p) && AllEndBy(lines, s, p)
    ensures AllUnsigned(s) && AllUnsigned(t) && AppliedAll(cur, s) == AppliedAll(cur, t)
    decreases |s|
  {
    assert s != [] ==> OnLines(lines, s[0]);
    assert t == [] ==> AllUnsigned(t) && AppliedAll(cur, t) == cur;
    hide *;
    if s == [] {
      assert |multiset(t)| == 0;
      assert s == t;
    } else {
      var q := s[0].start;
      var n, m := Ties(s, q), Ties(t, q);
      SuffixIsSorted(s, n);
      SuffixIsSorted(t, m);
      ApartParts(lines, s, n);
      ApartParts(lines, t, m);
      SameGroups(s, t, q);
      FrontsDoTheSame(cur, lines, es, s, t, q, p);
      var next := AppliedAll(cur, s[..n]);
      OrdersDoTheSame(next, lines, es, s[n..], t[m..], Clamped(lines, s[0]).start);
      Regrouped(cur, s[..n], t[..m], s[n..], t[m..]);
    }
  }

  lemma SuffixIsSorted(s: seq<Edit>, n: nat)
    requires SortedBottomUp(s) && n <= |s|
    ensures SortedBottomUp(s[n..])
  {
    hide AtOrBefore;
    var rest := s[n..];
    assert forall i :: 0 <= i < |rest| ==> rest[i] == s[n + i];
  }

  // ---- sufficient ----

  lemma AllEnd(lines: seq<string>, s: seq<Edit>)
    requires |lines| > 0 && AllOnLines(lines, s)
    ensures AgreeBefore(lines, lines, EndOfLine(lines, |lines| - 1))
    ensures AllEndBy(lines, s, EndOfLine(lines, |lines| - 1))
  {
    forall e | e in s ensures EndsBy(lines, e, EndOfLine(lines, |lines| - 1)) {
      ClampedIsValid(lines, e);
    }
  }

  lemma {:induction false} CommutingOverrunsMeanLSP(lines: seq<string>, es: seq<Edit>, out: seq<Edit>)
    requires WellFormed(lines, es) && InsertionsCommute(es) && NoneSwallowed(lines, es)
    requires AllValid(lines, LatestFirst(ClampedAll(lines, es))) && NothingBehind(lines, es)
    requires SortOutcome(es, out)
    ensures AllUnsigned(out) && Join(AppliedAll(lines, out)) == Meaning(lines, ClampedAll(lines, es))
  {
    var t := LatestFirst(es);
    FormHolds(lines, es);
    LatestFirstExactlyWhen(lines, es);
    hide InsertionsCommute, NoneSwallowed, NothingBehind, AllOnLines, OverrunsAcrossLines, NonOverlapping, Meaning;
    hide LatestFirst;
    hide Clamped, AppliedAll, WellFormed;
    assert Apart(lines, es);
    ApartRearranged(lines, es, out);
    ApartRearranged(lines, es, t);
    AllEnd(lines, out);
    OrdersDoTheSame(lines, lines, es, out, t, EndOfLine(lines, |lines| - 1));
  }

  // ---- lengths ----

  /** By how much the edits lengthen a text. */
  function Growth(lines: seq<string>, es: seq<Edit>): int
    requires AllValid(lines, es)
  {
    if es == [] then 0
    else |es[0].newText| + Offset(lines, es[0].start) - Offset(lines, es[0].end) + Growth(lines, es[1..])
  }

  lemma {:induction false} GrowthConcat(lines: seq<string>, a: seq<Edit>, b: seq<Edit>)
    requires AllValid(lines, a) && AllValid(lines, b)
    ensures AllValid(lines, a + b) && Growth(lines, a + b) == Growth(lines, a) + Growth(lines, b)
  {
    if a == [] {
      assert a + b == b;
    } else {
      var all := a + b;
      assert all[0] == a[0] && all[1..] == a[1..] + b;
      hide ValidEdit, Offset;
      GrowthConcat(lines, a[1..], b);
    }
  }

  lemma GrowthOfOne(lines: seq<string>, e: Edit)
    requires ValidEdit(lines, e)
    ensures Growth(lines, [e]) == |e.newText| + Offset(lines, e.start) - Offset(lines, e.end)
  {
    hide ValidEdit, Offset;
    assert [e][1..] == [];
  }

  lemma {:induction false} GrowthWithout(lines: seq<string>, es: seq<Edit>, k: nat)
    requires AllValid(lines, es) && k < |es|
    ensures AllValid(lines, Without(es, k))
    ensures Growth(lines, es) == Growth(lines, [es[k]]) + Growth(lines, Without(es, k))
  {
    var a, b := es[..k], es[k + 1..];
    assert AllValid(lines, a) && AllValid(lines, [es[k]]) && AllValid(lines, b);
    assert es == a + ([es[k]] + b) && Without(es, k) == a + b;
    hide *;
    GrowthConcat(lines, [es[k]], b);
    GrowthConcat(lines, a, [es[k]] + b);
    GrowthConcat(lines, a, b);
  }

  lemma {:induction false} GrowthRearranged(lines: seq<string>, es: seq<Edit>, out: seq<Edit>)
    requires AllValid(lines, es) && multiset(es) == multiset(out)
    ensures AllValid(lines, out) && Growth(lines, es) == Growth(lines, out)
    decreases |es|
  {
    ValidRearranged(lines, es, out);
    if es == [] {
      assert |multiset(out)| == 0;
    } else {
      hide ValidEdit, Offset, Growth;
      var k := FindAndRemove(es, out);
      GrowthWithout(lines, out, k);
      GrowthWithout(lines, es, 0);
      assert Without(es, 0) == es[1..];
      GrowthRearranged(lines, es[1..], Without(out, k));
    }
  }

  lemma OneGrows(cur: seq<string>, lines: seq<string>, e: Edit)
    requires ValidEdit(lines, e) && AgreeBefore(cur, lines, e.end)
    ensures !Panics(cur, e) && AgreeBefore(Applied(cur, e), lines, e.start)
    ensures |Join(Applied(cur, e))| == |Join(cur)| + |e.newText| + Offset(lines, e.start) - Offset(lines, e.end)
  {
    hide Applied, AgreeBefore;
    StepKeepsAgreement(cur, lines, e.end, e);
    OffsetsInText(lines, e);
  }

  /** What bottom-up edits do to the length does not depend on their order. */
  lemma {:induction false} BottomUpGrows(cur: seq<string>, lines: seq<string>, es: seq<Edit>, p: Position)
    requires AllValid(lines, es) && BottomUp(es) && AgreeBefore(cur, lines, p)
    requires forall e :: e in es ==> AtOrBefore(e.end, p)
    ensures AllUnsigned(es) && |Join(AppliedAll(cur, es))| == |Join(cur)| + Growth(lines, es)
    decreases |es|
  {
    if es != [] {
      var e, rest := es[0], es[1..];
      assert e in es && ValidEdit(lines, e);
      AgreeEarlier(cur, lines, p, e.end);
      OneGrows(cur, lines, e);
      forall f | f in rest ensures AtOrBefore(f.end, e.start) {
        var i :| 0 <= i < |rest| && rest[i] == f;
        assert es[i + 1] == f;
      }
      hide Applied, AgreeBefore, ValidEdit, Join, AtOrBefore;
      BottomUpGrows(Applied(cur, e), lines, rest, e.start);
    }
  }

  // ---- overruns lose text ----

  lemma {:induction false} OneShrinks(cur: seq<string>, lines: seq<string>, e: Edit)
    requires OnLines(lines, e) && AgreeBefore(cur, lines, Clamped(lines, e).end)
    requires Overruns(lines, e) ==> e.start.line < e.end.line
    ensures !Panics(cur, e) && ValidEdit(lines, Clamped(lines, e)) && !Panics(cur, Clamped(lines, e))
    ensures AgreeBefore(Applied(cur, e), lines, Clamped(lines, e).start)
    ensures |Join(Applied(cur, e))| <= |Join(Applied(cur, Clamped(lines, e)))|
    ensures |Join(Applied(cur, e))| == |Join(Applied(cur, Clamped(lines, e)))| ==>
              Applied(cur, e) == Applied(cur, Clamped(lines, e))
  {
    var c := Clamped(lines, e);
    ClampedIsValid(lines, e);
    AgreeEarlier(cur, lines, c.end, c.start);
    KeepsBefore(cur, lines, c.start, e);
    hide Applied, AgreeBefore, Join;
    if e.start.line < e.end.line {
      AcrossLinesExactlyWhen(cur, lines, e);
    }
  }

  lemma FirstOfBottomUp(lines: seq<string>, es: seq<Edit>, p: Position)
    requires AllOnLines(lines, es) && OverrunsAcrossLines(lines, es) && es != []
    requires BottomUp(ClampedAll(lines, es)) && AllEndBy(lines, es, p)
    ensures OnLines(lines, es[0]) && EndsBy(lines, es[0], p)
    ensures Overruns(lines, es[0]) ==> es[0].start.line < es[0].end.line
    ensures AllOnLines(lines, es[1..]) && OverrunsAcrossLines(lines, es[1..])
    ensures ClampedAll(lines, es)[1..] == ClampedAll(lines, es[1..]) && BottomUp(ClampedAll(lines, es[1..]))
    ensures AllEndBy(lines, es[1..], Clamped(lines, es[0]).start)
  {
    hide Clamped, Overruns, AtOrBefore;
    var all, rest := ClampedAll(lines, es), es[1..];
    assert es[0] in es;
    ClampedRest(lines, es);
    forall f | f in rest ensures EndsBy(lines, f, Clamped(lines, es[0]).start) {
      var i :| 0 <= i < |rest| && rest[i] == f;
      assert es[i + 1] == f && AtOrBefore(all[i + 1].end, all[0].start);
    }
  }

  lemma FirstApplied(cur: seq<string>, es: seq<Edit>)
    requires AllUnsigned(es) && es != []
    ensures Unsigned(es[0]) && !Panics(cur, es[0]) && AllUnsigned(es[1..])
    ensures AppliedAll(cur, es) == AppliedAll(Applied(cur, es[0]), es[1..])
  {
  }

  /** Edits with overruns across lines leave no more text than their clamped forms, and as
      much only if they leave the same. */
  lemma {:induction false} OverrunsLose(cur: seq<string>, lines: seq<string>, es: seq<Edit>, p: Position)
    requires AllOnLines(lines, es) && OverrunsAcrossLines(lines, es) && BottomUp(ClampedAll(lines, es))
    requires AgreeBefore(cur, lines, p) && AllEndBy(lines, es, p)
    ensures AllUnsigned(es) && AllUnsigned(ClampedAll(lines, es))
    ensures |Join(AppliedAll(cur, es))| <= |Join(cur)| + Growth(lines, ClampedAll(lines, es))
    ensures |Join(AppliedAll(cur, es))| == |Join(cur)| + Growth(lines, ClampedAll(lines, es)) ==>
              AppliedAll(cur, es) == AppliedAll(cur, ClampedAll(lines, es))
    decreases |es|
  {
    assert AllUnsigned(es) && AllUnsigned(ClampedAll(lines, es));
    if es == [] {
      assert ClampedAll(lines, es) == es;
    } else {
      var e, c, all := es[0], Clamped(lines, es[0]), ClampedAll(lines, es);
      FirstOfBottomUp(lines, es, p);
      ClampedIsValid(lines, e);
      AgreeEarlier(cur, lines, p, c.end);
      hide OnLines, Clamped, Applied, AppliedAll, AgreeBefore, Join, BottomUp, ValidEdit, Unsigned;
      OneShrinks(cur, lines, e);
      OneGrows(cur, lines, c);
      FirstApplied(cur, es);
      FirstApplied(cur, all);
      OverrunsLose(Applied(cur, e), lines, es[1..], c.start);
    }
  }

  // ---- necessary ----

  lemma {:induction false} MeaningLength(lines: seq<string>, es: seq<Edit>)
    requires |lines| > 0 && AllValid(lines, es) && NonOverlapping(es) && InsertionsFirst(es)
    ensures |Meaning(lines, es)| == |Join(lines)| + Growth(lines, es)
  {
    var out := LatestFirst(es);
    LatestFirstMeansLSP(lines, es);
    LatestFirstIsBottomUp(lines, es);
    GrowthRearranged(lines, es, out);
    hide *;
    ValidEnds(lines, out);
    BottomUpGrows(lines, lines, out, EndOfLine(lines, |lines| - 1));
  }

  lemma ValidEnds(lines: seq<string>, es: seq<Edit>)
    requires |lines| > 0 && AllValid(lines, es)
    ensures AgreeBefore(lines, lines, EndOfLine(lines, |lines| - 1))
    ensures forall e :: e in es ==> AtOrBefore(e.end, EndOfLine(lines, |lines| - 1))
  {
  }

  /** Edits that keep the length of LSP's text are clamped edits by their effect. */
  lemma {:induction false} SameLengthSameText(lines: seq<string>, es: seq<Edit>, out: seq<Edit>)
    requires WellFormed(lines, es) && AlwaysMeansClamped(lines, es)
    requires SortOutcome(es, out) && AllOnLines(lines, out) && BottomUp(ClampedAll(lines, out))
    ensures AllUnsigned(ClampedAll(lines, out))
    ensures Join(AppliedAll(lines, ClampedAll(lines, out))) == Meaning(lines, ClampedAll(lines, es))
  {
    FormHolds(lines, es);
    OnLinesRearranged(lines, es, out);
    ClampedRearranged(lines, es, out);
    assert AllUnsigned(out) && Join(AppliedAll(lines, out)) == Meaning(lines, ClampedAll(lines, es));
    hide *;
    MeaningLength(lines, ClampedAll(lines, es));
    GrowthRearranged(lines, ClampedAll(lines, es), ClampedAll(lines, out));
    AllEnd(lines, out);
    OverrunsLose(lines, lines, out, EndOfLine(lines, |lines| - 1));
  }

  /** If every order of the sort means what LSP says, so does every bottom-up order of the
      clamped edits. */
  lemma {:induction false} BottomUpMustMean(lines: seq<string>, es: seq<Edit>, clamped: seq<Edit>)
    requires WellFormed(lines, es) && AlwaysMeansClamped(lines, es)
    requires multiset(clamped) == multiset(ClampedAll(lines, es)) && BottomUp(clamped)
    ensures AllUnsigned(clamped) && Join(AppliedAll(lines, clamped)) == Meaning(lines, ClampedAll(lines, es))
  {
    FormHolds(lines, es);
    hide WellFormed, AlwaysMeansClamped, BottomUp, OnLines, Clamped, AtOrBefore, Meaning, AppliedAll;
    var out := Lifted(lines, es, clamped);
    OnLinesRearranged(lines, es, out);
    LiftSorts(lines, out);
    SameLengthSameText(lines, es, out);
  }

  lemma {:induction false} InsertionsMustCommute(lines: seq<string>, es: seq<Edit>, i: nat, j: nat)
    requires WellFormed(lines, es) && AlwaysMeansClamped(lines, es)
    requires i < j < |es| && IsInsertion(es[i]) && IsInsertion(es[j]) && es[i].start == es[j].start
    ensures Commute(es[i].newText, es[j].newText)
  {
    FormHolds(lines, es);
    var all := ClampedAll(lines, es);
    assert OnLines(lines, es[i]) && OnLines(lines, es[j]);
    InsertionStays(lines, es[i]);
    InsertionStays(lines, es[j]);
    assert all[i] == es[i] && all[j] == es[j];
    hide *;
    var u, v := TieInEitherOrder(lines, all, i, j);
    OutcomeIsRearranged(all, u + [all[i], all[j]] + v);
    OutcomeIsRearranged(all, u + [all[j], all[i]] + v);
    BottomUpMustMean(lines, es, u + [all[i], all[j]] + v);
    BottomUpMustMean(lines, es, u + [all[j], all[i]] + v);
    SwapMustCommute(lines, all, i, j, u, v);
  }

  lemma AroundGrows(cur: seq<string>, c: Edit, x: string, y: string)
    requires ValidEdit(cur, c)
    ensures |Join(Around(cur, c, x))| - |x| == |Join(Around(cur, c, y))| - |y|
  {
    hide Join;
    var a, pre := cur[..c.start.line], cur[c.start.line][..c.start.character];
    var rest, b := cur[c.end.line][c.end.character..], cur[c.end.line + 1..];
    JoinMerged(a, pre, x, rest, b);
    JoinMerged(a, pre, y, rest, b);
  }

  lemma AppliedIsAround(cur: seq<string>, c: Edit)
    requires ValidEdit(cur, c)
    ensures Applied(cur, c) == Around(cur, c, c.newText)
  {
    AppliedShape(cur, c);
  }

  lemma AroundLength(cur: seq<string>, lines: seq<string>, c: Edit, middle: string)
    requires ValidEdit(lines, c) && AgreeBefore(cur, lines, c.end)
    ensures ValidEdit(cur, c)
    ensures |Join(Around(cur, c, middle))| == |Join(cur)| + |middle| + Offset(lines, c.start) - Offset(lines, c.end)
  {
    AgreeEarlier(cur, lines, c.end, c.end);
    AgreeEarlier(cur, lines, c.end, c.start);
    hide Applied, Around, AgreeBefore, Join;
    OneGrows(cur, lines, c);
    AppliedIsAround(cur, c);
    AroundGrows(cur, c, middle, c.newText);
  }

  /** An overrun behind an insertion at its start loses no less than elsewhere. */
  lemma {:induction false} InsertedThenOverrun(cur: seq<string>, lines: seq<string>, i: Edit, r: Edit)
    requires OnLines(lines, r) && !StartsPast(lines, r) && r.start.line < r.end.line
    requires IsInsertion(i) && i.start == r.start && AgreeBefore(cur, lines, Clamped(lines, r).end)
    ensures Unsigned(i) && !Panics(Applied(cur, i), r) && !Panics(Applied(cur, i), Clamped(lines, r))
    ensures |Join(Applied(Applied(cur, i), r))| <= |Join(Applied(Applied(cur, i), Clamped(lines, r)))|
  {
    var (q, l) := (i.start, r.end.line);
    assert cur[q.line] == cur[..l][q.line] == lines[..l][q.line] == lines[q.line];
    var mid, orig := Applied(cur, i), Applied(lines, i);
    var line := lines[q.line][..q.character] + i.newText + lines[q.line][q.character..];
    assert mid == cur[q.line := line] && orig == lines[q.line := line];
    assert mid[..l] == cur[..l][q.line := line] && orig[..l] == lines[..l][q.line := line];
    assert Clamped(orig, r) == Clamped(lines, r);
    assert AgreeBefore(mid, orig, Clamped(orig, r).end);
    hide Applied, AgreeBefore, Join;
    AcrossLinesExactlyWhen(mid, orig, r);
  }

  /** A group with its replacement last leaves no more text than the clamped edits do
      elsewhere, and as much only if the replacement stays on its line or nothing was
      inserted. */
  lemma {:induction false} GroupLoses(cur: seq<string>, lines: seq<string>, group: seq<Edit>, r: Edit)
    requires OnLines(lines, r) && !StartsPast(lines, r) && (Overruns(lines, r) ==> r.start.line < r.end.line)
    requires AgreeBefore(cur, lines, Clamped(lines, r).end) && AllInsertions(group, r.start)
    ensures AllUnsigned(group + [r]) && AgreeBefore(AppliedAll(cur, group + [r]), lines, r.start)
    ensures var (c, w) := (Clamped(lines, r), Texts(Reversed(group)));
            && ValidEdit(lines, c)
            && |Join(AppliedAll(cur, group + [r]))|
               <= |Join(cur)| + |w| + |c.newText| + Offset(lines, c.start) - Offset(lines, c.end)
            && (|Join(AppliedAll(cur, group + [r]))|
                == |Join(cur)| + |w| + |c.newText| + Offset(lines, c.start) - Offset(lines, c.end)
                ==> w == "" || r == c)
  {
    var c, w := Clamped(lines, r), Texts(Reversed(group));
    var all := Edit(r.start, r.start, w);
    ClampedIsValid(lines, r);
    GroupThenReplacement(cur, lines, group, r);
    AgreeEarlier(cur, lines, c.end, c.start);
    AroundLength(cur, lines, c, c.newText + Leftover(cur, w, c));
    InsertedThenReplaced(cur, all, c);
    hide Applied, AppliedAll, AgreeBefore, Join, Texts, Offset;
    if r.start.line < r.end.line {
      InsertedThenOverrun(cur, lines, all, r);
    } else {
      assert |Leftover(cur, w, c)| == |w|;
    }
  }

  lemma {:induction false} GroupThenReplacement(cur: seq<string>, lines: seq<string>, group: seq<Edit>, r: Edit)
    requires OnLines(lines, r) && !StartsPast(lines, r)
    requires AgreeBefore(cur, lines, Clamped(lines, r).end) && AllInsertions(group, r.start)
    ensures var all := Edit(r.start, r.start, Texts(Reversed(group)));
            && AllUnsigned(group + [r]) && !Panics(cur, all) && !Panics(Applied(cur, all), r)
            && AppliedAll(cur, group + [r]) == Applied(Applied(cur, all), r)
    ensures AgreeBefore(AppliedAll(cur, group + [r]), lines, r.start)
  {
    var c, q := Clamped(lines, r), r.start;
    ClampedIsValid(lines, r);
    AgreeEarlier(cur, lines, c.end, q);
    assert AllUnsigned(group);
    InsertionsMerge(cur, group, q);
    AllKeepBefore(cur, lines, q, group);
    KeepsBefore(AppliedAll(cur, group), lines, q, r);
    hide Applied, AppliedAll, AgreeBefore, Texts, Reversed;
    AppliedAllConcat(cur, group, [r]);
    OneEdit(AppliedAll(cur, group), r);
  }

  /** A replacement, the insertions at its start in reverse, and the other edits. */
  lemma {:induction false} GroupAndOthers(lines: seq<string>, es: seq<Edit>, j: nat)
    returns (group: seq<Edit>, others: seq<Edit>)
    requires WellFormed(lines, es) && j < |es| && !IsInsertion(es[j]) && OnLines(lines, es[j])
    requires !StartsPast(lines, es[j])
    ensures group == Reversed(InsertionsAt(es, es[j].start)) && AllInsertions(group, es[j].start)
    ensures AllOnLines(lines, others) && OverrunsAcrossLines(lines, others)
    ensures multiset(es) == multiset([es[j]] + group + others)
    ensures multiset(ClampedAll(lines, es)) == multiset([Clamped(lines, es[j])] + group + ClampedAll(lines, others))
    ensures forall f :: f in others ==> !IsInsertion(f) || f.start != es[j].start
  {
    var r := es[j];
    FormHolds(lines, es);
    InsertionsAtHolds(es, r.start);
    group := Reversed(InsertionsAt(es, r.start));
    InReversed(InsertionsAt(es, r.start));
    assert AllInsertions(group, r.start);
    hide *;
    others := OthersOfGroup(es, j, group);
    PartsOnLines(lines, es, r, group, others);
  }

  lemma ClampedInsertions(lines: seq<string>, group: seq<Edit>, q: Position)
    requires AllOnLines(lines, group) && OverrunsAcrossLines(lines, group) && AllInsertions(group, q)
    ensures ClampedAll(lines, group) == group
  {
    hide Clamped, Overruns, OnLines;
    forall k | 0 <= k < |group| ensures ClampedAll(lines, group)[k] == group[k] {
      assert group[k] in group;
      InsertionStays(lines, group[k]);
    }
  }

  lemma {:induction false} PartsOnLines(lines: seq<string>, es: seq<Edit>, r: Edit, group: seq<Edit>, others: seq<Edit>)
    requires AllOnLines(lines, es) && OverrunsAcrossLines(lines, es) && OnLines(lines, r)
    requires multiset(es) == multiset([r] + group + others) && AllInsertions(group, r.start)
    ensures AllOnLines(lines, others) && OverrunsAcrossLines(lines, others)
    ensures multiset(ClampedAll(lines, es)) == multiset([Clamped(lines, r)] + group + ClampedAll(lines, others))
  {
    ClampedOne(lines, r);
    hide *;
    OnLinesRearranged(lines, es, [r] + group + others);
    ClampedRearranged(lines, es, [r] + group + others);
    ClampedConcat(lines, [r] + group, others);
    ClampedConcat(lines, [r], group);
    ClampedInsertions(lines, group, r.start);
  }

  lemma StaysReplacement(lines: seq<string>, e: Edit)
    requires OnLines(lines, e) && (Overruns(lines, e) ==> e.start.line < e.end.line)
    ensures IsInsertion(Clamped(lines, e)) <==> IsInsertion(e)
    ensures IsInsertion(e) ==> Clamped(lines, e) == e
    ensures !StartsPast(lines, e) ==> Clamped(lines, e).start == e.start
  {
  }

  lemma {:induction false} OthersElsewhere(lines: seq<string>, others: seq<Edit>, q: Position)
    requires AllOnLines(lines, others) && OverrunsAcrossLines(lines, others)
    requires forall f :: f in others ==> !IsInsertion(f) || f.start != q
    ensures forall f :: f in ClampedAll(lines, others) ==> !IsInsertion(f) || f.start != q
  {
    hide OnLines, Clamped, Overruns;
    forall f | f in ClampedAll(lines, others) ensures !IsInsertion(f) || f.start != q {
      var i :| 0 <= i < |others| && ClampedAll(lines, others)[i] == f;
      assert others[i] in others;
      StaysReplacement(lines, others[i]);
    }
  }

  /** The other edits in bottom-up order around a replacement and what is inserted at its
      start, as they are and clamped. */
  lemma {:induction false} AroundReplacement(lines: seq<string>, es: seq<Edit>, r: Edit, group: seq<Edit>,
                                             others: seq<Edit>)
    returns (a: seq<Edit>, b: seq<Edit>)
    requires WellFormed(lines, es) && OnLines(lines, r) && !IsInsertion(r) && !StartsPast(lines, r)
    requires Overruns(lines, r) ==> r.start.line < r.end.line
    requires AllOnLines(lines, others) && OverrunsAcrossLines(lines, others) && AllInsertions(group, r.start)
    requires multiset(ClampedAll(lines, es)) == multiset([Clamped(lines, r)] + group + ClampedAll(lines, others))
    requires forall f :: f in others ==> !IsInsertion(f) || f.start != r.start
    ensures AllOnLines(lines, a) && OverrunsAcrossLines(lines, a)
    ensures AllOnLines(lines, b) && OverrunsAcrossLines(lines, b)
    ensures multiset(a + b) == multiset(others)
    ensures BottomUp(ClampedAll(lines, a)) && BottomUp(ClampedAll(lines, b))
    ensures forall e :: e in ClampedAll(lines, a) ==> AtOrBefore(Clamped(lines, r).end, e.start)
    ensures forall e :: e in ClampedAll(lines, b) ==> AtOrBefore(e.end, r.start)
  {
    FormHolds(lines, es);
    ClampedIsValid(lines, r);
    StaysReplacement(lines, r);
    OthersElsewhere(lines, others, r.start);
    hide *;
    var c := Clamped(lines, r);
    OthersStartElsewhere(lines, ClampedAll(lines, es), c, group, ClampedAll(lines, others));
    var u, v := AroundEdit(lines, c, ClampedAll(lines, others));
    var out := Lifted(lines, others, u + v);
    OnLinesRearranged(lines, others, out);
    a, b := out[..|u|], out[|u|..];
    assert out == a + b;
    LiftedParts(lines, out, u, v);
  }

  lemma LiftedParts(lines: seq<string>, out: seq<Edit>, u: seq<Edit>, v: seq<Edit>)
    requires AllOnLines(lines, out) && OverrunsAcrossLines(lines, out) && ClampedAll(lines, out) == u + v
    ensures var (a, b) := (out[..|u|], out[|u|..]);
            && AllOnLines(lines, a) && OverrunsAcrossLines(lines, a)
            && AllOnLines(lines, b) && OverrunsAcrossLines(lines, b)
            && ClampedAll(lines, a) == u && ClampedAll(lines, b) == v
  {
    hide Clamped, OnLines, AllOnLines, OverrunsAcrossLines;
    var a, b := out[..|u|], out[|u|..];
    assert out == a + b;
    ClampedConcat(lines, a, b);
    assert ClampedAll(lines, a) == (u + v)[..|u|] == u && ClampedAll(lines, b) == (u + v)[|u|..] == v;
  }

  /** A replacement in front of what is inserted at its start, in bottom-up order. */
  lemma {:induction false} WholeIsBottomUp(lines: seq<string>, u: seq<Edit>, c: Edit, group: seq<Edit>, v: seq<Edit>)
    requires ValidEdit(lines, c) && BottomUp(u) && BottomUp(v) && AllInsertions(group, c.start)
    requires forall e :: e in u ==> AtOrBefore(c.end, e.start)
    requires forall e :: e in v ==> AtOrBefore(e.end, c.start)
    ensures BottomUp(u + ([c] + group) + v)
  {
    var rest := [c] + group + v;
    GroupThenRest(c, group, v);
    forall e, f | e in u && f in rest ensures AtOrBefore(f.end, e.start) {
      assert f == c || f in group || f in v;
    }
    BottomUpParts(u, rest);
    assert u + rest == u + ([c] + group) + v;
  }

  lemma SortedRegrouped(a: seq<Edit>, g: seq<Edit>, h: seq<Edit>, b: seq<Edit>, q: Position)
    requires SortedBottomUp(a + g + b) && |g| == |h|
    requires (forall e :: e in g ==> e.start == q) && forall e :: e in h ==> e.start == q
    ensures SortedBottomUp(a + h + b)
  {
    hide AtOrBefore;
    var s, t := a + g + b, a + h + b;
    forall i | 0 <= i < |t| ensures t[i].start == s[i].start {
      if |a| <= i < |a| + |g| {
        assert s[i] == g[i - |a|] && t[i] == h[i - |a|];
      }
    }
  }

  lemma {:induction false} ClampedWhole(lines: seq<string>, a: seq<Edit>, r: Edit, group: seq<Edit>, b: seq<Edit>)
    requires AllOnLines(lines, a) && AllOnLines(lines, b) && AllOnLines(lines, a + ([r] + group) + b)
    requires OnLines(lines, r) && OverrunsAcrossLines(lines, a + ([r] + group) + b) && AllInsertions(group, r.start)
    ensures ClampedAll(lines, a + ([r] + group) + b)
         == ClampedAll(lines, a) + ([Clamped(lines, r)] + group) + ClampedAll(lines, b)
  {
    ClampedOne(lines, r);
    hide *;
    ClampedConcat(lines, a + ([r] + group), b);
    ClampedConcat(lines, a, [r] + group);
    ClampedConcat(lines, [r], group);
    ClampedInsertions(lines, group, r.start);
  }

  lemma SameWhole(es: seq<Edit>, r: Edit, group: seq<Edit>, others: seq<Edit>, a: seq<Edit>, b: seq<Edit>)
    requires multiset(es) == multiset([r] + group + others) && multiset(a + b) == multiset(others)
    ensures multiset(a + ([r] + group) + b) == multiset(es) == multiset(a + (group + [r]) + b)
  {
  }

  /** The order with the replacement behind the insertions is one the sort may leave. */
  lemma {:induction false} OtherOrder(lines: seq<string>, es: seq<Edit>, r: Edit, group: seq<Edit>, others: seq<Edit>,
                                      a: seq<Edit>, b: seq<Edit>)
    requires AllOnLines(lines, es) && OverrunsAcrossLines(lines, es) && OnLines(lines, r)
    requires AllOnLines(lines, a) && AllOnLines(lines, b) && AllInsertions(group, r.start)
    requires multiset(es) == multiset([r] + group + others) && multiset(a + b) == multiset(others)
    requires BottomUp(ClampedAll(lines, a) + ([Clamped(lines, r)] + group) + ClampedAll(lines, b))
    ensures SortOutcome(es, a + (group + [r]) + b)
    ensures multiset(ClampedAll(lines, es))
         == multiset(ClampedAll(lines, a) + ([Clamped(lines, r)] + group) + ClampedAll(lines, b))
  {
    var out := a + ([r] + group) + b;
    SameWhole(es, r, group, others, a, b);
    assert (forall e :: e in [r] + group ==> e.start == r.start) && forall e :: e in group + [r] ==> e.start == r.start;
    hide AllOnLines, OverrunsAcrossLines, OnLines, BottomUp, SortedBottomUp, Clamped;
    OnLinesRearranged(lines, es, out);
    ClampedRearranged(lines, es, out);
    ClampedWhole(lines, a, r, group, b);
    LiftSorts(lines, out);
    SortedRegrouped(a, [r] + group, group + [r], b, r.start);
  }

  lemma {:induction false} GrowthOfInsertions(lines: seq<string>, group: seq<Edit>, q: Position)
    requires ValidPosition(lines, q) && AllInsertions(group, q)
    ensures AllValid(lines, group) && Growth(lines, group) == |Texts(group)|
  {
    assert AllValid(lines, group);
    if group != [] {
      assert group[0] in group;
      hide Offset;
      GrowthOfInsertions(lines, group[1..], q);
    }
  }

  lemma {:induction false} LengthOfTexts(s: seq<Edit>)
    ensures |Texts(Reversed(s))| == |Texts(s)|
  {
    if s != [] {
      LengthOfTexts(s[1..]);
      TextsConcat(Reversed(s[1..]), [s[0]]);
      assert Texts([s[0]]) == s[0].newText + "";
    }
  }

  lemma {:induction false} GrowthOfWhole(lines: seq<string>, u: seq<Edit>, c: Edit, group: seq<Edit>, v: seq<Edit>)
    requires AllValid(lines, u) && AllValid(lines, v) && ValidEdit(lines, c) && AllInsertions(group, c.start)
    ensures AllValid(lines, u + ([c] + group) + v)
    ensures Growth(lines, u + ([c] + group) + v)
         == Growth(lines, u) + |c.newText| + Offset(lines, c.start) - Offset(lines, c.end)
            + |Texts(Reversed(group))| + Growth(lines, v)
  {
    GrowthOfInsertions(lines, group, c.start);
    LengthOfTexts(group);
    hide *;
    assert AllValid(lines, [c]) by { OneIsValid(lines, c); }
    GrowthOfOne(lines, c);
    GrowthConcat(lines, [c], group);
    GrowthConcat(lines, u, [c] + group);
    GrowthConcat(lines, u + ([c] + group), v);
  }

  lemma OneIsValid(lines: seq<string>, c: Edit)
    requires ValidEdit(lines, c)
    ensures AllValid(lines, [c])
  {
  }

  /** What the order with the replacement last leaves is no longer than LSP's text, and as
      long only if it is what the clamped edits leave, or nothing was inserted. */
  lemma {:induction false} OtherOrderLoses(lines: seq<string>, a: seq<Edit>, r: Edit, group: seq<Edit>, b: seq<Edit>)
    requires |lines| > 0 && AllOnLines(lines, a) && AllOnLines(lines, b) && OnLines(lines, r) && !StartsPast(lines, r)
    requires OverrunsAcrossLines(lines, a) && OverrunsAcrossLines(lines, b)
    requires Overruns(lines, r) ==> r.start.line < r.end.line
    requires AllInsertions(group, r.start) && BottomUp(ClampedAll(lines, a)) && BottomUp(ClampedAll(lines, b))
    requires forall e :: e in ClampedAll(lines, a) ==> AtOrBefore(Clamped(lines, r).end, e.start)
    requires forall e :: e in ClampedAll(lines, b) ==> AtOrBefore(e.end, r.start)
    requires AllValid(lines, ClampedAll(lines, a) + ([Clamped(lines, r)] + group) + ClampedAll(lines, b))
    requires AllUnsigned(a + (group + [r]) + b)
    ensures var (c, u, v) := (Clamped(lines, r), ClampedAll(lines, a), ClampedAll(lines, b));
            |Join(AppliedAll(lines, a + (group + [r]) + b))| == |Join(lines)| + Growth(lines, u + ([c] + group) + v) ==>
              || Texts(Reversed(group)) == ""
              || (r == c && AllUnsigned(u + (group + [r]) + v)
                  && AppliedAll(lines, u + (group + [r]) + v) == AppliedAll(lines, a + (group + [r]) + b))
  {
    var c, u, v := Clamped(lines, r), ClampedAll(lines, a), ClampedAll(lines, b);
    ClampedIsValid(lines, r);
    AgreesEverywhere(lines, c.end);
    RawStartsFrom(lines, a, c.end);
    AllUnsignedParts(a, group, r, b);
    EndsByClamped(lines, b, r.start);
    hide *;
    AllEnd(lines, a);
    OverrunsLose(lines, lines, a, EndOfLine(lines, |lines| - 1));
    AllKeepBefore(lines, lines, c.end, a);
    var x := AppliedAll(lines, a);
    GroupLoses(x, lines, group, r);
    var y := AppliedAll(x, group + [r]);
    OverrunsLose(y, lines, b, r.start);
    GrowthOfWhole(lines, u, c, group, v);
    ThreeParts(lines, a, group + [r], b);
    ThreeParts(lines, u, group + [r], v);
  }

  lemma ThreeParts(lines: seq<string>, a: seq<Edit>, g: seq<Edit>, b: seq<Edit>)
    requires AllUnsigned(a) && AllUnsigned(g) && AllUnsigned(b)
    ensures AllUnsigned(a + g + b)
    ensures AppliedAll(lines, a + g + b) == AppliedAll(AppliedAll(AppliedAll(lines, a), g), b)
  {
    hide *;
    AppliedAllConcat(lines, a, g);
    AppliedAllConcat(lines, a + g, b);
  }

  lemma AllUnsignedParts(a: seq<Edit>, group: seq<Edit>, r: Edit, b: seq<Edit>)
    requires AllUnsigned(a + (group + [r]) + b)
    ensures AllUnsigned(a) && AllUnsigned(group + [r]) && AllUnsigned(b)
  {
    hide Unsigned;
    var all := a + (group + [r]) + b;
    assert forall k :: 0 <= k < |a| ==> a[k] == all[k];
    assert forall k :: 0 <= k < |group + [r]| ==> (group + [r])[k] == all[|a| + k];
    assert forall k :: 0 <= k < |b| ==> b[k] == all[|a| + |group| + 1 + k];
  }

  lemma RawStartsFrom(lines: seq<string>, es: seq<Edit>, p: Position)
    requires AllOnLines(lines, es) && forall e :: e in ClampedAll(lines, es) ==> AtOrBefore(p, e.start)
    ensures forall e :: e in es ==> AtOrBefore(p, e.start) && AtOrBefore(e.start, e.end)
  {
    forall k | 0 <= k < |es| ensures AtOrBefore(p, ClampedAll(lines, es)[k].start) {
      assert ClampedAll(lines, es)[k] in ClampedAll(lines, es);
    }
    RawStartsLater(lines, es, p);
  }

  lemma EndsByClamped(lines: seq<string>, es: seq<Edit>, p: Position)
    requires AllOnLines(lines, es) && forall e :: e in ClampedAll(lines, es) ==> AtOrBefore(e.end, p)
    ensures AllEndBy(lines, es, p)
  {
    hide Clamped, AtOrBefore;
    forall e | e in es ensures EndsBy(lines, e, p) {
      var i :| 0 <= i < |es| && es[i] == e;
      assert ClampedAll(lines, es)[i] in ClampedAll(lines, es);
    }
  }

  /** Both orders of the group mean what LSP says, one of them with its edits clamped. */
  lemma {:induction false} BothOrdersMean(lines: seq<string>, es: seq<Edit>, r: Edit, group: seq<Edit>,
                                          others: seq<Edit>, a: seq<Edit>, b: seq<Edit>)
    requires WellFormed(lines, es) && AlwaysMeansClamped(lines, es)
    requires OnLines(lines, r) && AllInsertions(group, r.start)
    requires AllOnLines(lines, a) && AllOnLines(lines, b)
    requires multiset(es) == multiset([r] + group + others) && multiset(a + b) == multiset(others)
    requires BottomUp(ClampedAll(lines, a) + ([Clamped(lines, r)] + group) + ClampedAll(lines, b))
    ensures var (mixed, whole) := (a + (group + [r]) + b,
                                   ClampedAll(lines, a) + ([Clamped(lines, r)] + group) + ClampedAll(lines, b));
            && AllUnsigned(mixed) && AllUnsigned(whole) && AllValid(lines, whole)
            && Join(AppliedAll(lines, mixed)) == Join(AppliedAll(lines, whole))
            && |Join(AppliedAll(lines, mixed))| == |Join(lines)| + Growth(lines, whole)
  {
    FormHolds(lines, es);
    hide *;
    var whole := ClampedAll(lines, a) + ([Clamped(lines, r)] + group) + ClampedAll(lines, b);
    OtherOrder(lines, es, r, group, others, a, b);
    BottomUpMustMean(lines, es, whole);
    OrderMeans(lines, es, a + (group + [r]) + b);
    MeaningLength(lines, ClampedAll(lines, es));
    GrowthRearranged(lines, ClampedAll(lines, es), whole);
  }

  lemma {:induction false} SparesAmong(lines: seq<string>, es: seq<Edit>, r: Edit, group: seq<Edit>, others: seq<Edit>,
                                       a: seq<Edit>, b: seq<Edit>)
    requires WellFormed(lines, es) && AlwaysMeansClamped(lines, es) && AllInsertions(group, r.start)
    requires OnLines(lines, r) && !StartsPast(lines, r) && (Overruns(lines, r) ==> r.start.line < r.end.line)
    requires multiset(es) == multiset([r] + group + others) && multiset(a + b) == multiset(others)
    requires AllOnLines(lines, a) && OverrunsAcrossLines(lines, a)
    requires AllOnLines(lines, b) && OverrunsAcrossLines(lines, b)
    requires BottomUp(ClampedAll(lines, a)) && BottomUp(ClampedAll(lines, b))
    requires forall e :: e in ClampedAll(lines, a) ==> AtOrBefore(Clamped(lines, r).end, e.start)
    requires forall e :: e in ClampedAll(lines, b) ==> AtOrBefore(e.end, r.start)
    ensures ValidEdit(lines, Clamped(lines, r)) && SwallowFree(lines, Texts(Reversed(group)), Clamped(lines, r))
  {
    var c := Clamped(lines, r);
    FormHolds(lines, es);
    ClampedIsValid(lines, r);
    StaysReplacement(lines, r);
    SwallowFreeMeans(lines, "", c);
    hide *;
    var u, v := ClampedAll(lines, a), ClampedAll(lines, b);
    WholeIsBottomUp(lines, u, c, group, v);
    BothOrdersMean(lines, es, r, group, others, a, b);
    OtherOrderLoses(lines, a, r, group, b);
    if Texts(Reversed(group)) != "" {
      SparedWithinLine(lines, u, c, group, v);
    }
  }

  lemma {:induction false} ReplacementMustSpare(lines: seq<string>, es: seq<Edit>, j: nat)
    requires WellFormed(lines, es) && AlwaysMeansClamped(lines, es)
    requires j < |es| && !IsInsertion(es[j]) && OnLines(lines, es[j]) && !StartsPast(lines, es[j])
    ensures SwallowsNothing(lines, es, es[j])
  {
    var r := es[j];
    FormHolds(lines, es);
    assert Overruns(lines, r) ==> r.start.line < r.end.line;
    ReversedTwice(InsertionsAt(es, r.start));
    hide *;
    var group, others := GroupAndOthers(lines, es, j);
    var a, b := AroundReplacement(lines, es, r, group, others);
    SparesAmong(lines, es, r, group, others, a, b);
    SparesGroup(lines, es, r, group);
  }

  lemma OrderMeans(lines: seq<string>, es: seq<Edit>, out: seq<Edit>)
    requires AllOnLines(lines, es) && AlwaysMeansClamped(lines, es) && SortOutcome(es, out)
    ensures AllUnsigned(out) && Join(AppliedAll(lines, out)) == Meaning(lines, ClampedAll(lines, es))
  {
  }

  lemma SparesGroup(lines: seq<string>, es: seq<Edit>, r: Edit, group: seq<Edit>)
    requires OnLines(lines, r) && ValidEdit(lines, Clamped(lines, r))
    requires Reversed(group) == InsertionsAt(es, r.start)
    requires SwallowFree(lines, Texts(Reversed(group)), Clamped(lines, r))
    ensures SwallowsNothing(lines, es, r)
  {
  }

  lemma {:induction false} SparedWithinLine(lines: seq<string>, u: seq<Edit>, c: Edit, group: seq<Edit>, v: seq<Edit>)
    requires AllValid(lines, u) && AllValid(lines, v) && ValidEdit(lines, c) && BottomUp(v)
    requires AllInsertions(group, c.start)
    requires forall e :: e in u ==> AtOrBefore(c.end, e.start)
    requires forall e :: e in v ==> AtOrBefore(e.end, c.start)
    requires AllUnsigned(u + ([c] + group) + v) && AllUnsigned(u + (group + [c]) + v)
    requires Join(AppliedAll(lines, u + ([c] + group) + v)) == Join(AppliedAll(lines, u + (group + [c]) + v))
    ensures SwallowFree(lines, Texts(Reversed(group)), c)
  {
    assert forall e :: e in group ==> IsInsertion(e) && e.start == c.start;
    hide *;
    GroupMustSurvive(lines, u, c, group, v);
  }

  // ---- the main result ----

  /** The exact condition, for every list that LSP allows once its positions are defaulted
      and whose overruns span lines: the result is LSP's for every outcome of the unstable
      sort if and only if insertions at one position commute, no replacement swallows what
      is inserted at its start, and no text is left behind an overrun line. */
  lemma {:induction false} OverrunsMeanLSPExactlyWhen(lines: seq<string>, es: seq<Edit>)
    requires WellFormed(lines, es)
    ensures AllValid(lines, LatestFirst(ClampedAll(lines, es)))
    ensures AlwaysMeansClamped(lines, es)
       <==> InsertionsCommute(es) && NoneSwallowed(lines, es) && NothingBehind(lines, es)
  {
    FormHolds(lines, es);
    LatestFirstExactlyWhen(lines, es);
    hide SortOutcome, AppliedAll, Meaning, SwallowsNothing, NothingBehind, WellFormed, LatestFirst, OnLines, AllValid;
    hide IsInsertion;
    hide Unsigned, OverrunsAcrossLines, InsertionsFirst, NonOverlapping, StartsPast, Commute;
    if InsertionsCommute(es) && NoneSwallowed(lines, es) && NothingBehind(lines, es) {
      forall out | SortOutcome(es, out)
        ensures AllUnsigned(out) && Join(AppliedAll(lines, out)) == Meaning(lines, ClampedAll(lines, es))
      {
        CommutingOverrunsMeanLSP(lines, es, out);
      }
    }
    if AlwaysMeansClamped(lines, es) {
      assert Join(AppliedAll(lines, LatestFirst(es))) == Meaning(lines, ClampedAll(lines, es));
      forall i, j | 0 <= i < j < |es| && IsInsertion(es[i]) && IsInsertion(es[j]) && es[i].start == es[j].start
        ensures Commute(es[i].newText, es[j].newText)
      {
        InsertionsMustCommute(lines, es, i, j);
      }
      forall k | 0 <= k < |es| && !IsInsertion(es[k]) && !StartsPast(lines, es[k])
        ensures SwallowsNothing(lines, es, es[k])
      {
        ReplacementMustSpare(lines, es, k);
      }
    }
  }
}
