/** The order of the edit list does not matter where starts are distinct. */
module EditOrder {
  // Rendering does not depend on the order of the spans, except among those at one offset;
  // and whether two insertions there are swapped shows exactly when their texts do not
  // commute.

  import opened Text
  import opened Edits
  import opened Rearrangement

  // ---- rendering under rearrangement ----

  /** The texts of a and b may stand in either order, or a is an insertion listed before
      the replacement b. */
  predicate InPlace(a: Span, b: Span) {
    a.text + b.text == b.text + a.text || (a.from == a.to && b.from != b.to)
  }

  predicate SettledAt(spans: seq<Span>, i: nat) {
    forall a, b :: 0 <= a < b < |spans| && spans[a].from == i && spans[b].from == i ==> InPlace(spans[a], spans[b])
  }

  /** Spans that share a start are in place. */
  predicate Settled(spans: seq<Span>) {
    forall a, b :: 0 <= a < b < |spans| && spans[a].from == spans[b].from ==> InPlace(spans[a], spans[b])
  }

  function TextOf(x: Span, i: nat): string {
    if x.from == i then x.text else ""
  }

  lemma {:induction false} MoveToFront(spans: seq<Span>, k: nat, i: nat)
    requires k < |spans|
    requires forall a :: 0 <= a < k ==>
               TextOf(spans[a], i) + TextOf(spans[k], i) == TextOf(spans[k], i) + TextOf(spans[a], i)
    ensures TextAt(spans, i) == TextOf(spans[k], i) + TextAt(Without(spans, k), i)
    ensures ResumeAt(spans, i) == ResumeAt([spans[k]] + Without(spans, k), i)
    decreases k
  {
    if k == 0 {
      assert spans == [spans[0]] + Without(spans, 0);
      assert Without(spans, 0) == spans[1..];
    } else {
      var x, y, rest := spans[0], spans[k], Without(spans[1..], k - 1);
      MoveToFront(spans[1..], k - 1, i);
      assert Without(spans, k) == [x] + rest;
      assert ([x] + rest)[1..] == rest && ([y] + rest)[1..] == rest;
      assert ([y] + Without(spans, k))[1..] == [x] + rest;
      Associative(TextOf(x, i), TextOf(y, i), TextAt(rest, i));
      Associative(TextOf(y, i), TextOf(x, i), TextAt(rest, i));
    }
  }

  lemma RemovalKeepsSettled(t: seq<Span>, k: nat, i: nat)
    requires k < |t| && SettledAt(t, i)
    ensures SettledAt(Without(t, k), i)
  {
    var rest := Without(t, k);
    forall a, b | 0 <= a < b < |rest| && rest[a].from == i && rest[b].from == i
      ensures InPlace(rest[a], rest[b])
    {
      var a', b' := if a < k then a else a + 1, if b < k then b else b + 1;
      assert rest[a] == t[a'] && rest[b] == t[b'];
    }
  }

  /** Two spans that are in place in either order commute. */
  lemma FirstCommutes(s: seq<Span>, t: seq<Span>, k: nat, a: nat, i: nat)
    requires SettledAt(s, i) && SettledAt(t, i) && s != [] && a < k < |t| && t[k] == s[0]
    requires multiset(s[1..]) == multiset(Without(t, k))
    ensures TextOf(t[a], i) + TextOf(t[k], i) == TextOf(t[k], i) + TextOf(t[a], i)
  {
    assert Without(t, k)[a] == t[a];
    assert t[a] in multiset(Without(t, k));
    var b := MultisetIndex(s[1..], t[a]);
    assert s[1 + b] == t[a];
  }

  lemma {:induction false} SameTextAt(s: seq<Span>, t: seq<Span>, i: nat)
    requires multiset(s) == multiset(t) && SettledAt(s, i) && SettledAt(t, i)
    ensures TextAt(s, i) == TextAt(t, i) && ResumeAt(s, i) == ResumeAt(t, i)
    decreases |s|
  {
    if s == [] {
      assert |multiset(t)| == 0;
    } else {
      var k := FindAndRemove(s, t);
      forall a | 0 <= a < k
        ensures TextOf(t[a], i) + TextOf(t[k], i) == TextOf(t[k], i) + TextOf(t[a], i)
      {
        FirstCommutes(s, t, k, a, i);
      }
      MoveToFront(t, k, i);
      RemovalKeepsSettled(t, k, i);
      RemovalKeepsSettled(s, 0, i);
      assert Without(s, 0) == s[1..];
      SameTextAt(s[1..], Without(t, k), i);
      assert ([t[k]] + Without(t, k))[1..] == Without(t, k);
    }
  }

  /** s and t insert the same text, and resume at the same place, at every offset from lo on. */
  ghost predicate SameFrom(s: seq<Span>, t: seq<Span>, lo: nat) {
    forall i: nat :: lo <= i ==> TextAt(s, i) == TextAt(t, i) && ResumeAt(s, i) == ResumeAt(t, i)
  }

  lemma {:induction false} RenderSame(text: string, s: seq<Span>, t: seq<Span>, lo: nat, i: nat)
    requires SameFrom(s, t, lo) && lo <= i <= |text|
    ensures Render(text, s, i) == Render(text, t, i)
    decreases |text| - i
  {
    hide TextAt, ResumeAt;
    var resume := ResumeAt(t, i);
    assert TextAt(s, i) == TextAt(t, i) && ResumeAt(s, i) == resume;
    if i < resume <= |text| {
      RenderSame(text, s, t, lo, resume);
    } else if i < |text| {
      RenderSame(text, s, t, lo, i + 1);
    }
  }

  lemma {:induction false} RenderRearranged(text: string, s: seq<Span>, t: seq<Span>)
    requires multiset(s) == multiset(t) && Settled(s) && Settled(t)
    ensures Render(text, s, 0) == Render(text, t, 0)
  {
    forall i: nat ensures TextAt(s, i) == TextAt(t, i) && ResumeAt(s, i) == ResumeAt(t, i) {
      SameTextAt(s, t, i);
    }
    RenderSame(text, s, t, 0, 0);
  }

  // ---- two insertions swapped ----

  lemma SpanInFront(s: seq<Span>, x: Span, rest: seq<Span>, i: nat)
    requires s == [x] + rest
    ensures TextAt(s, i) == TextOf(x, i) + TextAt(rest, i)
    ensures ResumeAt(s, i) == if x.from == i && x.to > ResumeAt(rest, i) then x.to else ResumeAt(rest, i)
  {
    assert s[1..] == rest;
  }

  lemma {:induction false} TextAtConcat(s: seq<Span>, t: seq<Span>, i: nat)
    ensures TextAt(s + t, i) == TextAt(s, i) + TextAt(t, i)
  {
    if s == [] {
      assert s + t == t;
    } else {
      hide TextAt;
      SpanInFront(s, s[0], s[1..], i);
      SpanInFront(s + t, s[0], s[1..] + t, i);
      TextAtConcat(s[1..], t, i);
      Associative(TextOf(s[0], i), TextAt(s[1..], i), TextAt(t, i));
    }
  }

  lemma {:induction false} ResumeAtConcat(s: seq<Span>, t: seq<Span>, i: nat)
    ensures ResumeAt(s + t, i) == if ResumeAt(s, i) > ResumeAt(t, i) then ResumeAt(s, i) else ResumeAt(t, i)
  {
    if s == [] {
      assert s + t == t;
    } else {
      hide ResumeAt;
      SpanInFront(s, s[0], s[1..], i);
      SpanInFront(s + t, s[0], s[1..] + t, i);
      ResumeAtConcat(s[1..], t, i);
    }
  }

  /** x and y are insertions at one offset that nothing else spans. */
  predicate SwappablePair(u: seq<Span>, x: Span, y: Span, v: seq<Span>) {
    && x.from == x.to == y.from == y.to
    && forall k :: 0 <= k < |u + v| ==> (u + v)[k].to <= x.from || (u + v)[k].from >= x.from
  }

  lemma {:induction false} PairAt(u: seq<Span>, x: Span, y: Span, v: seq<Span>, i: nat)
    requires SwappablePair(u, x, y, v)
    ensures TextAt(u + [x, y] + v, i) == TextAt(u, i) + (TextOf(x, i) + TextOf(y, i)) + TextAt(v, i)
    ensures ResumeAt(u + [x, y] + v, i) == ResumeAt(u + v, i)
  {
    TextAtConcat(u + [x, y], v, i);
    TextAtConcat(u, [x, y], i);
    ResumeAtConcat(u + [x, y], v, i);
    ResumeAtConcat(u, [x, y], i);
    ResumeAtConcat(u, v, i);
    assert [x, y][1..] == [y] && [y][1..] == [];
    assert TextAt([y], i) == TextOf(y, i) + "" == TextOf(y, i);
    assert TextAt([x, y], i) == TextOf(x, i) + TextOf(y, i);
    assert ResumeAt([y][1..], i) == i;
    assert ResumeAt([y], i) == i;
    assert ResumeAt([x, y][1..], i) == i;
    assert ResumeAt([x, y], i) == i;
  }

  lemma {:induction false} ResumeBefore(spans: seq<Span>, i: nat, at: nat)
    requires i < at
    requires forall k :: 0 <= k < |spans| ==> spans[k].to <= at || spans[k].from >= at
    ensures ResumeAt(spans, i) <= at
  {
    if spans != [] {
      ResumeBefore(spans[1..], i, at);
    }
  }

  lemma PairElsewhere(u: seq<Span>, x: Span, y: Span, v: seq<Span>, i: nat)
    requires SwappablePair(u, x, y, v) && i != x.from
    ensures TextAt(u + [x, y] + v, i) == TextAt(u + [y, x] + v, i)
    ensures ResumeAt(u + [x, y] + v, i) == ResumeAt(u + [y, x] + v, i)
  {
    PairAt(u, x, y, v, i);
    PairAt(u, y, x, v, i);
  }

  lemma {:induction false} SwapInvisibleAfter(text: string, u: seq<Span>, x: Span, y: Span, v: seq<Span>, i: nat)
    requires SwappablePair(u, x, y, v) && x.from < i <= |text|
    ensures Render(text, u + [x, y] + v, i) == Render(text, u + [y, x] + v, i)
  {
    var s, t := u + [x, y] + v, u + [y, x] + v;
    forall k: nat | x.from + 1 <= k ensures TextAt(s, k) == TextAt(t, k) && ResumeAt(s, k) == ResumeAt(t, k) {
      PairElsewhere(u, x, y, v, k);
    }
    RenderSame(text, s, t, x.from + 1, i);
  }

  lemma CancelBoth(a: string, x: string, y: string, b: string)
    requires a + x + b == a + y + b
    ensures x == y
  {
    assert |x| == |y|;
    assert x == (a + x + b)[|a|..|a| + |x|];
    assert y == (a + y + b)[|a|..|a| + |y|];
  }

  /** Swapping two insertions at one position shows exactly when their texts do not commute. */
  lemma {:induction false} SwapVisible(text: string, u: seq<Span>, x: Span, y: Span, v: seq<Span>, i: nat)
    requires SwappablePair(u, x, y, v) && i <= x.from <= |text|
    requires Render(text, u + [x, y] + v, i) == Render(text, u + [y, x] + v, i)
    ensures x.text + y.text == y.text + x.text
    decreases |text| - i
  {
    if i < x.from {
      var next := StepToPair(text, u, x, y, v, i);
      SwapVisible(text, u, x, y, v, next);
    } else {
      VisibleAtPair(text, u, x, y, v);
    }
  }

  lemma {:induction false} VisibleAtPair(text: string, u: seq<Span>, x: Span, y: Span, v: seq<Span>)
    requires SwappablePair(u, x, y, v) && x.from <= |text|
    requires Render(text, u + [x, y] + v, x.from) == Render(text, u + [y, x] + v, x.from)
    ensures x.text + y.text == y.text + x.text
  {
    RestSwaps(text, u, x, y, v);
    AtPair(text, u, x, y, v);
    AtPair(text, u, y, x, v);
    CancelBoth(TextAt(u, x.from), x.text + y.text, y.text + x.text,
               TextAt(v, x.from) + RenderRest(text, u + [x, y] + v, x.from));
  }

  lemma {:induction false} StepToPair(text: string, u: seq<Span>, x: Span, y: Span, v: seq<Span>, i: nat)
    returns (next: nat)
    requires SwappablePair(u, x, y, v) && i < x.from <= |text|
    requires Render(text, u + [x, y] + v, i) == Render(text, u + [y, x] + v, i)
    ensures i < next <= x.from
    ensures Render(text, u + [x, y] + v, next) == Render(text, u + [y, x] + v, next)
  {
    var s, t := u + [x, y] + v, u + [y, x] + v;
    PairAt(u, x, y, v, i);
    PairAt(u, y, x, v, i);
    var resume := ResumeAt(u + v, i);
    ResumeBefore(u + v, i, x.from);
    next := if i < resume then resume else i + 1;
    var a := TextAt(s, i);
    assert TextAt(t, i) == a;
    if i < resume {
      CancelBoth(a, Render(text, s, next), Render(text, t, next), "");
    } else {
      Associative(a, [text[i]], Render(text, s, next));
      Associative(a, [text[i]], Render(text, t, next));
      CancelBoth(a + [text[i]], Render(text, s, next), Render(text, t, next), "");
    }
  }

  lemma {:induction false} AtPair(text: string, u: seq<Span>, x: Span, y: Span, v: seq<Span>)
    requires SwappablePair(u, x, y, v) && x.from <= |text|
    ensures Render(text, u + [x, y] + v, x.from)
         == TextAt(u, x.from) + (x.text + y.text) + (TextAt(v, x.from) + RenderRest(text, u + [x, y] + v, x.from))
  {
    PairAt(u, x, y, v, x.from);
    Associative(TextAt(u, x.from) + (x.text + y.text), TextAt(v, x.from), RenderRest(text, u + [x, y] + v, x.from));
  }

  lemma RestSwaps(text: string, u: seq<Span>, x: Span, y: Span, v: seq<Span>)
    requires SwappablePair(u, x, y, v) && x.from <= |text|
    ensures RenderRest(text, u + [x, y] + v, x.from) == RenderRest(text, u + [y, x] + v, x.from)
  {
    hide TextAt, ResumeAt, Render;
    var i, s, t := x.from, u + [x, y] + v, u + [y, x] + v;
    PairAt(u, x, y, v, i);
    PairAt(u, y, x, v, i);
    var resume := ResumeAt(s, i);
    assert ResumeAt(t, i) == resume;
    if i < resume <= |text| {
      SwapInvisibleAfter(text, u, x, y, v, resume);
    } else if i < |text| {
      SwapInvisibleAfter(text, u, x, y, v, i + 1);
    }
  }

  // ---- the main results ----

  predicate TiesCommute(es: seq<Edit>) {
    forall i, j :: 0 <= i < j < |es| && es[i].start == es[j].start ==>
      es[i].newText + es[j].newText == es[j].newText + es[i].newText
  }

  /** LSP's meaning of an edit list on a text given as lines. */
  function Meaning(lines: seq<string>, es: seq<Edit>): string
    requires AllValid(lines, es)
  {
    Render(Join(lines), ToSpans(lines, es), 0)
  }

  /** Whatever the unstable sort does, the lines end up as LSP says. */
  ghost predicate AlwaysMeansLSP(lines: seq<string>, es: seq<Edit>)
    requires AllValid(lines, es)
  {
    forall out :: SortOutcome(es, out) ==>
      AllValid(lines, out) && Join(AppliedAll(lines, out)) == Meaning(lines, es)
  }

  lemma {:induction false} SpansRearranged(lines: seq<string>, es: seq<Edit>, out: seq<Edit>)
    requires AllValid(lines, es) && AllValid(lines, out) && multiset(es) == multiset(out)
    ensures multiset(ToSpans(lines, es)) == multiset(ToSpans(lines, out))
    decreases |es|
  {
    if es == [] {
      assert |multiset(out)| == 0;
    } else {
      var k := FindAndRemove(es, out);
      SpansWithout(lines, out, k);
      SpansWithout(lines, es, 0);
      assert Without(es, 0) == es[1..];
      SpansRearranged(lines, es[1..], Without(out, k));
      MultisetWithout(ToSpans(lines, out), k);
      MultisetWithout(ToSpans(lines, es), 0);
    }
  }

  lemma SpansWithout(lines: seq<string>, es: seq<Edit>, k: nat)
    requires AllValid(lines, es) && k < |es|
    ensures AllValid(lines, Without(es, k))
    ensures Without(ToSpans(lines, es), k) == ToSpans(lines, Without(es, k))
  {
    assert forall i :: 0 <= i < |es| - 1 ==> Without(es, k)[i] == es[if i < k then i else i + 1];
  }

  lemma {:induction false} SpansSettle(lines: seq<string>, es: seq<Edit>)
    requires AllValid(lines, es) && TiesCommute(es)
    ensures Settled(ToSpans(lines, es))
  {
    var spans := ToSpans(lines, es);
    forall a, b | 0 <= a < b < |spans| && spans[a].from == spans[b].from
      ensures InPlace(spans[a], spans[b])
    {
      OffsetMonotone(lines, es[a].start, es[b].start);
      assert es[a].start == es[b].start;
    }
  }

  lemma TiesCommuteRearranged(es: seq<Edit>, out: seq<Edit>)
    requires TiesCommute(es) && multiset(es) == multiset(out)
    ensures TiesCommute(out)
  {
    forall i, j | 0 <= i < j < |out| && out[i].start == out[j].start
      ensures out[i].newText + out[j].newText == out[j].newText + out[i].newText
    {
      var a, b := TwoPlaces(es, out, i, j);
      if a < b {
        assert es[a].newText + es[b].newText == es[b].newText + es[a].newText;
      } else {
        assert es[b].newText + es[a].newText == es[a].newText + es[b].newText;
      }
    }
  }

  /** Commuting ties: every outcome of the sort has LSP's meaning. */
  lemma {:induction false} CommutingTiesMeanLSP(lines: seq<string>, es: seq<Edit>, out: seq<Edit>)
    requires |lines| > 0 && AllValid(lines, es) && NonOverlapping(es) && TiesAreInsertions(es)
    requires TiesCommute(es) && SortOutcome(es, out)
    ensures AllValid(lines, out)
    ensures Join(AppliedAll(lines, out)) == Meaning(lines, es)
  {
    hide TiesCommute, Settled, TiesAreInsertions, NonOverlapping;
    EverySortOutcomeRenders(lines, es, out);
    ReversedIsRearranged(out);
    SpansRearranged(lines, Reversed(out), es);
    TiesCommuteRearranged(es, Reversed(out));
    SpansSettle(lines, es);
    SpansSettle(lines, Reversed(out));
    RenderRearranged(Join(lines), TopDownSpans(lines, out), ToSpans(lines, es));
  }

  /** The main theorem.  Valid, pairwise non-overlapping edits with distinct starts,
      given in any order and sorted in any way the sort may choose, rewrite the line
      array into the simultaneous substitution of all ranges in the flat text. */
  lemma {:induction false} DistinctStartsMeanLSP(lines: seq<string>, es: seq<Edit>, out: seq<Edit>)
    requires |lines| > 0 && AllValid(lines, es) && NonOverlapping(es) && DistinctStarts(es)
    requires SortOutcome(es, out)
    ensures AllValid(lines, out)
    ensures Join(AppliedAll(lines, out)) == Meaning(lines, es)
  {
    CommutingTiesMeanLSP(lines, es, out);
  }
}
