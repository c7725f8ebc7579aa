/** Edits with lines past the end of the file, which internal/cmd/edit.go ignores. */
module EditBounds {
  import opened Text
  import opened Edits
  import opened EditTies
  import opened Rearrangement

  /** The range does not lie on the n lines of a file. */
  predicate Outside(n: nat, e: Edit) {
    e.start.line < 0 || e.start.line >= n || e.end.line >= n
  }

  /** The range does not run backwards over lines. */
  predicate Forward(e: Edit) {
    e.start.line <= e.end.line
  }

  /** A range outside the file changes nothing, and neither does a range within a line that
      reaches past the end of that line. */
  lemma IgnoredAsIs(lines: seq<string>, e: Edit)
    requires Unsigned(e)
    ensures e.start.line < 0 || e.start.line >= |lines| || e.end.line >= |lines| ==> Applied(lines, e) == lines
    ensures 0 <= e.start.line == e.end.line < |lines|
            && (e.start.character > |lines[e.start.line]| || e.end.character > |lines[e.start.line]|)
            ==> Applied(lines, e) == lines
  {
  }

  /** An edit puts as many lines in the place of its own as a text without line breaks
      needs, so the file only grows by a range that runs backwards. */
  lemma LinesGrowExactlyWhen(lines: seq<string>, e: Edit)
    requires Unsigned(e)
    ensures |Applied(lines, e)| > |lines| <==> !Outside(|lines|, e) && e.start.line > e.end.line
    ensures !Outside(|lines|, e) ==> |Applied(lines, e)| == |lines| + e.start.line - e.end.line
  {
  }

  /** The edits on existing lines, in order, and the others. */
  function Inside(n: nat, es: seq<Edit>): seq<Edit> {
    if es == [] then [] else (if Outside(n, es[0]) then [] else [es[0]]) + Inside(n, es[1..])
  }

  function NotInside(n: nat, es: seq<Edit>): seq<Edit> {
    if es == [] then [] else (if Outside(n, es[0]) then [es[0]] else []) + NotInside(n, es[1..])
  }

  /** No edit on existing lines runs backwards, as LSP demands of a range. */
  predicate AllForward(n: nat, es: seq<Edit>) {
    forall k :: 0 <= k < |es| ==> Outside(n, es[k]) || Forward(es[k])
  }

  lemma {:induction false} InsideHas(n: nat, es: seq<Edit>)
    ensures forall e :: e in Inside(n, es) ==> e in es && !Outside(n, e)
    ensures forall e :: e in NotInside(n, es) ==> e in es && Outside(n, e)
    ensures multiset(es) == multiset(Inside(n, es)) + multiset(NotInside(n, es))
  {
    if es != [] {
      InsideHas(n, es[1..]);
      assert es == [es[0]] + es[1..];
    }
  }

  lemma {:induction false} NoneInside(n: nat, es: seq<Edit>)
    requires forall k :: 0 <= k < |es| ==> Outside(n, es[k])
    ensures Inside(n, es) == []
  {
    if es != [] {
      NoneInside(n, es[1..]);
    }
  }

  lemma {:induction false} InsideUnsigned(n: nat, es: seq<Edit>)
    requires AllUnsigned(es)
    ensures AllUnsigned(Inside(n, es))
  {
    InsideHas(n, es);
    forall k | 0 <= k < |Inside(n, es)| ensures Unsigned(Inside(n, es)[k]) {
      assert Inside(n, es)[k] in es;
    }
  }

  /** Edits outside the file change nothing, wherever they stand in the list. */
  lemma {:induction false} OutsideChangesNothing(lines: seq<string>, n: nat, es: seq<Edit>)
    requires |lines| <= n && AllUnsigned(es) && AllForward(n, es)
    ensures AllUnsigned(Inside(n, es))
    ensures AppliedAll(lines, es) == AppliedAll(lines, Inside(n, es))
    decreases |es|
  {
    InsideUnsigned(n, es);
    if es != [] {
      var e, rest := es[0], es[1..];
      assert Unsigned(e) && AllUnsigned(rest) && AllForward(n, rest);
      IgnoredAsIs(lines, e);
      LinesGrowExactlyWhen(lines, e);
      hide Applied, Unsigned;
      OutsideChangesNothing(Applied(lines, e), n, rest);
      if Outside(n, e) {
        assert Inside(n, es) == Inside(n, rest);
      } else {
        assert Inside(n, es) == [e] + Inside(n, rest);
        assert ([e] + Inside(n, rest))[1..] == Inside(n, rest);
      }
    }
  }

  // ---- whatever the sort does ----

  lemma {:induction false} InsideConcat(n: nat, a: seq<Edit>, b: seq<Edit>)
    ensures Inside(n, a + b) == Inside(n, a) + Inside(n, b)
  {
    if a == [] {
      assert a + b == b;
    } else {
      assert (a + b)[1..] == a[1..] + b;
      InsideConcat(n, a[1..], b);
    }
  }

  lemma {:induction false} InsideOfInside(n: nat, s: seq<Edit>)
    requires forall e :: e in s ==> !Outside(n, e)
    ensures Inside(n, s) == s
  {
    if s != [] {
      InsideOfInside(n, s[1..]);
    }
  }

  lemma {:induction false} InsideCount(n: nat, es: seq<Edit>, e: Edit)
    ensures multiset(Inside(n, es))[e] == if Outside(n, e) then 0 else multiset(es)[e]
  {
    InsideHas(n, es);
    if Outside(n, e) {
      assert e !in Inside(n, es) && e !in multiset(Inside(n, es));
    } else {
      assert e !in NotInside(n, es) && e !in multiset(NotInside(n, es));
    }
  }

  lemma {:induction false} InsideSorted(n: nat, es: seq<Edit>)
    requires SortedBottomUp(es)
    ensures SortedBottomUp(Inside(n, es))
  {
    if es != [] {
      var rest, e := Inside(n, es[1..]), es[0];
      InsideSorted(n, es[1..]);
      InsideHas(n, es[1..]);
      forall k | 0 <= k < |rest| ensures AtOrBefore(rest[k].start, e.start) {
        assert rest[k] in es[1..];
        var i :| 0 <= i < |es[1..]| && es[1..][i] == rest[k];
        assert es[i + 1] == rest[k];
      }
    }
  }

  /** An outcome of the sort is, inside the file, an outcome of the sort. */
  lemma {:induction false} OutcomeInside(n: nat, es: seq<Edit>, out: seq<Edit>)
    requires SortOutcome(es, out)
    ensures SortOutcome(Inside(n, es), Inside(n, out))
  {
    InsideSorted(n, out);
    forall e ensures multiset(Inside(n, es))[e] == multiset(Inside(n, out))[e] {
      InsideCount(n, es, e);
      InsideCount(n, out, e);
    }
    assert multiset(Inside(n, es)) == multiset(Inside(n, out));
  }

  /** And every one is: the other edits can be sorted in. */
  lemma {:induction false} OutcomeAround(n: nat, es: seq<Edit>, inner: seq<Edit>) returns (out: seq<Edit>)
    requires SortOutcome(Inside(n, es), inner)
    ensures SortOutcome(es, out) && Inside(n, out) == inner
  {
    InsideHas(n, es);
    forall e | e in inner ensures !Outside(n, e) {
      assert e in multiset(inner) && e in multiset(Inside(n, es)) && e in Inside(n, es);
    }
    InsideOfInside(n, inner);
    out := SortedIn(n, NotInside(n, es), inner);
  }

  lemma {:induction false} InsideAround(n: nat, a: seq<Edit>, e: Edit, b: seq<Edit>)
    requires Outside(n, e)
    ensures Inside(n, a + [e] + b) == Inside(n, a + b)
  {
    InsideConcat(n, a + [e], b);
    InsideConcat(n, a, [e]);
    InsideConcat(n, a, b);
    assert Inside(n, [e]) == [] by { assert [e][1..] == []; }
  }

  lemma {:induction false} SortedIn(n: nat, others: seq<Edit>, inner: seq<Edit>) returns (out: seq<Edit>)
    requires SortedBottomUp(inner) && forall e :: e in others ==> Outside(n, e)
    ensures SortedBottomUp(out) && Inside(n, out) == Inside(n, inner)
    ensures multiset(out) == multiset(inner) + multiset(others)
    decreases |others|
  {
    hide SortedBottomUp, Inside, Outside, Place;
    if others == [] {
      out := inner;
    } else {
      var e := others[0];
      assert others == [e] + others[1..];
      var rest := SortedIn(n, others[1..], inner);
      var k := Place(e, rest);
      PlaceSorts(e, rest, k);
      out := rest[..k] + [e] + rest[k..];
      assert rest == rest[..k] + rest[k..];
      InsideAround(n, rest[..k], e, rest[k..]);
      MultisetInsert(rest[..k], e, rest[k..]);
    }
  }

  /** Without the condition the law fails: behind an edit that runs backwards the file is
      longer, and an edit that reached past its end does apply. */
  lemma {:induction false} BackwardEditRevives()
    ensures var es := [Edit(Position(2, 0), Position(0, 0), ""), Edit(Position(0, 0), Position(3, 0), "X")];
            && SortOutcome(es, es) && Inside(3, es) == es[..1]
            && AppliedAll(["a", "b", "c"], es) == ["Xb", "c"]
            && AppliedAll(["a", "b", "c"], es[..1]) == ["a", "b", "a", "b", "c"]
  {
    var b, f := Edit(Position(2, 0), Position(0, 0), ""), Edit(Position(0, 0), Position(3, 0), "X");
    var lines := ["a", "b", "c"];
    assert [b, f][..1] == [b] && Inside(3, [b, f][1..]) == [] by { assert [b, f][1..] == [f] && [f][1..] == []; }
    assert "c"[..0] + "" + "a"[0..] == "a" && "a"[..0] + "X" + "b"[0..] == "Xb";
    assert Applied(lines, b) == ["a", "b", "a", "b", "c"];
    assert Applied(["a", "b", "a", "b", "c"], f) == ["Xb", "c"];
    TwoEdits(lines, b, f);
    OneEdit(lines, b);
  }
}
