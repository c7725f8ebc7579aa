/** Text edits with positions past the end of a line. */
module EditClamps {
  // LSP 3.17 lets such a character default back to the line length (section "Position").
  // internal/cmd/edit.go compares it with the line as edited so far, so a range can reach
  // into text that an earlier edit has put behind the line.  When that shows is stated
  // here, for one edit and for a list.

  import opened Text
  import opened Edits
  import opened EditOrder
  import opened EditTies
  import opened Rearrangement

  /** LSP: a character past the end of its line defaults back to the line length. */
  function Clamped(lines: seq<string>, e: Edit): Edit
    requires 0 <= e.start.line < |lines| && 0 <= e.end.line < |lines|
  {
    e.(start := ClampedPosition(lines, e.start), end := ClampedPosition(lines, e.end))
  }

  function ClampedPosition(lines: seq<string>, p: Position): Position
    requires 0 <= p.line < |lines|
  {
    if p.character > |lines[p.line]| then p.(character := |lines[p.line]|) else p
  }

  /** A range inside one line whose end lies past the line's end is ignored instead of
      clamped; every other range on existing lines is treated as LSP says. */
  lemma ClampsExactlyWhen(lines: seq<string>, e: Edit)
    requires 0 <= e.start.line <= e.end.line < |lines| && Unsigned(e) && AtOrBefore(e.start, e.end)
    ensures ValidEdit(lines, Clamped(lines, e))
    ensures Applied(lines, e) == Applied(lines, Clamped(lines, e))
       <==> (e.start.line < e.end.line
             || e.end.character <= |lines[e.end.line]|
             || lines[e.start.line] == lines[e.start.line][..ClampedPosition(lines, e.start).character] + e.newText)
  {
    var c, ln := Clamped(lines, e), lines[e.start.line];
    var last := lines[e.end.line];
    assert last[|last|..] == "";
    if e.start.line == e.end.line && e.end.character > |ln| {
      var out := ln[..c.start.character] + e.newText + ln[c.end.character..];
      assert out == ln[..c.start.character] + e.newText;
      assert Applied(lines, c)[e.start.line] == out;
      if ln == out {
        assert lines[e.start.line := ln] == lines;
      }
    }
  }

  // ---- one edit, on lines already edited below it ----

  /** A range on existing lines, the start not after the end. */
  predicate OnLines(lines: seq<string>, e: Edit) {
    0 <= e.start.line <= e.end.line < |lines| && Unsigned(e) && AtOrBefore(e.start, e.end)
  }

  /** The range ends past the end of its line. */
  predicate Overruns(lines: seq<string>, e: Edit)
    requires OnLines(lines, e)
  {
    e.end.character > |lines[e.end.line]|
  }

  function EndOfLine(lines: seq<string>, l: nat): Position
    requires l < |lines|
  {
    Position(l, |lines[l]|)
  }

  /** e does the same as its clamped form on a line behind which the text `behind` stands
      by now: across lines only if there is none; within the line only if e is ignored
      and would change nothing, or is an insertion that commutes with what it passes. */
  predicate Harmless(lines: seq<string>, behind: string, e: Edit)
    requires OnLines(lines, e) && Overruns(lines, e)
  {
    var (ln, c) := (lines[e.end.line], e.start.character);
    if e.start.line < e.end.line then behind == ""
    else if e.end.character <= |ln| + |behind| then
      e.start == e.end && Commute(behind[..c - |ln|], e.newText)
    else ln == ln[..if c > |ln| then |ln| else c] + e.newText
  }

  lemma ClampedIsValid(lines: seq<string>, e: Edit)
    requires OnLines(lines, e)
    ensures ValidEdit(lines, Clamped(lines, e))
    ensures Overruns(lines, e) ==> Clamped(lines, e).end == EndOfLine(lines, e.end.line)
    ensures e.start.line == e.end.line && !Overruns(lines, e) ==> Clamped(lines, e) == e
  {
  }

  /** Where the lines are as in the original up to the end of an edit across lines, the
      edit keeps what stands in front of its clamped start, and of the rest of its last
      line what lies past its end. */
  lemma AcrossLines(cur: seq<string>, lines: seq<string>, e: Edit)
    requires OnLines(lines, e) && e.start.line < e.end.line
    requires AgreeBefore(cur, lines, Clamped(lines, e).end)
    ensures ValidEdit(cur, Clamped(lines, e))
    ensures Applied(cur, e)
         == Merged(cur, Clamped(lines, e),
                   if e.end.character <= |cur[e.end.line]| then cur[e.end.line][e.end.character..] else "")
    ensures Applied(cur, Clamped(lines, e))
         == Merged(cur, Clamped(lines, e), cur[e.end.line][Clamped(lines, e).end.character..])
  {
    assert cur[e.start.line] == cur[..e.end.line][e.start.line] == lines[..e.end.line][e.start.line];
  }

  /** The lines with the range of e replaced and `tail` behind it. */
  function Merged(lines: seq<string>, e: Edit, tail: string): seq<string>
    requires ValidEdit(lines, e)
  {
    lines[..e.start.line]
    + [lines[e.start.line][..e.start.character] + e.newText + tail]
    + lines[e.end.line + 1..]
  }

  lemma MergedLength(lines: seq<string>, e: Edit, s: string, t: string)
    requires ValidEdit(lines, e)
    ensures |Join(Merged(lines, e, s))| - |s| == |Join(Merged(lines, e, t))| - |t|
  {
    var a, head := lines[..e.start.line], lines[e.start.line][..e.start.character];
    var b := lines[e.end.line + 1..];
    JoinMerged(a, head, e.newText, s, b);
    JoinMerged(a, head, e.newText, t, b);
  }

  /** An edit across lines never leaves more text than its clamped form, and leaves as
      much only if it does the same: unless it ends within its line, nothing may stand
      behind the line. */
  lemma {:induction false} AcrossLinesExactlyWhen(cur: seq<string>, lines: seq<string>, e: Edit)
    requires OnLines(lines, e) && e.start.line < e.end.line
    requires AgreeBefore(cur, lines, Clamped(lines, e).end)
    ensures ValidEdit(cur, Clamped(lines, e))
    ensures |Join(Applied(cur, e))| <= |Join(Applied(cur, Clamped(lines, e)))|
    ensures var same := !Overruns(lines, e) || Harmless(lines, cur[e.end.line][|lines[e.end.line]|..], e);
            && (Applied(cur, e) == Applied(cur, Clamped(lines, e)) <==> same)
            && (|Join(Applied(cur, e))| == |Join(Applied(cur, Clamped(lines, e)))| <==> same)
  {
    var (c, l) := (Clamped(lines, e), e.end.line);
    AcrossLines(cur, lines, e);
    hide Applied, Join;
    var rest := cur[l][c.end.character..];
    var tail := if e.end.character <= |cur[l]| then cur[l][e.end.character..] else "";
    MergedLength(cur, c, tail, rest);
    if |tail| == |rest| {
      assert tail == rest;
    }
  }

  /** Within a line: e clamped, and e itself, on a line with `behind` behind it. */
  lemma {:induction false} WithinLineExactlyWhen(cur: seq<string>, lines: seq<string>, e: Edit)
    requires OnLines(lines, e) && e.start.line == e.end.line && Overruns(lines, e)
    requires AgreeBefore(cur, lines, EndOfLine(lines, e.end.line))
    ensures !Panics(cur, e) && ValidEdit(cur, Clamped(lines, e))
    ensures Applied(cur, e) == Applied(cur, Clamped(lines, e))
       <==> Harmless(lines, cur[e.end.line][|lines[e.end.line]|..], e)
  {
    var (l, ln, s, d) := (e.end.line, lines[e.end.line], e.start.character, e.end.character);
    var behind := cur[l][|ln|..];
    assert cur[l] == ln + behind;
    var c := if s > |ln| then |ln| else s;
    assert cur[l][..c] == ln[..c];
    var clamped := ln[..c] + e.newText + behind;
    assert Applied(cur, Clamped(lines, e)) == cur[l := clamped];
    if d <= |cur[l]| {
      var own := cur[l][..s] + e.newText + cur[l][d..];
      assert Applied(cur, e) == cur[l := own];
      assert cur[l := own][l] == own && cur[l := clamped][l] == clamped;
      WithinLine(ln, behind, e.newText, s, d);
    } else {
      assert Applied(cur, e) == cur == cur[l := cur[l]];
      assert cur[l := clamped][l] == clamped;
      CancelBehind(ln, ln[..c] + e.newText, behind);
    }
  }

  lemma CancelBehind(a: string, b: string, behind: string)
    ensures a + behind == b + behind <==> a == b
  {
    if a + behind == b + behind {
      assert "" + a + behind == a + behind && "" + b + behind == b + behind;
      CancelBoth("", a, b, behind);
    }
  }

  lemma WithinLine(ln: string, behind: string, text: string, s: nat, d: nat)
    requires s <= d && |ln| < d <= |ln| + |behind|
    ensures (ln + behind)[..s] + text + (ln + behind)[d..] == ln[..if s > |ln| then |ln| else s] + text + behind
       <==> s == d && Commute(behind[..s - |ln|], text)
  {
    if s == d {
      var k := s - |ln|;
      var (x, y) := (behind[..k], behind[k..]);
      assert behind == x + y;
      assert (ln + behind)[..s] + text + (ln + behind)[d..] == ln + (x + text) + y;
      assert ln[..|ln|] + text + behind == ln + (text + x) + y;
      if ln + (x + text) + y == ln + (text + x) + y {
        CancelBoth(ln, x + text, text + x, y);
      }
    }
  }

  // ---- a list of edits ----

  predicate AllOnLines(lines: seq<string>, es: seq<Edit>) {
    forall k :: 0 <= k < |es| ==> OnLines(lines, es[k])
  }

  function ClampedAll(lines: seq<string>, es: seq<Edit>): (r: seq<Edit>)
    requires AllOnLines(lines, es)
    ensures |r| == |es| && forall k :: 0 <= k < |es| ==> r[k] == Clamped(lines, es[k])
    ensures AllValid(lines, r)
  {
    seq(|es|, k requires 0 <= k < |es| => Clamped(lines, es[k]))
  }

  predicate AllFrom(p: Position, es: seq<Edit>) {
    forall k :: 0 <= k < |es| ==> AtOrBefore(p, es[k].start)
  }

  /** The text from p to the end of its line after the edits, none of which starts before
      p, have been applied in turn: only the last one on the line of p matters, and what
      the earlier ones left behind its end. */
  function After(lines: seq<string>, es: seq<Edit>, p: Position): string
    requires ValidPosition(lines, p) && AllValid(lines, es)
    decreases |es|
  {
    if es == [] then lines[p.line][p.character..]
    else
      var e, most := es[|es| - 1], es[..|es| - 1];
      if e.start.line == p.line && p.character <= e.start.character then
        lines[p.line][p.character..e.start.character] + e.newText + After(lines, most, e.end)
      else After(lines, most, p)
  }

  lemma {:induction false} LastApplied(lines: seq<string>, es: seq<Edit>)
    requires AllUnsigned(es) && es != []
    ensures AppliedAll(lines, es) == Applied(AppliedAll(lines, es[..|es| - 1]), es[|es| - 1])
  {
    var (e, most) := (es[|es| - 1], es[..|es| - 1]);
    assert es == most + [e];
    AppliedAllConcat(lines, most, [e]);
    OneEdit(AppliedAll(lines, most), e);
  }

  lemma MostOf(lines: seq<string>, es: seq<Edit>)
    requires AllValid(lines, es) && BottomUp(es) && es != []
    ensures var (e, most) := (es[|es| - 1], es[..|es| - 1]);
            AllValid(lines, most) && BottomUp(most) && AllFrom(e.end, most) && ValidEdit(lines, e)
  {
  }

  lemma LineAfterEdit(cur: seq<string>, lines: seq<string>, e: Edit, p: Position)
    requires ValidEdit(lines, e) && AgreeBefore(cur, lines, e.end)
    requires e.start.line == p.line && 0 <= p.character <= e.start.character
    ensures !Panics(cur, e) && p.line < |Applied(cur, e)| && p.character <= |Applied(cur, e)[p.line]|
    ensures Applied(cur, e)[p.line][p.character..]
         == lines[p.line][p.character..e.start.character] + e.newText + cur[e.end.line][e.end.character..]
  {
    AgreeEarlier(cur, lines, e.end, e.start);
    AppliedShape(cur, e);
    var (c, s) := (p.character, e.start.character);
    var (head, rest) := (cur[p.line][..s], e.newText + cur[e.end.line][e.end.character..]);
    assert Applied(cur, e)[p.line] == head + rest;
    assert head == lines[p.line][..s];
    assert (head + rest)[c..] == head[c..] + rest;
    assert head[c..] == lines[p.line][c..s];
  }

  /** `After` is what the code leaves on the line. */
  lemma {:induction false} AfterIsRest(lines: seq<string>, es: seq<Edit>, p: Position)
    requires ValidPosition(lines, p) && AllValid(lines, es) && BottomUp(es) && AllFrom(p, es)
    ensures AllUnsigned(es) && AgreeBefore(AppliedAll(lines, es), lines, p)
    ensures AppliedAll(lines, es)[p.line][p.character..] == After(lines, es, p)
    decreases |es|
  {
    if es != [] {
      var e, most := es[|es| - 1], es[..|es| - 1];
      LastApplied(lines, es);
      MostOf(lines, es);
      AfterIsRest(lines, most, e.end);
      var cur := AppliedAll(lines, most);
      assert AtOrBefore(p, e.start);
      if e.start.line == p.line {
        LineAfterEdit(cur, lines, e, p);
      } else {
        AfterIsRest(lines, most, p);
        assert Applied(cur, e)[p.line] == cur[p.line];
      }
      AgreeEarlier(cur, lines, e.end, e.start);
      AgreeEarlier(cur, lines, e.start, p);
      KeepsBefore(cur, lines, p, e);
    }
  }

  /** What the edits in front of the k-th have left behind the line where it ends. */
  function Behind(lines: seq<string>, es: seq<Edit>, k: nat): string
    requires AllOnLines(lines, es) && k < |es|
  {
    After(lines, ClampedAll(lines, es[..k]), EndOfLine(lines, es[k].end.line))
  }

  /** No overrun reaches into what was put behind its line. */
  predicate AllHarmless(lines: seq<string>, es: seq<Edit>)
    requires AllOnLines(lines, es)
  {
    forall k :: 0 <= k < |es| && Overruns(lines, es[k]) ==> Harmless(lines, Behind(lines, es, k), es[k])
  }

  lemma HarmlessPrefix(lines: seq<string>, es: seq<Edit>)
    requires AllOnLines(lines, es) && es != []
    ensures var (n, most) := (|es| - 1, es[..|es| - 1]);
            && AllOnLines(lines, most) && OnLines(lines, es[n])
            && (AllHarmless(lines, es)
                <==> AllHarmless(lines, most)
                     && (Overruns(lines, es[n]) ==> Harmless(lines, Behind(lines, es, n), es[n])))
  {
    hide Harmless, OnLines, Overruns, After, EndOfLine;
    var n := |es| - 1;
    var most := es[..n];
    assert forall k :: 0 <= k < n ==> most[k] == es[k] && most[..k] == es[..k];
    if AllHarmless(lines, most) && (Overruns(lines, es[n]) ==> Harmless(lines, Behind(lines, es, n), es[n])) {
      forall k | 0 <= k < |es| && Overruns(lines, es[k]) ensures Harmless(lines, Behind(lines, es, k), es[k]) {
        if k < n {
          assert Harmless(lines, Behind(lines, most, k), most[k]);
        }
      }
    }
    if AllHarmless(lines, es) {
      forall k | 0 <= k < n && Overruns(lines, most[k]) ensures Harmless(lines, Behind(lines, most, k), most[k]) {
        assert Harmless(lines, Behind(lines, es, k), es[k]);
      }
    }
  }

  /** The lines as the clamped edits in front of the last leave them. */
  lemma {:induction false} BeforeLast(lines: seq<string>, es: seq<Edit>)
    requires AllOnLines(lines, es) && es != [] && BottomUp(ClampedAll(lines, es))
    ensures var (e, most) := (es[|es| - 1], es[..|es| - 1]);
            && AllUnsigned(es) && AllUnsigned(most) && AllOnLines(lines, most) && OnLines(lines, e)
            && BottomUp(ClampedAll(lines, most))
            && AgreeBefore(AppliedAll(lines, ClampedAll(lines, most)), lines, Clamped(lines, e).end)
            && AgreeBefore(AppliedAll(lines, most), lines, Clamped(lines, e).end)
            && AppliedAll(lines, es) == Applied(AppliedAll(lines, most), e)
            && AppliedAll(lines, ClampedAll(lines, es))
               == Applied(AppliedAll(lines, ClampedAll(lines, most)), Clamped(lines, e))
            && (Overruns(lines, e) ==>
                AppliedAll(lines, ClampedAll(lines, most))[e.end.line][|lines[e.end.line]|..]
                == Behind(lines, es, |es| - 1))
  {
    hide After, Applied, AppliedAll, BottomUp, AgreeBefore, AtOrBefore, Clamped;
    var (e, most) := (es[|es| - 1], es[..|es| - 1]);
    ClampedSplits(lines, es);
    var c, all := Clamped(lines, e), ClampedAll(lines, es);
    ClampedIsValid(lines, e);
    MostOf(lines, all);
    RawStartsLater(lines, most, c.end);
    LastApplied(lines, es);
    LastApplied(lines, all);
    AfterIsRest(lines, ClampedAll(lines, most), c.end);
    AgreesEverywhere(lines, c.end);
    AllKeepBefore(lines, lines, c.end, most);
  }

  lemma ClampedSplits(lines: seq<string>, es: seq<Edit>)
    requires AllOnLines(lines, es) && es != []
    ensures var (e, most, all) := (es[|es| - 1], es[..|es| - 1], ClampedAll(lines, es));
            && AllOnLines(lines, most) && OnLines(lines, e) && AllUnsigned(es) && AllUnsigned(most)
            && all[..|es| - 1] == ClampedAll(lines, most) && all[|es| - 1] == Clamped(lines, e)
  {
    hide Clamped;
  }

  lemma RawStartsLater(lines: seq<string>, es: seq<Edit>, p: Position)
    requires AllOnLines(lines, es) && AllFrom(p, ClampedAll(lines, es))
    ensures forall e :: e in es ==> AtOrBefore(p, e.start) && AtOrBefore(e.start, e.end)
  {
    forall k | 0 <= k < |es| ensures AtOrBefore(p, es[k].start) && AtOrBefore(es[k].start, es[k].end) {
      assert AtOrBefore(p, ClampedAll(lines, es)[k].start);
    }
  }

  /** One edit and its clamped form do the same where the edit is harmless. */
  lemma {:induction false} SameStep(cur: seq<string>, lines: seq<string>, e: Edit)
    requires OnLines(lines, e) && AgreeBefore(cur, lines, Clamped(lines, e).end)
    requires Overruns(lines, e) ==> Harmless(lines, cur[e.end.line][|lines[e.end.line]|..], e)
    ensures !Panics(cur, e) && ValidEdit(cur, Clamped(lines, e))
    ensures Applied(cur, e) == Applied(cur, Clamped(lines, e))
  {
    hide Harmless, Applied;
    ClampedIsValid(lines, e);
    AgreeEarlier(cur, lines, Clamped(lines, e).end, Clamped(lines, e).start);
    if e.start.line < e.end.line {
      AcrossLinesExactlyWhen(cur, lines, e);
    } else if Overruns(lines, e) {
      WithinLineExactlyWhen(cur, lines, e);
    }
  }

  /** A list of edits does what its clamped form does if every overrun is harmless. */
  lemma {:induction false} HarmlessMeansClamped(lines: seq<string>, es: seq<Edit>)
    requires AllOnLines(lines, es) && BottomUp(ClampedAll(lines, es)) && AllHarmless(lines, es)
    ensures AllUnsigned(es) && AllUnsigned(ClampedAll(lines, es))
    ensures AppliedAll(lines, es) == AppliedAll(lines, ClampedAll(lines, es))
    decreases |es|
  {
    if es == [] {
      assert ClampedAll(lines, es) == es;
    } else {
      var e, most := es[|es| - 1], es[..|es| - 1];
      BeforeLast(lines, es);
      HarmlessPrefix(lines, es);
      hide *;
      HarmlessMeansClamped(lines, most);
      SameStep(AppliedAll(lines, most), lines, e);
    }
  }

  predicate OverrunsAcrossLines(lines: seq<string>, es: seq<Edit>)
    requires AllOnLines(lines, es)
  {
    forall k :: 0 <= k < |es| && Overruns(lines, es[k]) ==> es[k].start.line < es[k].end.line
  }

  lemma {:induction false} StepShrinks(cur: seq<string>, lines: seq<string>, e: Edit)
    requires OnLines(lines, e) && AgreeBefore(cur, lines, Clamped(lines, e).end)
    requires Overruns(lines, e) ==> e.start.line < e.end.line
    ensures ValidEdit(lines, Clamped(lines, e)) && !Panics(cur, e)
    ensures var c := Clamped(lines, e);
            && |Join(Applied(cur, e))| <= Offset(lines, c.start) + |e.newText| + |Join(cur)| - Offset(lines, c.end)
            && (|Join(Applied(cur, e))| == Offset(lines, c.start) + |e.newText| + |Join(cur)| - Offset(lines, c.end)
                ==> Overruns(lines, e) ==> Harmless(lines, cur[e.end.line][|lines[e.end.line]|..], e))
  {
    hide Harmless, Applied, Join;
    var c := Clamped(lines, e);
    ClampedIsValid(lines, e);
    StepKeepsAgreement(cur, lines, c.end, c);
    OffsetMonotone(lines, c.start, c.end);
    if e.start.line < e.end.line {
      AcrossLinesExactlyWhen(cur, lines, e);
    }
  }

  lemma AcrossPrefix(lines: seq<string>, es: seq<Edit>)
    requires AllOnLines(lines, es) && OverrunsAcrossLines(lines, es) && es != []
    ensures var (e, most) := (es[|es| - 1], es[..|es| - 1]);
            && AllOnLines(lines, most) && OnLines(lines, e) && OverrunsAcrossLines(lines, most)
            && (Overruns(lines, e) ==> e.start.line < e.end.line)
  {
    hide OnLines, Overruns;
  }

  /** If nothing was lost so far and the last edit loses nothing, it is harmless. */
  lemma {:induction false} NothingLost(lines: seq<string>, es: seq<Edit>)
    requires AllOnLines(lines, es) && BottomUp(ClampedAll(lines, es)) && OverrunsAcrossLines(lines, es)
    requires es != [] && AllOnLines(lines, es[..|es| - 1]) && AllHarmless(lines, es[..|es| - 1])
    requires AllUnsigned(es) && AllUnsigned(ClampedAll(lines, es))
    requires |Join(AppliedAll(lines, es))| == |Join(AppliedAll(lines, ClampedAll(lines, es)))|
    ensures AllHarmless(lines, es)
  {
    hide *;
    var e, most := es[|es| - 1], es[..|es| - 1];
    AcrossPrefix(lines, es);
    BeforeLast(lines, es);
    HarmlessMeansClamped(lines, most);
    var cur := AppliedAll(lines, most);
    StepShrinks(cur, lines, e);
    ClampedStepLength(cur, lines, e);
    HarmlessPrefix(lines, es);
  }

  /** Overruns across lines only ever lose text, and lose none exactly when harmless. */
  lemma {:induction false} OverrunsShrink(lines: seq<string>, es: seq<Edit>)
    requires AllOnLines(lines, es) && BottomUp(ClampedAll(lines, es)) && OverrunsAcrossLines(lines, es)
    ensures AllUnsigned(es) && AllUnsigned(ClampedAll(lines, es))
    ensures |Join(AppliedAll(lines, es))| <= |Join(AppliedAll(lines, ClampedAll(lines, es)))|
    ensures |Join(AppliedAll(lines, es))| == |Join(AppliedAll(lines, ClampedAll(lines, es)))| ==> AllHarmless(lines, es)
    decreases |es|
  {
    if es == [] {
      assert ClampedAll(lines, es) == es;
    } else {
      hide *;
      var e, most := es[|es| - 1], es[..|es| - 1];
      AcrossPrefix(lines, es);
      BeforeLast(lines, es);
      OverrunsShrink(lines, most);
      StepShrinks(AppliedAll(lines, most), lines, e);
      ClampedStepLength(AppliedAll(lines, ClampedAll(lines, most)), lines, e);
      if |Join(AppliedAll(lines, es))| == |Join(AppliedAll(lines, ClampedAll(lines, es)))| {
        NothingLost(lines, es);
      }
    }
  }

  lemma ClampedStepLength(cur: seq<string>, lines: seq<string>, e: Edit)
    requires OnLines(lines, e) && AgreeBefore(cur, lines, Clamped(lines, e).end)
    ensures ValidEdit(lines, Clamped(lines, e)) && !Panics(cur, Clamped(lines, e))
    ensures var c := Clamped(lines, e);
            |Join(Applied(cur, c))| == Offset(lines, c.start) + |e.newText| + |Join(cur)| - Offset(lines, c.end)
  {
    ClampedIsValid(lines, e);
    var c := Clamped(lines, e);
    hide Applied, Join, AgreeBefore, Panics;
    StepKeepsAgreement(cur, lines, c.end, c);
    OffsetsInText(lines, c);
  }

  lemma OffsetsInText(lines: seq<string>, c: Edit)
    requires ValidEdit(lines, c)
    ensures Offset(lines, c.start) <= Offset(lines, c.end) <= |Join(lines)|
  {
    OffsetMonotone(lines, c.start, c.end);
  }

  /** The exact condition, for edits applied bottom-up whose overruns span lines: the text
      is the one LSP's defaulting of positions gives if and only if no overrun ends on a
      line behind which some text has been put. */
  lemma {:induction false} ClampsAllExactlyWhen(lines: seq<string>, es: seq<Edit>)
    requires AllOnLines(lines, es) && BottomUp(ClampedAll(lines, es)) && OverrunsAcrossLines(lines, es)
    ensures AllUnsigned(es) && AllUnsigned(ClampedAll(lines, es))
    ensures Join(AppliedAll(lines, es)) == Join(AppliedAll(lines, ClampedAll(lines, es))) <==> AllHarmless(lines, es)
  {
    OverrunsShrink(lines, es);
    if AllHarmless(lines, es) {
      HarmlessMeansClamped(lines, es);
    }
  }

  /** What insertions leave behind a line: nothing exactly when all those at its end are
      empty. */
  lemma {:induction false} NothingBehindExactlyWhen(lines: seq<string>, es: seq<Edit>, l: nat)
    requires l < |lines| && AllValid(lines, es) && AllFrom(EndOfLine(lines, l), es)
    requires forall e :: e in es && e.start == EndOfLine(lines, l) ==> IsInsertion(e)
    ensures After(lines, es, EndOfLine(lines, l)) == ""
       <==> forall e :: e in es && e.start == EndOfLine(lines, l) ==> e.newText == ""
    decreases |es|
  {
    var p := EndOfLine(lines, l);
    if es == [] {
      assert lines[l][|lines[l]|..] == "";
    } else {
      var e, most := es[|es| - 1], es[..|es| - 1];
      assert es == most + [e];
      assert AtOrBefore(p, e.start) && ValidEdit(lines, e);
      NothingBehindExactlyWhen(lines, most, l);
      assert e.start.line == l ==> e.start == p == e.end;
    }
  }

  /** One insertion at the end of a line and one edit across lines that overruns it. */
  lemma OverrunExactlyWhen(lines: seq<string>, i: Edit, d: Edit)
    requires OnLines(lines, d) && Overruns(lines, d) && d.start.line < d.end.line
    requires i == Edit(EndOfLine(lines, d.end.line), EndOfLine(lines, d.end.line), i.newText)
    ensures Applied(Applied(lines, i), d) == Applied(Applied(lines, i), Clamped(lines, d)) <==> i.newText == ""
  {
    var (l, ln) := (d.end.line, lines[d.end.line]);
    var cur := Applied(lines, i);
    assert cur == lines[l := ln + i.newText] by {
      assert ln[..|ln|] + i.newText + ln[|ln|..] == ln + i.newText;
    }
    assert cur[l][|ln|..] == i.newText;
    assert cur[l][..|ln|] == ln == ln[..|ln|];
    AcrossLinesExactlyWhen(cur, lines, d);
  }

  const THREE_LINES := ["x", "y", "aa"]

  /** The last byte of the third line, the break in front of that line, and the first line
      with the second, the first and the last range past the end of their lines. */
  const LAST_BYTE := Edit(Position(2, 1), Position(2, 9), "")
  const LINE_BREAK := Edit(Position(1, 1), Position(2, 0), "")
  const TWO_LINES := Edit(Position(0, 0), Position(1, 2), "")

  /** With an overrun within a line, two wrongs can make a right: the first deletion is
      ignored, and the last takes a byte that the second has put behind its line. */
  lemma OverrunsCancel()
    ensures var es := [LAST_BYTE, LINE_BREAK, TWO_LINES];
            && AllOnLines(THREE_LINES, es) && BottomUp(ClampedAll(THREE_LINES, es)) && !AllHarmless(THREE_LINES, es)
            && AppliedAll(THREE_LINES, es) == AppliedAll(THREE_LINES, ClampedAll(THREE_LINES, es)) == ["a"]
  {
    var es := [LAST_BYTE, LINE_BREAK, TWO_LINES];
    CancelledEdits();
    FirstIsHarmful(es);
    hide *;
    DeletedAsIs();
    DeletedClamped();
  }

  lemma CancelledEdits()
    ensures var es := [LAST_BYTE, LINE_BREAK, TWO_LINES];
            && AllOnLines(THREE_LINES, es) && BottomUp(ClampedAll(THREE_LINES, es))
            && ClampedAll(THREE_LINES, es)
               == [LAST_BYTE.(end := Position(2, 2)), LINE_BREAK, TWO_LINES.(end := Position(1, 1))]
  {
    var es := [LAST_BYTE, LINE_BREAK, TWO_LINES];
    var clamped := [LAST_BYTE.(end := Position(2, 2)), LINE_BREAK, TWO_LINES.(end := Position(1, 1))];
    assert OnLines(THREE_LINES, LAST_BYTE) && OnLines(THREE_LINES, LINE_BREAK) && OnLines(THREE_LINES, TWO_LINES);
    assert AllOnLines(THREE_LINES, es);
    assert Clamped(THREE_LINES, LAST_BYTE) == clamped[0];
    assert Clamped(THREE_LINES, LINE_BREAK) == clamped[1];
    assert Clamped(THREE_LINES, TWO_LINES) == clamped[2];
    hide OnLines, Clamped, ValidEdit;
    assert ClampedAll(THREE_LINES, es) == clamped;
    assert BottomUp(clamped);
  }

  lemma FirstIsHarmful(es: seq<Edit>)
    requires es == [LAST_BYTE, LINE_BREAK, TWO_LINES] && AllOnLines(THREE_LINES, es)
    ensures !AllHarmless(THREE_LINES, es)
  {
    assert es[..0] == [] && Behind(THREE_LINES, es, 0) == "";
    assert "aa"[..1] + "" == "a" && Overruns(THREE_LINES, es[0]) && !Harmless(THREE_LINES, "", es[0]);
  }

  lemma DeletedAsIs()
    ensures AppliedAll(THREE_LINES, [LAST_BYTE, LINE_BREAK, TWO_LINES]) == ["a"]
  {
    assert Applied(THREE_LINES, LAST_BYTE) == THREE_LINES;
    assert Applied(THREE_LINES, LINE_BREAK) == ["x", "yaa"] by {
      assert "y"[..1] + "" + "aa"[0..] == "yaa";
    }
    assert Applied(["x", "yaa"], TWO_LINES) == ["a"] by {
      assert "x"[..0] + "" + "yaa"[2..] == "a";
    }
    ThreeEdits(THREE_LINES, LAST_BYTE, LINE_BREAK, TWO_LINES);
  }

  lemma DeletedClamped()
    ensures var es := [LAST_BYTE.(end := Position(2, 2)), LINE_BREAK, TWO_LINES.(end := Position(1, 1))];
            AppliedAll(THREE_LINES, es) == ["a"]
  {
    var c, d := LAST_BYTE.(end := Position(2, 2)), TWO_LINES.(end := Position(1, 1));
    assert Applied(THREE_LINES, c) == ["x", "y", "a"] by {
      assert "aa"[..1] + "" + "aa"[2..] == "a";
    }
    assert Applied(["x", "y", "a"], LINE_BREAK) == ["x", "ya"] by {
      assert "y"[..1] + "" + "a"[0..] == "ya";
    }
    assert Applied(["x", "ya"], d) == ["a"] by {
      assert "x"[..0] + "" + "ya"[1..] == "a";
    }
    ThreeEdits(THREE_LINES, c, LINE_BREAK, d);
  }

  lemma ThreeEdits(lines: seq<string>, a: Edit, b: Edit, c: Edit)
    requires Unsigned(a) && Unsigned(b) && Unsigned(c)
    ensures AppliedAll(lines, [a, b, c]) == Applied(Applied(Applied(lines, a), b), c)
  {
    assert [a, b, c] == [a] + [b, c];
    AppliedAllConcat(lines, [a], [b, c]);
    OneEdit(lines, a);
    TwoEdits(Applied(lines, a), b, c);
  }

  /** Clamping is done against the line as already edited: an end position past its
      line reaches into text inserted at that line's end. */
  lemma ClampReachesInsertedText()
    ensures var insertion := Edit(Position(1, 2), Position(1, 2), "XYZ");
            var deletion := Edit(Position(0, 1), Position(1, 5), "");
            && AppliedAll(["ab", "cd"], [insertion, deletion]) == ["a"]
            && AppliedAll(["ab", "cd"], [insertion, Clamped(["ab", "cd"], deletion)]) == ["aXYZ"]
  {
    var i := Edit(Position(1, 2), Position(1, 2), "XYZ");
    var d := Edit(Position(0, 1), Position(1, 5), "");
    var c := Edit(Position(0, 1), Position(1, 2), "");
    assert "cd"[..2] + "XYZ" + "cd"[2..] == "cdXYZ";
    assert "ab"[..1] + "" + "cdXYZ"[5..] == "a" && "ab"[..1] + "" + "cdXYZ"[2..] == "aXYZ";
    assert Applied(["ab", "cd"], i) == ["ab", "cdXYZ"];
    assert Applied(["ab", "cdXYZ"], d) == ["a"];
    assert Applied(["ab", "cdXYZ"], c) == ["aXYZ"];
    TwoEdits(["ab", "cd"], i, d);
    TwoEdits(["ab", "cd"], i, c);
  }
}
