/** What text edits mean, and that applying them bottom-up computes it. */
module Edits {
  // `Render` is the reference: the simultaneous substitution of all ranges in the flat
  // text, as section "TextEdit[]" of LSP 3.17 describes it.  `Applied` and `AppliedAll`
  // are what internal/cmd/edit.go does to the lines.

  import opened Text
  import opened Rearrangement

  /** lsp.Position: JSON integers, so nothing stops a negative line. */
  datatype Position = Position(line: int, character: int)

  datatype Edit = Edit(start: Position, end: Position, newText: string)

  /** A replacement in the flat text: bytes [from, to) become `text`. */
  datatype Span = Span(from: nat, to: nat, text: string)

  predicate AtOrBefore(p: Position, q: Position) {
    p.line < q.line || (p.line == q.line && p.character <= q.character)
  }

  // ---- simultaneous substitution on the flat text ----

  /** What the spans that start at `i` insert, in list order: several insertions at
      one position appear in the order in which they are listed. */
  function TextAt(spans: seq<Span>, i: nat): string {
    if spans == [] then ""
    else (if spans[0].from == i then spans[0].text else "") + TextAt(spans[1..], i)
  }

  /** Where copying resumes after the spans that start at `i`. */
  function ResumeAt(spans: seq<Span>, i: nat): (r: nat)
    ensures r >= i
  {
    if spans == [] then i
    else
      var rest := ResumeAt(spans[1..], i);
      if spans[0].from == i && spans[0].to > rest then spans[0].to else rest
  }

  /** `text` from offset `i` on, all spans replaced at once. */
  function Render(text: string, spans: seq<Span>, i: nat): string
    requires i <= |text|
    decreases |text| - i
  {
    var resume := ResumeAt(spans, i);
    TextAt(spans, i)
    + if i < resume <= |text| then Render(text, spans, resume)
      else if i == |text| then ""
      else [text[i]] + Render(text, spans, i + 1)
  }

  predicate NoStartIn(spans: seq<Span>, i: int, p: int) {
    forall k :: 0 <= k < |spans| ==> !(i <= spans[k].from < p)
  }

  lemma {:induction false} NothingAt(spans: seq<Span>, i: nat)
    requires NoStartIn(spans, i, i + 1)
    ensures TextAt(spans, i) == "" && ResumeAt(spans, i) == i
  {
    if spans != [] {
      assert spans[0].from != i;
      NothingAt(spans[1..], i);
    }
  }

  lemma RenderOne(text: string, spans: seq<Span>, i: nat)
    requires i < |text| && NoStartIn(spans, i, i + 1)
    ensures Render(text, spans, i) == [text[i]] + Render(text, spans, i + 1)
  {
    NothingAt(spans, i);
  }

  lemma CopyOne(text: string, i: nat, p: nat, rest: string)
    requires i < p <= |text|
    ensures [text[i]] + (text[i + 1..p] + rest) == text[i..p] + rest
  {
  }

  /** Where no span starts, text is copied. */
  lemma {:induction false} RenderCopies(text: string, spans: seq<Span>, i: nat, p: nat)
    requires i <= p <= |text| && NoStartIn(spans, i, p)
    ensures Render(text, spans, i) == text[i..p] + Render(text, spans, p)
    decreases p - i
  {
    if i < p {
      RenderOne(text, spans, i);
      RenderCopies(text, spans, i + 1, p);
      CopyOne(text, i, p, Render(text, spans, p));
    } else {
      assert text[i..p] + Render(text, spans, p) == Render(text, spans, p);
    }
  }

  lemma ForgottenAt(e: Span, spans: seq<Span>, i: nat)
    requires e.from != i
    ensures TextAt([e] + spans, i) == TextAt(spans, i) && ResumeAt([e] + spans, i) == ResumeAt(spans, i)
  {
    assert ([e] + spans)[1..] == spans;
  }

  /** A span that starts before `i` no longer matters from `i` on. */
  lemma {:induction false} RenderForgets(text: string, e: Span, spans: seq<Span>, i: nat)
    requires e.from < i <= |text|
    ensures Render(text, [e] + spans, i) == Render(text, spans, i)
    decreases |text| - i
  {
    hide TextAt, ResumeAt;
    ForgottenAt(e, spans, i);
    var resume := ResumeAt(spans, i);
    if i < resume <= |text| {
      RenderForgets(text, e, spans, resume);
    } else if i < |text| {
      RenderForgets(text, e, spans, i + 1);
    }
  }

  /** One more span in front of spans that all start at or after its end. */
  lemma {:induction false} RenderCons(text: string, e: Span, spans: seq<Span>, p: nat)
    requires e.from <= e.to <= p <= |text|
    requires NoStartIn(spans, 0, p)
    ensures Render(text, [e] + spans, e.from) == e.text + (text[e.to..p] + Render(text, spans, p))
  {
    if e.from == p {
      RenderSameStart(text, e, spans);
      assert text[e.to..p] + Render(text, spans, p) == Render(text, spans, p);
    } else {
      RenderAlone(text, e, spans);
      RenderCopies(text, spans, e.to, p);
    }
  }

  lemma AloneAt(e: Span, spans: seq<Span>)
    requires e.from <= e.to && NoStartIn(spans, e.from, e.from + 1)
    ensures TextAt([e] + spans, e.from) == e.text && ResumeAt([e] + spans, e.from) == e.to
  {
    assert ([e] + spans)[1..] == spans;
    NothingAt(spans, e.from);
  }

  lemma {:induction false} RenderAlone(text: string, e: Span, spans: seq<Span>)
    requires e.from <= e.to <= |text| && e.from < |text|
    requires NoStartIn(spans, e.from, e.from + 1)
    ensures Render(text, [e] + spans, e.from) == e.text + Render(text, spans, e.to)
  {
    hide TextAt, ResumeAt;
    var i := e.from;
    AloneAt(e, spans);
    if i < e.to {
      RenderForgets(text, e, spans, e.to);
    } else {
      RenderForgets(text, e, spans, i + 1);
      RenderCopies(text, spans, i, i + 1);
      assert text[i..i + 1] == [text[i]];
    }
  }

  /** What Render emits after the text inserted at `i`. */
  function RenderRest(text: string, spans: seq<Span>, i: nat): string
    requires i <= |text|
  {
    var resume := ResumeAt(spans, i);
    if i < resume <= |text| then Render(text, spans, resume)
    else if i == |text| then ""
    else [text[i]] + Render(text, spans, i + 1)
  }

  lemma {:induction false} RenderSameStart(text: string, e: Span, spans: seq<Span>)
    requires e.from == e.to <= |text|
    ensures Render(text, [e] + spans, e.from) == e.text + Render(text, spans, e.from)
  {
    SameRest(text, e, spans);
    assert ([e] + spans)[1..] == spans;
    Associative(e.text, TextAt(spans, e.from), RenderRest(text, spans, e.from));
  }

  lemma {:induction false} SameRest(text: string, e: Span, spans: seq<Span>)
    requires e.from == e.to <= |text|
    ensures RenderRest(text, [e] + spans, e.from) == RenderRest(text, spans, e.from)
  {
    hide TextAt, ResumeAt;
    InsertionResumes(e, spans);
    var resume := ResumeAt(spans, e.from);
    if e.from < resume <= |text| {
      RenderForgets(text, e, spans, resume);
    } else if e.from < |text| {
      RenderForgets(text, e, spans, e.from + 1);
    }
  }

  lemma InsertionResumes(e: Span, spans: seq<Span>)
    requires e.from == e.to
    ensures ResumeAt([e] + spans, e.from) == ResumeAt(spans, e.from)
  {
    assert ([e] + spans)[1..] == spans;
  }

  // ---- positions in a list of lines ----

  predicate ValidPosition(lines: seq<string>, p: Position) {
    0 <= p.line < |lines| && 0 <= p.character <= |lines[p.line]|
  }

  /** A range of existing positions, the start not after the end. */
  predicate ValidEdit(lines: seq<string>, e: Edit) {
    ValidPosition(lines, e.start) && ValidPosition(lines, e.end) && AtOrBefore(e.start, e.end)
  }

  /** The offset of a position in the joined text. */
  function Offset(lines: seq<string>, p: Position): (offset: nat)
    requires ValidPosition(lines, p)
    ensures offset <= |Join(lines)|
  {
    TextAround(lines, p);
    |Terminated(lines[..p.line])| + p.character
  }

  lemma {:induction false} TextAround(lines: seq<string>, p: Position)
    requires ValidPosition(lines, p)
    ensures Join(lines) == (Terminated(lines[..p.line]) + lines[p.line][..p.character])
                         + (lines[p.line][p.character..] + Remaining(lines[p.line + 1..]))
  {
    var a, x, b := lines[..p.line], lines[p.line], lines[p.line + 1..];
    assert lines == a + [x] + b;
    JoinAround(a, x, b);
    Regroup(Terminated(a), x[..p.character], x[p.character..], Remaining(b));
    assert x == x[..p.character] + x[p.character..];
  }

  /** Concatenation is associative. */
  lemma Regroup(a: string, b: string, c: string, d: string)
    ensures a + (b + c) + d == (a + b) + (c + d)
  {
  }

  function ToSpan(lines: seq<string>, e: Edit): Span
    requires ValidEdit(lines, e)
  {
    Span(Offset(lines, e.start), Offset(lines, e.end), e.newText)
  }

  /** The joined text before and after a position. */
  lemma {:induction false} FlatAt(lines: seq<string>, p: Position)
    requires ValidPosition(lines, p)
    ensures Join(lines)[..Offset(lines, p)] == Terminated(lines[..p.line]) + lines[p.line][..p.character]
    ensures Join(lines)[Offset(lines, p)..] == lines[p.line][p.character..] + Remaining(lines[p.line + 1..])
  {
    TextAround(lines, p);
  }

  lemma {:induction false} OffsetMonotone(lines: seq<string>, p: Position, q: Position)
    requires ValidPosition(lines, p) && ValidPosition(lines, q)
    ensures AtOrBefore(p, q) <==> Offset(lines, p) <= Offset(lines, q)
    ensures p == q <==> Offset(lines, p) == Offset(lines, q)
  {
    if p.line < q.line {
      LaterLineStartsLater(lines, p.line, q.line);
    } else if q.line < p.line {
      LaterLineStartsLater(lines, q.line, p.line);
    }
  }

  lemma {:induction false} LaterLineStartsLater(lines: seq<string>, i: nat, j: nat)
    requires i < j < |lines|
    ensures |Terminated(lines[..i])| + |lines[i]| < |Terminated(lines[..j])|
  {
    assert lines[..j] == lines[..i] + ([lines[i]] + lines[i + 1..j]);
    TerminatedConcat(lines[..i], [lines[i]] + lines[i + 1..j]);
  }

  // ---- what the code does to the lines ----

  /** The ranges on which applyOne slices out of bounds, which in Go stops the program. */
  predicate Panics(lines: seq<string>, e: Edit) {
    var n := |lines|;
    if e.start.line < 0 || e.start.line >= n || e.end.line >= n then false
    else if e.start.line == e.end.line then
      var len := |lines[e.start.line]|;
      e.start.character <= len && e.end.character <= len && (e.start.character < 0 || e.end.character < 0)
    else e.start.character < 0 || e.end.line < 0 || e.end.character < 0
  }

  /** One edit applied to the lines, branch by branch. */
  function Applied(lines: seq<string>, e: Edit): (out: seq<string>)
    requires !Panics(lines, e)
  {
    var (sl, sc) := (e.start.line, e.start.character);
    var (el, ec) := (e.end.line, e.end.character);
    if sl < 0 || sl >= |lines| || el >= |lines| then lines
    else if sl == el then
      if sc <= |lines[sl]| && ec <= |lines[sl]| then
        lines[sl := lines[sl][..sc] + e.newText + lines[sl][ec..]]
      else lines
    else
      var head := lines[sl][..if sc < |lines[sl]| then sc else |lines[sl]|];
      var tail := if ec <= |lines[el]| then lines[el][ec..] else "";
      lines[..sl] + [head + e.newText + tail] + lines[el + 1..]
  }

  /** LSP characters and lines are unsigned; with those applyOne never panics. */
  predicate Unsigned(e: Edit) {
    e.start.character >= 0 && e.end.character >= 0 && e.end.line >= 0
  }

  lemma UnsignedNeverPanics(lines: seq<string>, e: Edit)
    requires Unsigned(e)
    ensures !Panics(lines, e)
  {
  }

  predicate AllUnsigned(es: seq<Edit>) {
    forall k :: 0 <= k < |es| ==> Unsigned(es[k])
  }

  function AppliedAll(lines: seq<string>, es: seq<Edit>): seq<string>
    requires AllUnsigned(es)
    decreases |es|
  {
    if es == [] then lines
    else
      assert Unsigned(es[0]);
      AppliedAll(Applied(lines, es[0]), es[1..])
  }

  /** On a valid range, one edit is one substitution in the joined text. */
  lemma {:induction false} AppliedIsSubstitution(lines: seq<string>, e: Edit)
    requires ValidEdit(lines, e)
    ensures Join(Applied(lines, e))
         == Join(lines)[..Offset(lines, e.start)] + (e.newText + Join(lines)[Offset(lines, e.end)..])
  {
    AppliedShape(lines, e);
    MergedIsSubstitution(lines, e, Applied(lines, e));
  }

  lemma {:induction false} MergedIsSubstitution(lines: seq<string>, e: Edit, out: seq<string>)
    requires ValidEdit(lines, e)
    requires out == lines[..e.start.line]
                    + [lines[e.start.line][..e.start.character] + e.newText + lines[e.end.line][e.end.character..]]
                    + lines[e.end.line + 1..]
    ensures Join(out) == Join(lines)[..Offset(lines, e.start)] + (e.newText + Join(lines)[Offset(lines, e.end)..])
  {
    var a, head := lines[..e.start.line], lines[e.start.line][..e.start.character];
    var tail, b := lines[e.end.line][e.end.character..], lines[e.end.line + 1..];
    var before, after := Join(lines)[..Offset(lines, e.start)], Join(lines)[Offset(lines, e.end)..];
    assert before == Terminated(a) + head by { FlatAt(lines, e.start); }
    assert after == tail + Remaining(b) by { FlatAt(lines, e.end); }
    assert Join(out) == before + (e.newText + after) by { JoinMerged(a, head, e.newText, tail, b); }
  }

  lemma JoinMerged(a: seq<string>, head: string, middle: string, tail: string, b: seq<string>)
    ensures Join(a + [head + middle + tail] + b) == (Terminated(a) + head) + (middle + (tail + Remaining(b)))
  {
    JoinAround(a, head + middle + tail, b);
    RegroupMerged(Terminated(a), head, middle, tail, Remaining(b));
  }

  lemma RegroupMerged(a: string, head: string, middle: string, tail: string, b: string)
    ensures a + (head + middle + tail) + b == (a + head) + (middle + (tail + b))
  {
  }

  lemma AppliedShape(lines: seq<string>, e: Edit)
    requires ValidEdit(lines, e)
    ensures Applied(lines, e)
         == lines[..e.start.line]
            + [lines[e.start.line][..e.start.character] + e.newText + lines[e.end.line][e.end.character..]]
            + lines[e.end.line + 1..]
  {
  }

  // ---- bottom-up application ----

  /** `cur` and `orig` agree on everything before position p. */
  predicate AgreeBefore(cur: seq<string>, orig: seq<string>, p: Position) {
    && ValidPosition(orig, p)
    && p.line < |cur|
    && cur[..p.line] == orig[..p.line]
    && p.character <= |cur[p.line]|
    && cur[p.line][..p.character] == orig[p.line][..p.character]
  }

  lemma AgreeEarlier(cur: seq<string>, orig: seq<string>, p: Position, q: Position)
    requires AgreeBefore(cur, orig, p) && ValidPosition(orig, q) && AtOrBefore(q, p)
    ensures AgreeBefore(cur, orig, q) && ValidPosition(cur, q)
    ensures Offset(cur, q) == Offset(orig, q)
  {
    assert cur[..q.line] == cur[..p.line][..q.line];
    assert orig[..q.line] == orig[..p.line][..q.line];
    if q.line < p.line {
      assert cur[q.line] == cur[..p.line][q.line] == orig[..p.line][q.line] == orig[q.line];
    } else {
      assert cur[q.line][..q.character] == cur[q.line][..p.character][..q.character];
      assert orig[q.line][..q.character] == orig[q.line][..p.character][..q.character];
    }
  }

  /** An edit that starts at or after q leaves everything before q alone. */
  lemma KeepsBefore(cur: seq<string>, orig: seq<string>, q: Position, e: Edit)
    requires AgreeBefore(cur, orig, q) && Unsigned(e) && AtOrBefore(q, e.start) && AtOrBefore(e.start, e.end)
    ensures AgreeBefore(Applied(cur, e), orig, q)
  {
    var out := Applied(cur, e);
    assert out[..q.line] == cur[..q.line];
    assert out[q.line] == cur[q.line] || out[q.line][..q.character] == cur[q.line][..q.character];
  }

  /** Applying an edit that ends at or before p: the array still agrees with the
      original up to the edit, and the joined text is the original up to the edit,
      the new text, and what followed the edit's end. */
  lemma {:induction false} StepKeepsAgreement(cur: seq<string>, orig: seq<string>, p: Position, e: Edit)
    requires AgreeBefore(cur, orig, p) && ValidEdit(orig, e) && AtOrBefore(e.end, p)
    ensures !Panics(cur, e)
    ensures AgreeBefore(Applied(cur, e), orig, e.start)
    ensures Offset(orig, e.end) <= |Join(cur)|
    ensures Join(Applied(cur, e))
         == Join(orig)[..Offset(orig, e.start)] + (e.newText + Join(cur)[Offset(orig, e.end)..])
  {
    AgreeEarlier(cur, orig, p, e.end);
    AgreeEarlier(cur, orig, e.end, e.start);
    KeepsBefore(cur, orig, e.start, e);
    hide Applied;
    AppliedIsSubstitution(cur, e);
    FlatAt(cur, e.start);
    FlatAt(orig, e.start);
    FlatAt(cur, e.end);
  }

  predicate AllValid(lines: seq<string>, es: seq<Edit>) {
    forall k :: 0 <= k < |es| ==> ValidEdit(lines, es[k])
  }

  /** Each edit ends at or before the start of every edit applied before it. */
  predicate BottomUp(es: seq<Edit>) {
    forall i, j :: 0 <= i < j < |es| ==> AtOrBefore(es[j].end, es[i].start)
  }

  function ToSpans(lines: seq<string>, es: seq<Edit>): (r: seq<Span>)
    requires AllValid(lines, es)
    ensures |r| == |es|
    ensures forall k :: 0 <= k < |es| ==> r[k] == ToSpan(lines, es[k])
  {
    seq(|es|, k requires 0 <= k < |es| => ToSpan(lines, es[k]))
  }

  /** The spans of `es`, top to bottom. */
  function TopDownSpans(lines: seq<string>, es: seq<Edit>): seq<Span>
    requires AllValid(lines, es)
  {
    ToSpans(lines, Reversed(es))
  }

  /** Invariant of the loop over the edits: `done` is applied, everything up to p is
      still the original text, and what follows is the rendering of `done`. */
  ghost predicate PartlyApplied(cur: seq<string>, orig: seq<string>, p: Position, done: seq<Span>) {
    && AgreeBefore(cur, orig, p)
    && NoStartIn(done, 0, Offset(orig, p))
    && Join(cur) == Join(orig)[..Offset(orig, p)] + Render(Join(orig), done, Offset(orig, p))
  }

  lemma {:induction false} StepApplies(cur: seq<string>, orig: seq<string>, p: Position, e: Edit, done: seq<Span>)
    requires PartlyApplied(cur, orig, p, done)
    requires ValidEdit(orig, e) && AtOrBefore(e.end, p)
    ensures !Panics(cur, e)
    ensures PartlyApplied(Applied(cur, e), orig, e.start, [ToSpan(orig, e)] + done)
  {
    StepKeepsAgreement(cur, orig, p, e);
    OffsetMonotone(orig, e.end, p);
    OffsetMonotone(orig, e.start, e.end);
    var text, x, hi := Join(orig), ToSpan(orig, e), Offset(orig, p);
    RenderCons(text, x, done, hi);
    DropPrefix(text, x.to, hi, Render(text, done, hi));
  }

  lemma DropPrefix(text: string, i: nat, hi: nat, tail: string)
    requires i <= hi <= |text|
    ensures (text[..hi] + tail)[i..] == text[i..hi] + tail
  {
  }

  lemma {:induction false} AppliedAllRenders(cur: seq<string>, orig: seq<string>, es: seq<Edit>, p: Position,
                                             done: seq<Span>)
    requires AllValid(orig, es) && BottomUp(es)
    requires forall k :: 0 <= k < |es| ==> AtOrBefore(es[k].end, p)
    requires PartlyApplied(cur, orig, p, done)
    ensures Join(AppliedAll(cur, es)) == Render(Join(orig), TopDownSpans(orig, es) + done, 0)
    decreases |es|
  {
    if es == [] {
      var hi := Offset(orig, p);
      assert TopDownSpans(orig, es) + done == done;
      RenderCopies(Join(orig), done, 0, hi);
      assert Join(orig)[0..hi] == Join(orig)[..hi];
    } else {
      StepApplies(cur, orig, p, es[0], done);
      AppliedAllRenders(Applied(cur, es[0]), orig, es[1..], es[0].start, [ToSpan(orig, es[0])] + done);
      TopDownCons(orig, es, done);
    }
  }

  lemma TopDownCons(lines: seq<string>, es: seq<Edit>, done: seq<Span>)
    requires AllValid(lines, es) && es != []
    ensures TopDownSpans(lines, es[1..]) + ([ToSpan(lines, es[0])] + done) == TopDownSpans(lines, es) + done
  {
    hide ToSpan, ValidEdit, AtOrBefore;
    assert TopDownSpans(lines, es) == TopDownSpans(lines, es[1..]) + [ToSpan(lines, es[0])];
  }

  /** Bottom-up application of valid edits is the simultaneous substitution, with
      several edits at one position taking effect in the reverse of the order of
      application. */
  lemma {:induction false} BottomUpRenders(lines: seq<string>, es: seq<Edit>)
    requires |lines| > 0 && AllValid(lines, es) && BottomUp(es)
    ensures Join(AppliedAll(lines, es)) == Render(Join(lines), TopDownSpans(lines, es), 0)
  {
    var last := |lines| - 1;
    var p := Position(last, |lines[last]|);
    FlatAt(lines, p);
    var text := Join(lines);
    assert text == text[..Offset(lines, p)];
    assert Render(text, [], |text|) == "";
    AppliedAllRenders(lines, lines, es, p, []);
    assert TopDownSpans(lines, es) + [] == TopDownSpans(lines, es);
  }

  // ---- what the sort guarantees ----

  /** The order sort.Slice establishes; among equal starts any order is possible. */
  predicate SortedBottomUp(es: seq<Edit>) {
    forall i, j :: 0 <= i < j < |es| ==> AtOrBefore(es[j].start, es[i].start)
  }

  predicate NonOverlapping(es: seq<Edit>) {
    forall i, j :: 0 <= i < j < |es| ==>
      AtOrBefore(es[i].end, es[j].start) || AtOrBefore(es[j].end, es[i].start)
  }

  predicate DistinctStarts(es: seq<Edit>) {
    forall i, j :: 0 <= i < j < |es| ==> es[i].start != es[j].start
  }

  /** Edits that share a start are insertions. */
  predicate TiesAreInsertions(es: seq<Edit>) {
    forall i, j :: 0 <= i < j < |es| && es[i].start == es[j].start ==>
      es[i].end == es[i].start && es[j].end == es[j].start
  }

  /** `out` is a result sort.Slice may produce from `es`. */
  ghost predicate SortOutcome(es: seq<Edit>, out: seq<Edit>) {
    SortedBottomUp(out) && multiset(out) == multiset(es)
  }

  /** On non-overlapping edits whose ties are insertions, every sort outcome is in
      bottom-up order. */
  lemma {:induction false} SortOutcomeIsBottomUp(lines: seq<string>, es: seq<Edit>, out: seq<Edit>)
    requires AllValid(lines, es) && NonOverlapping(es) && TiesAreInsertions(es)
    requires SortOutcome(es, out)
    ensures AllValid(lines, out) && BottomUp(out)
  {
    forall k | 0 <= k < |out| ensures ValidEdit(lines, out[k]) {
      assert out[k] in multiset(out);
      assert out[k] in multiset(es);
    }
    forall i, j | 0 <= i < j < |out| ensures AtOrBefore(out[j].end, out[i].start) {
      var a, b := TwoPlaces(es, out, i, j);
      assert AtOrBefore(out[j].start, out[i].start);
    }
  }

  /** With ties among insertions only, whatever order the sort leaves them in, the
      result is the simultaneous substitution of the edits listed in the reverse of
      that order. */
  lemma {:induction false} EverySortOutcomeRenders(lines: seq<string>, es: seq<Edit>, out: seq<Edit>)
    requires |lines| > 0 && AllValid(lines, es) && NonOverlapping(es) && TiesAreInsertions(es)
    requires SortOutcome(es, out)
    ensures AllValid(lines, out)
    ensures Join(AppliedAll(lines, out)) == Render(Join(lines), TopDownSpans(lines, out), 0)
  {
    SortOutcomeIsBottomUp(lines, es, out);
    BottomUpRenders(lines, out);
  }
}
