/** internal/cmd/edit.go: applying text edits to the files on disk.  The methods work
    in place as the source does; what they leave behind is stated with the functions of
    Edits. */
module EditEngine {
  import opened Text
  import opened Rearrangement
  import opened Edits
  import opened EditBounds
  import opened EditTies

  /** The files by path.  Writing to a path in `readOnly` fails and leaves it as it is. */
  class Disk {
    var files: map<string, string>
    const readOnly: set<string>

    constructor (files: map<string, string>, readOnly: set<string>)
      ensures this.files == files && this.readOnly == readOnly
    {
      this.files, this.readOnly := files, readOnly;
    }
  }

  /** One edit; a single-line edit writes into the given array, a multi-line edit
      builds a new one. */
  method ApplyOne(lines: array<string>, e: Edit) returns (out: array<string>)
    requires !Panics(lines[..], e)
    modifies lines
    ensures out[..] == Applied(old(lines[..]), e)
    ensures out == lines || fresh(out)
    ensures e.start.line < 0 || e.start.line >= |old(lines[..])| || e.end.line >= |old(lines[..])| ==>
              out[..] == old(lines[..])
    ensures 0 <= e.start.line == e.end.line < |old(lines[..])|
            && (e.start.character > |old(lines[..])[e.start.line]| || e.end.character > |old(lines[..])[e.start.line]|)
            ==> out[..] == old(lines[..])
    ensures ValidEdit(old(lines[..]), e) ==>
              Join(out[..]) == Join(old(lines[..]))[..Offset(old(lines[..]), e.start)]
                               + (e.newText + Join(old(lines[..]))[Offset(old(lines[..]), e.end)..])
  {
    ghost var was := lines[..];
    if ValidEdit(was, e) {
      AppliedIsSubstitution(was, e);
    }
    var sl, sc := e.start.line, e.start.character;
    var el, ec := e.end.line, e.end.character;
    if sl < 0 || sl >= lines.Length || el >= lines.Length {
      return lines;
    }
    if sl == el {
      var ln := lines[sl];
      if sc <= |ln| && ec <= |ln| {
        lines[sl] := ln[..sc] + e.newText + ln[ec..];
        assert lines[..] == was[sl := ln[..sc] + e.newText + ln[ec..]];
      }
      return lines;
    }
    var head := lines[sl][..if sc < |lines[sl]| then sc else |lines[sl]|];
    var tail := "";
    if ec <= |lines[el]| {
      tail := lines[el][ec..];
    }
    var merged := lines[..sl] + [head + e.newText + tail] + lines[el + 1..];
    out := new string[|merged|](i requires 0 <= i < |merged| => merged[i]);
    assert out[..] == merged;
  }

  /** sort.Slice with the source's ordering.  Only what the contract says may be
      relied on: the library sort is not stable. */
  method SortBottomUp(es: array<Edit>)
    modifies es
    ensures SortOutcome(old(es[..]), es[..])
  {
    ghost var was := es[..];
    var sorted: seq<Edit> := [];
    var i := es.Length;
    while i > 0
      invariant 0 <= i <= es.Length && es[..] == was
      invariant SortOutcome(was[i..], sorted)
    {
      i := i - 1;
      var k := Place(es[i], sorted);
      PlaceSorts(es[i], sorted, k);
      assert was[i..][1..] == was[i + 1..] && was[i..][0] == es[i];
      InsertRearranges(was[i..], sorted, k);
      sorted := sorted[..k] + [es[i]] + sorted[k..];
    }
    assert was[0..] == was;
    assert |sorted| == |multiset(sorted)| == |multiset(was)| == |was|;
    forall j | 0 <= j < es.Length {
      es[j] := sorted[j];
    }
    assert es[..] == sorted;
  }

  /** What an edit list may turn a text into. */
  ghost predicate Outcome(text: string, es: seq<Edit>, result: string) {
    exists out :: SortOutcome(es, out) && AllUnsigned(out) && result == Join(AppliedAll(Split(text), out))
  }

  lemma UnsignedRearranged(es: seq<Edit>, out: seq<Edit>)
    requires AllUnsigned(es) && multiset(out) == multiset(es)
    ensures AllUnsigned(out)
  {
    forall k | 0 <= k < |out| ensures Unsigned(out[k]) {
      assert out[k] in multiset(out);
      var i := MultisetIndex(es, out[k]);
    }
  }

  /** The edits of one file: split, sort, apply one by one, join. */
  method ApplyToText(text: string, es: array<Edit>) returns (result: string)
    requires AllUnsigned(es[..])
    modifies es
    ensures SortOutcome(old(es[..]), es[..]) && AllUnsigned(es[..])
    ensures result == Join(AppliedAll(Split(text), es[..]))
  {
    ghost var was := es[..];
    SortBottomUp(es);
    UnsignedRearranged(was, es[..]);
    var split := Split(text);
    var lines := new string[|split|](i requires 0 <= i < |split| => split[i]);
    assert lines[..] == split;
    ghost var sorted := es[..];
    var i := 0;
    while i < es.Length
      invariant 0 <= i <= es.Length
      invariant fresh(lines) && es[..] == sorted
      invariant AppliedAll(lines[..], sorted[i..]) == AppliedAll(split, sorted)
    {
      assert sorted[i..][0] == es[i] && sorted[i..][1..] == sorted[i + 1..];
      lines := ApplyOne(lines, es[i]);
      i := i + 1;
    }
    result := Join(lines[..]);
  }

  /** The same for an edit list, with the count of the edits applied. */
  method Rewrite(text: string, given: seq<Edit>) returns (result: string, n: nat)
    requires AllUnsigned(given)
    ensures Outcome(text, given, result) && n == |given|
  {
    var es := new Edit[|given|](i requires 0 <= i < |given| => given[i]);
    assert es[..] == given;
    result := ApplyToText(text, es);
    n := es.Length;
  }

  /** How many edits the files in `keys` carry. */
  ghost function Total(edits: map<string, seq<Edit>>, keys: set<string>): nat
    requires keys <= edits.Keys
  {
    if keys == {} then 0
    else var f :| f in keys; |edits[f]| + Total(edits, keys - {f})
  }

  lemma NoneCounted(edits: map<string, seq<Edit>>)
    ensures Total(edits, {}) == 0
  {
  }

  lemma {:induction false} TotalRemove(edits: map<string, seq<Edit>>, keys: set<string>, f: string)
    requires keys <= edits.Keys && f in keys
    ensures Total(edits, keys) == |edits[f]| + Total(edits, keys - {f})
  {
    var g :| g in keys && Total(edits, keys) == |edits[g]| + Total(edits, keys - {g});
    if g != f {
      TotalRemove(edits, keys - {g}, f);
      TotalRemove(edits, keys - {f}, g);
      assert keys - {g} - {f} == keys - {f} - {g};
    }
  }

  /** countEdits */
  method CountEdits(edits: map<string, seq<Edit>>) returns (n: nat)
    ensures n == Total(edits, edits.Keys)
  {
    n := 0;
    var todo := edits.Keys;
    while todo != {}
      invariant todo <= edits.Keys
      invariant n + Total(edits, todo) == Total(edits, edits.Keys)
    {
      var f :| f in todo;
      TotalRemove(edits, todo, f);
      n := n + |edits[f]|;
      todo := todo - {f};
    }
  }

  /** The files of `done` are rewritten, all others are as before. */
  ghost predicate Rewritten(before: map<string, string>, after: map<string, string>,
                            edits: map<string, seq<Edit>>, done: set<string>)
  {
    && done <= edits.Keys && done <= before.Keys && after.Keys == before.Keys
    && (forall f :: f in done ==> Outcome(before[f], edits[f], after[f]))
    && (forall f :: f in before && f !in done ==> after[f] == before[f])
  }

  /** Some file outside `done` could not be read, or could not be written. */
  ghost predicate StoppedAt(files: map<string, string>, readOnly: set<string>,
                            edits: map<string, seq<Edit>>, done: set<string>, total: nat)
    requires done <= edits.Keys
  {
    exists f | f in edits.Keys - done ::
      if f !in files then total == Total(edits, done)
      else f in readOnly && total == Total(edits, done) + |edits[f]|
  }

  /** applyEdits.  Go iterates over the map in an arbitrary order, so an error leaves
      some set `done` of files rewritten; the edits of a file whose write fails are
      counted although the file is not changed. */
  method ApplyEdits(disk: Disk, edits: map<string, seq<Edit>>) returns (total: nat, err: bool, ghost done: set<string>)
    requires forall f :: f in edits ==> AllUnsigned(edits[f])
    modifies disk`files
    ensures Rewritten(old(disk.files), disk.files, edits, done)
    ensures !err ==> done == edits.Keys && total == Total(edits, edits.Keys)
    ensures err ==> StoppedAt(disk.files, disk.readOnly, edits, done, total)
    ensures !err <==> edits.Keys <= old(disk.files).Keys - disk.readOnly
  {
    hide Outcome, AllUnsigned, Total;
    ghost var before := disk.files;
    NoneCounted(edits);
    total, err, done := 0, false, {};
    var todo := edits.Keys;
    while todo != {}
      invariant done + todo == edits.Keys && done !! todo
      invariant total == Total(edits, done)
      invariant Rewritten(before, disk.files, edits, done)
      invariant done <= before.Keys - disk.readOnly
    {
      var file :| file in todo;
      todo := todo - {file};
      if file !in disk.files {
        return total, true, done;
      }
      var result, n := Rewrite(disk.files[file], edits[file]);
      total := total + n;
      if file in disk.readOnly {
        return total, true, done;
      }
      disk.files := disk.files[file := result];
      TotalRemove(edits, done + {file}, file);
      assert done + {file} - {file} == done;
      done := done + {file};
    }
  }

  /** Edits in the form LSP asks for, among which the sort has no choice that shows. */
  ghost predicate WellBehaved(text: string, es: seq<Edit>) {
    && AllValid(Split(text), es) && NonOverlapping(es) && InsertionsFirst(es)
    && InsertionsCommute(es) && NothingSwallowed(Split(text), es)
  }

  /** On a file whose edits are valid, disjoint and without clashing ties, whatever
      applyEdits writes is the simultaneous substitution of all ranges in the file's
      text. */
  lemma {:induction false} WrittenIsMeaning(text: string, es: seq<Edit>, result: string)
    requires Outcome(text, es, result) && WellBehaved(text, es)
    ensures result == Render(text, ToSpans(Split(text), es), 0)
  {
    var out :| SortOutcome(es, out) && AllUnsigned(out) && result == Join(AppliedAll(Split(text), out));
    SurvivingTiesMeanLSP(Split(text), es, out);
    JoinSplit(text);
  }

  // ---- edits outside the file ----

  /** No edit runs backwards over lines of the file. */
  predicate NoneBackwards(text: string, es: seq<Edit>) {
    AllForward(|Split(text)|, es)
  }

  /** The edits of a list on the lines of a file. */
  function InFile(text: string, es: seq<Edit>): seq<Edit> {
    Inside(|Split(text)|, es)
  }

  lemma {:induction false} ForwardRearranged(n: nat, es: seq<Edit>, out: seq<Edit>)
    requires AllForward(n, es) && multiset(out) == multiset(es)
    ensures AllForward(n, out)
  {
    forall k | 0 <= k < |out| ensures Outside(n, out[k]) || Forward(out[k]) {
      assert out[k] in multiset(out);
      var i := MultisetIndex(es, out[k]);
    }
  }

  /** What a list may turn a text into is exactly what its edits on lines of the file may
      turn it into. */
  lemma {:induction false} OnlyTheFileCounts(text: string, es: seq<Edit>, result: string)
    requires AllUnsigned(es) && NoneBackwards(text, es)
    ensures Outcome(text, es, result) <==> Outcome(text, InFile(text, es), result)
  {
    var lines, n := Split(text), |Split(text)|;
    hide Outside, Inside, AppliedAll, Unsigned;
    if Outcome(text, es, result) {
      var out :| SortOutcome(es, out) && AllUnsigned(out) && result == Join(AppliedAll(lines, out));
      ForwardRearranged(n, es, out);
      OutcomeInside(n, es, out);
      OutsideChangesNothing(lines, n, out);
    }
    if Outcome(text, InFile(text, es), result) {
      var inner :| SortOutcome(Inside(n, es), inner) && AllUnsigned(inner) && result == Join(AppliedAll(lines, inner));
      var out := OutcomeAround(n, es, inner);
      UnsignedRearranged(es, out);
      ForwardRearranged(n, es, out);
      OutsideChangesNothing(lines, n, out);
    }
  }

  /** Whatever else a list holds, what is written is the simultaneous substitution of the
      edits on lines of the file if these are well behaved. */
  lemma {:induction false} WrittenIsMeaningInFile(text: string, es: seq<Edit>, result: string)
    requires AllUnsigned(es) && NoneBackwards(text, es)
    requires Outcome(text, es, result) && WellBehaved(text, InFile(text, es))
    ensures result == Render(text, ToSpans(Split(text), InFile(text, es)), 0)
  {
    OnlyTheFileCounts(text, es, result);
    WrittenIsMeaning(text, InFile(text, es), result);
  }

  /** A list without an edit on a line of the file writes the file as it was. */
  lemma {:induction false} NothingInFile(text: string, es: seq<Edit>, result: string)
    requires AllUnsigned(es) && Outcome(text, es, result)
    requires forall k :: 0 <= k < |es| ==>
               es[k].start.line < 0 || es[k].start.line >= Newlines(text) + 1 || es[k].end.line >= Newlines(text) + 1
    ensures result == text
  {
    SplitCount(text);
    assert NoneBackwards(text, es);
    NoneInside(|Split(text)|, es);
    OnlyTheFileCounts(text, es, result);
    NoEdits(text, result);
  }

  lemma NoEdits(text: string, result: string)
    requires Outcome(text, [], result)
    ensures result == text
  {
    var out :| SortOutcome([], out) && AllUnsigned(out) && result == Join(AppliedAll(Split(text), out));
    assert |multiset(out)| == 0;
    JoinSplit(text);
  }
}
