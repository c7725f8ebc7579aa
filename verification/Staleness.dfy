/** What the cached definition index of internal/cindex/cindex.go answers after an edit.
    syncAfterEdit (internal/cmd/run.go) drops the fn-pointer cache and leaves this one, so
    for its root it goes on answering from the files as they were. */
module Staleness {
  import opened Text
  import opened Rearrangement
  import opened Strip
  import opened DefIndex
  import opened Edits
  import opened EditTies
  import Documents

  // ---- the answer under a name, line by line ----

  function KindOf(found: seq<(string, string)>, name: string): Option<string> {
    if found == [] then None
    else if found[0].0 == name then Some(found[0].1)
    else KindOf(found[1..], name)
  }

  /** The kind first recognised under `name` on a line, if any. */
  function KindOn(rx: Recognizers, lines: seq<string>, i: nat, name: string): Option<string> {
    if i < |lines| then KindOf(Finds(rx, lines, i, ScanBefore(rx, lines, i)), name) else None
  }

  function DefAt(file: string, line: nat, kind: Option<string>): seq<Def> {
    if kind.Some? then [Def(file, line, kind.value)] else []
  }

  /** The definitions of `name` on the first n lines of a file. */
  function DefsOnLines(rx: Recognizers, file: string, lines: seq<string>, n: nat, name: string): seq<Def> {
    if n == 0 then []
    else DefsOnLines(rx, file, lines, n - 1, name) + DefAt(file, n, KindOn(rx, lines, n - 1, name))
  }

  /** The definitions of `name` in the first n files. */
  function DefsInFiles(rx: Recognizers, files: seq<Source>, n: nat, name: string): seq<Def>
    requires n <= |files|
  {
    if n == 0 then []
    else
      var lines := Scanned(files[n - 1].raw);
      DefsInFiles(rx, files, n - 1, name) + DefsOnLines(rx, files[n - 1].path, lines, |lines|, name)
  }

  /** Every entry of the trace is for another file or for one of its first n lines. */
  predicate UpToLine(trace: seq<Entry>, file: string, n: int) {
    forall k :: 0 <= k < |trace| ==> trace[k].def.file != file || trace[k].def.line <= n
  }

  lemma {:induction false} KeyIsNew(trace: seq<Entry>, e: Entry)
    requires NamesAreWords(trace) && '|' !in e.name && UpToLine(trace, e.def.file, e.def.line - 1)
    ensures Key(e) !in Keys(trace)
  {
    KeysHas(trace, Key(e));
    if k :| 0 <= k < |trace| && Usable(trace[k].name) && Key(trace[k]) == Key(e) {
      KeyInjective(trace[k], e);
      assert false;
    }
  }

  lemma ListedOneMore(trace: seq<Entry>, e: Entry, name: string)
    ensures Listed(trace + [e], name)
         == Listed(trace, name) + if e.name == name && Usable(name) && Key(e) !in Keys(trace) then [e.def] else []
    ensures Keys(trace + [e]) == Keys(trace) + if Usable(e.name) then {Key(e)} else {}
  {
    assert (trace + [e])[..|trace|] == trace;
  }

  predicate AllWords(found: seq<(string, string)>) {
    forall k :: 0 <= k < |found| ==> '|' !in found[k].0
  }

  /** Once a line has given a definition of the name, it gives no other. */
  lemma {:induction false} NoSecond(trace: seq<Entry>, found: seq<(string, string)>, file: string, line: nat,
                                    name: string)
    requires Usable(name) && Key(Entry(name, Def(file, line, ""))) in Keys(trace)
    ensures Listed(trace + ToEntries(found, file, line), name) == Listed(trace, name)
    decreases |found|
  {
    if found == [] {
      assert trace + ToEntries(found, file, line) == trace;
    } else {
      var e := Entry(found[0].0, Def(file, line, found[0].1));
      ListedOneMore(trace, e, name);
      assert trace + ToEntries(found, file, line) == (trace + [e]) + ToEntries(found[1..], file, line);
      hide Listed, Keys;
      NoSecond(trace + [e], found[1..], file, line, name);
    }
  }

  /** What a line adds under a name: the first recognised, if any. */
  lemma {:induction false} LineListed(trace: seq<Entry>, found: seq<(string, string)>, file: string, line: nat,
                                      name: string)
    requires Usable(name) && '|' !in name && Key(Entry(name, Def(file, line, ""))) !in Keys(trace)
    requires AllWords(found)
    ensures Listed(trace + ToEntries(found, file, line), name)
            == Listed(trace, name) + DefAt(file, line, KindOf(found, name))
    decreases |found|
  {
    if found == [] {
      assert trace + ToEntries(found, file, line) == trace;
    } else {
      var e := Entry(found[0].0, Def(file, line, found[0].1));
      ListedOneMore(trace, e, name);
      assert trace + ToEntries(found, file, line) == (trace + [e]) + ToEntries(found[1..], file, line);
      if found[0].0 == name {
        NoSecond(trace + [e], found[1..], file, line, name);
      } else {
        if Key(e) == Key(Entry(name, Def(file, line, ""))) {
          KeyInjective(e, Entry(name, Def(file, line, "")));
          assert false;
        }
        LineListed(trace + [e], found[1..], file, line, name);
      }
    }
  }

  lemma FindsWords(rx: Recognizers, lines: seq<string>, i: nat, st: Scan)
    requires Wordly(rx) && i < |lines|
    ensures AllWords(Finds(rx, lines, i, st))
  {
    forall k | 0 <= k < |Finds(rx, lines, i, st)| ensures '|' !in Finds(rx, lines, i, st)[k].0 {
      FindsAreWords(rx, lines, i, st, k);
    }
  }

  lemma EntriesAppended(trace: seq<Entry>, found: seq<(string, string)>, file: string, line: nat)
    requires NamesAreWords(trace) && AllWords(found) && UpToLine(trace, file, line - 1)
    ensures NamesAreWords(trace + ToEntries(found, file, line))
            && UpToLine(trace + ToEntries(found, file, line), file, line)
  {
  }

  lemma {:induction false} OneLineListed(rx: Recognizers, trace: seq<Entry>, file: string, lines: seq<string>,
                                         i: nat, name: string)
    requires Wordly(rx) && Usable(name) && '|' !in name && i < |lines|
    requires NamesAreWords(trace) && UpToLine(trace, file, i)
    ensures NamesAreWords(trace + LineParts(rx, file, lines)[i])
            && UpToLine(trace + LineParts(rx, file, lines)[i], file, i + 1)
    ensures Listed(trace + LineParts(rx, file, lines)[i], name)
         == Listed(trace, name) + DefAt(file, i + 1, KindOn(rx, lines, i, name))
  {
    var found := Finds(rx, lines, i, ScanBefore(rx, lines, i));
    assert LineParts(rx, file, lines)[i] == ToEntries(found, file, i + 1);
    FindsWords(rx, lines, i, ScanBefore(rx, lines, i));
    EntriesAppended(trace, found, file, i + 1);
    KeyIsNew(trace, Entry(name, Def(file, i + 1, "")));
    LineListed(trace, found, file, i + 1, name);
  }

  lemma {:induction false} FileListed(rx: Recognizers, trace: seq<Entry>, file: string, lines: seq<string>,
                                      n: nat, name: string)
    requires Wordly(rx) && Usable(name) && '|' !in name && n <= |lines|
    requires NamesAreWords(trace) && UpToLine(trace, file, 0)
    ensures var all := trace + Flatten(LineParts(rx, file, lines)[..n]);
            && NamesAreWords(all) && UpToLine(all, file, n)
            && Listed(all, name) == Listed(trace, name) + DefsOnLines(rx, file, lines, n, name)
  {
    hide *;
    var parts := LineParts(rx, file, lines);
    FlattenEnds(parts);
    if n == 0 {
      NoLines(rx, trace, file, lines, name);
    } else {
      FileListed(rx, trace, file, lines, n - 1, name);
      FlattenOneMore(parts, n - 1);
      var before := trace + Flatten(parts[..n - 1]);
      OneLineListed(rx, before, file, lines, n - 1, name);
      Associative(trace, Flatten(parts[..n - 1]), parts[n - 1]);
      LineAppended(rx, file, lines, n, name);
      Associative(Listed(trace, name), DefsOnLines(rx, file, lines, n - 1, name),
                  DefAt(file, n, KindOn(rx, lines, n - 1, name)));
    }
  }

  lemma NoLines(rx: Recognizers, trace: seq<Entry>, file: string, lines: seq<string>, name: string)
    requires NamesAreWords(trace) && UpToLine(trace, file, 0)
    ensures var all := trace + Flatten(LineParts(rx, file, lines)[..0]);
            && NamesAreWords(all) && UpToLine(all, file, 0)
            && Listed(all, name) == Listed(trace, name) + DefsOnLines(rx, file, lines, 0, name)
  {
    assert trace + Flatten(LineParts(rx, file, lines)[..0]) == trace;
  }

  lemma LineAppended(rx: Recognizers, file: string, lines: seq<string>, n: nat, name: string)
    ensures DefsOnLines(rx, file, lines, n, name)
         == if n == 0 then []
            else DefsOnLines(rx, file, lines, n - 1, name) + DefAt(file, n, KindOn(rx, lines, n - 1, name))
  {
  }

  // ---- all files ----

  function Paths(files: seq<Source>): (r: seq<string>)
    ensures |r| == |files| && forall k :: 0 <= k < |files| ==> r[k] == files[k].path
  {
    seq(|files|, k requires 0 <= k < |files| => files[k].path)
  }

  /** The entries of the trace are for these files. */
  predicate OfPaths(trace: seq<Entry>, paths: seq<string>) {
    forall k :: 0 <= k < |trace| ==> trace[k].def.file in paths
  }

  lemma AddsForFile(rx: Recognizers, f: Source)
    ensures forall k :: 0 <= k < |FileAdds(rx, f)| ==> FileAdds(rx, f)[k].def.file == f.path
  {
    forall k | 0 <= k < |FileAdds(rx, f)| ensures FileAdds(rx, f)[k].def.file == f.path {
      var i := PartMember(rx, f.path, Scanned(f.raw), k);
    }
  }

  lemma {:induction false} OneFileListed(rx: Recognizers, trace: seq<Entry>, f: Source, paths: seq<string>,
                                         name: string)
    requires Wordly(rx) && Usable(name) && '|' !in name
    requires NamesAreWords(trace) && OfPaths(trace, paths) && f.path !in paths
    ensures var (all, lines) := (trace + FileAdds(rx, f), Scanned(f.raw));
            && NamesAreWords(all) && OfPaths(all, paths + [f.path])
            && Listed(all, name) == Listed(trace, name) + DefsOnLines(rx, f.path, lines, |lines|, name)
  {
    hide Scanned, Listed, DefsOnLines, Flatten, LineParts;
    var lines := Scanned(f.raw);
    FileListed(rx, trace, f.path, lines, |lines|, name);
    FlattenEnds(LineParts(rx, f.path, lines));
    AddsForFile(rx, f);
  }

  /** The list under a name is the list of its definitions, file by file and line by line. */
  lemma {:induction false} ListedByLine(rx: Recognizers, files: seq<Source>, n: nat, name: string)
    requires Wordly(rx) && Usable(name) && '|' !in name && n <= |files| && NoDuplicates(Paths(files))
    ensures var trace := Flatten(FileParts(rx, files)[..n]);
            && NamesAreWords(trace) && OfPaths(trace, Paths(files)[..n])
            && Listed(trace, name) == DefsInFiles(rx, files, n, name)
  {
    hide FileAdds, Scanned, DefsOnLines;
    var parts := FileParts(rx, files);
    FlattenEnds(parts);
    if n > 0 {
      hide Listed, Flatten;
      ListedByLine(rx, files, n - 1, name);
      FlattenOneMore(parts, n - 1);
      assert Paths(files)[..n] == Paths(files)[..n - 1] + [files[n - 1].path];
      OneFileListed(rx, Flatten(parts[..n - 1]), files[n - 1], Paths(files)[..n - 1], name);
    }
  }

  // ---- when the cached answer is the fresh one ----

  /** On every line of every file, `name` is first recognised with the same kind, or not at
      all, before and after. */
  ghost predicate SameKinds(rx: Recognizers, before: seq<Source>, after: seq<Source>, name: string)
    requires |before| == |after|
  {
    forall f, i: nat :: 0 <= f < |before| ==>
      KindOn(rx, Scanned(before[f].raw), i, name) == KindOn(rx, Scanned(after[f].raw), i, name)
  }

  /** d is the definition recognised on its line. */
  predicate IsOnLine(rx: Recognizers, file: string, lines: seq<string>, name: string, d: Def) {
    d.file == file && d.line >= 1 && KindOn(rx, lines, d.line - 1, name) == Some(d.kind)
  }

  lemma OnLineInFile(rx: Recognizers, file: string, lines: seq<string>, name: string, d: Def)
    ensures IsOnLine(rx, file, lines, name, d) ==> d.line <= |lines|
  {
  }

  lemma {:induction false} DefsOnLinesHas(rx: Recognizers, file: string, lines: seq<string>, n: nat, name: string,
                                          d: Def)
    requires n <= |lines|
    ensures d in DefsOnLines(rx, file, lines, n, name) <==> IsOnLine(rx, file, lines, name, d) && d.line <= n
  {
    hide KindOn, DefsOnLines;
    LineAppended(rx, file, lines, n, name);
    if n > 0 {
      DefsOnLinesHas(rx, file, lines, n - 1, name, d);
    }
  }

  lemma FileAppended(rx: Recognizers, files: seq<Source>, n: nat, name: string)
    requires n <= |files|
    ensures DefsInFiles(rx, files, n, name)
         == if n == 0 then []
            else var lines := Scanned(files[n - 1].raw);
                 DefsInFiles(rx, files, n - 1, name) + DefsOnLines(rx, files[n - 1].path, lines, |lines|, name)
  {
  }

  lemma {:induction false} DefsInFilesHas(rx: Recognizers, files: seq<Source>, n: nat, name: string, d: Def)
    requires n <= |files|
    ensures d in DefsInFiles(rx, files, n, name)
       <==> exists f :: 0 <= f < n && IsOnLine(rx, files[f].path, Scanned(files[f].raw), name, d)
  {
    hide Scanned, DefsOnLines, DefsInFiles, KindOn;
    FileAppended(rx, files, n, name);
    if n > 0 {
      DefsInFilesHas(rx, files, n - 1, name, d);
      var lines := Scanned(files[n - 1].raw);
      DefsOnLinesHas(rx, files[n - 1].path, lines, |lines|, name, d);
      OnLineInFile(rx, files[n - 1].path, lines, name, d);
      if f :| 0 <= f < n && IsOnLine(rx, files[f].path, Scanned(files[f].raw), name, d) {
        if f < n - 1 {
          assert d in DefsInFiles(rx, files, n - 1, name);
        }
      }
    }
  }

  lemma {:induction false} SameOnLines(rx: Recognizers, file: string, a: seq<string>, b: seq<string>, n: nat,
                                       name: string)
    requires forall i: nat :: KindOn(rx, a, i, name) == KindOn(rx, b, i, name)
    ensures DefsOnLines(rx, file, a, n, name) == DefsOnLines(rx, file, b, n, name)
  {
    hide KindOn, DefsOnLines;
    LineAppended(rx, file, a, n, name);
    LineAppended(rx, file, b, n, name);
    if n > 0 {
      SameOnLines(rx, file, a, b, n - 1, name);
    }
  }

  lemma {:induction false} NothingPastEnd(rx: Recognizers, file: string, lines: seq<string>, n: nat, name: string)
    requires n >= |lines|
    ensures DefsOnLines(rx, file, lines, n, name) == DefsOnLines(rx, file, lines, |lines|, name)
  {
    hide DefsOnLines, Finds;
    if n > |lines| {
      NothingPastEnd(rx, file, lines, n - 1, name);
      LineAppended(rx, file, lines, n, name);
    }
  }

  lemma {:induction false} SameKindsSameDefs(rx: Recognizers, before: seq<Source>, after: seq<Source>, n: nat,
                                             name: string)
    requires Paths(before) == Paths(after) && n <= |before| && SameKinds(rx, before, after, name)
    ensures DefsInFiles(rx, before, n, name) == DefsInFiles(rx, after, n, name)
  {
    hide Scanned, KindOn, DefsOnLines, DefsInFiles;
    FileAppended(rx, before, n, name);
    FileAppended(rx, after, n, name);
    if n > 0 {
      SameKindsSameDefs(rx, before, after, n - 1, name);
      var a, b := Scanned(before[n - 1].raw), Scanned(after[n - 1].raw);
      assert before[n - 1].path == Paths(before)[n - 1] == after[n - 1].path;
      assert forall i: nat :: KindOn(rx, a, i, name) == KindOn(rx, b, i, name);
      var m := if |a| > |b| then |a| else |b|;
      NothingPastEnd(rx, before[n - 1].path, a, m, name);
      NothingPastEnd(rx, before[n - 1].path, b, m, name);
      SameOnLines(rx, before[n - 1].path, a, b, m, name);
    }
  }

  lemma {:induction false} KindCarriesOver(rx: Recognizers, before: seq<Source>, after: seq<Source>, f: nat, i: nat,
                                           name: string)
    requires Paths(before) == Paths(after) && NoDuplicates(Paths(before)) && f < |before|
    requires DefsInFiles(rx, before, |before|, name) == DefsInFiles(rx, after, |after|, name)
    requires KindOn(rx, Scanned(before[f].raw), i, name).Some?
    ensures KindOn(rx, Scanned(before[f].raw), i, name) == KindOn(rx, Scanned(after[f].raw), i, name)
  {
    hide KindOn, Scanned, DefsInFiles;
    var d := Def(before[f].path, i + 1, KindOn(rx, Scanned(before[f].raw), i, name).value);
    assert IsOnLine(rx, before[f].path, Scanned(before[f].raw), name, d);
    DefsInFilesHas(rx, before, |before|, name, d);
    DefsInFilesHas(rx, after, |after|, name, d);
    var g :| 0 <= g < |after| && IsOnLine(rx, after[g].path, Scanned(after[g].raw), name, d);
    assert Paths(after)[g] == Paths(before)[f];
    assert g == f;
  }

  /** Nothing is listed under a name that is no word or that `add` ignores. */
  lemma {:induction false} NeverListed(trace: seq<Entry>, name: string)
    requires !Usable(name) || ('|' in name && NamesAreWords(trace))
    ensures Listed(trace, name) == []
  {
    if trace != [] {
      NeverListed(trace[..|trace| - 1], name);
    }
  }

  lemma {:induction false} NoWordNoKind(rx: Recognizers, lines: seq<string>, i: nat, name: string)
    requires Wordly(rx) && '|' in name
    ensures KindOn(rx, lines, i, name).None?
  {
    if i < |lines| {
      FindsWords(rx, lines, i, ScanBefore(rx, lines, i));
      NotAmong(Finds(rx, lines, i, ScanBefore(rx, lines, i)), name);
    }
  }

  lemma {:induction false} NotAmong(found: seq<(string, string)>, name: string)
    requires AllWords(found) && '|' in name
    ensures KindOf(found, name).None?
    decreases |found|
  {
    if found != [] {
      NotAmong(found[1..], name);
    }
  }

  lemma TraceIsWords(rx: Recognizers, files: seq<Source>)
    requires Wordly(rx)
    ensures NamesAreWords(Trace(rx, files))
  {
    forall k | 0 <= k < |Trace(rx, files)| ensures '|' !in Trace(rx, files)[k].name {
      var f, i := TraceMember(rx, files, k);
    }
  }

  /** Two scans of the same files list the same under a usable name exactly when it is
      recognised on the same lines with the same kinds. */
  lemma {:induction false} ListedAlikeExactlyWhen(rx: Recognizers, before: seq<Source>, after: seq<Source>,
                                                  name: string)
    requires Wordly(rx) && Paths(before) == Paths(after) && NoDuplicates(Paths(before)) && Usable(name)
    ensures Listed(Trace(rx, before), name) == Listed(Trace(rx, after), name) <==> SameKinds(rx, before, after, name)
  {
    hide KindOn, Scanned, DefsInFiles, Listed, Wordly;
    if '|' in name {
      TraceIsWords(rx, before);
      TraceIsWords(rx, after);
      NeverListed(Trace(rx, before), name);
      NeverListed(Trace(rx, after), name);
      forall f, i: nat | 0 <= f < |before|
        ensures KindOn(rx, Scanned(before[f].raw), i, name) == KindOn(rx, Scanned(after[f].raw), i, name)
      {
        NoWordNoKind(rx, Scanned(before[f].raw), i, name);
        NoWordNoKind(rx, Scanned(after[f].raw), i, name);
      }
    } else {
      TraceByLine(rx, before, name);
      TraceByLine(rx, after, name);
      if SameKinds(rx, before, after, name) {
        SameKindsSameDefs(rx, before, after, |before|, name);
      }
      if DefsInFiles(rx, before, |before|, name) == DefsInFiles(rx, after, |after|, name) {
        forall f, i: nat | 0 <= f < |before|
          ensures KindOn(rx, Scanned(before[f].raw), i, name) == KindOn(rx, Scanned(after[f].raw), i, name)
        {
          if KindOn(rx, Scanned(before[f].raw), i, name).Some? {
            KindCarriesOver(rx, before, after, f, i, name);
          } else if KindOn(rx, Scanned(after[f].raw), i, name).Some? {
            KindCarriesOver(rx, after, before, f, i, name);
          }
        }
      }
    }
  }

  lemma TraceByLine(rx: Recognizers, files: seq<Source>, name: string)
    requires Wordly(rx) && Usable(name) && '|' !in name && NoDuplicates(Paths(files))
    ensures Listed(Trace(rx, files), name) == DefsInFiles(rx, files, |files|, name)
  {
    hide *;
    ListedByLine(rx, files, |files|, name);
    AllParts(rx, files);
  }

  lemma AllParts(rx: Recognizers, files: seq<Source>)
    ensures |FileParts(rx, files)| == |files| && Flatten(FileParts(rx, files)[..|files|]) == Trace(rx, files)
  {
    FlattenEnds(FileParts(rx, files));
  }

  /** What the definition index answers for a name after the files have changed under the
      same paths, the cache being right before: it is right after exactly when the cache is
      empty, holds another root, or the name is recognised on the same lines as before. */
  lemma {:induction false} DefinitionsFreshExactlyWhen(rx: Recognizers, root: string, index: Option<seq<Entry>>,
                                                       at: string,
                                                       before: seq<Source>, after: seq<Source>, name: string)
    requires Wordly(rx) && Paths(before) == Paths(after) && NoDuplicates(Paths(before)) && Usable(name)
    requires index.Some? && root == at ==> index.value == Trace(rx, before)
    ensures Listed(Documents.Served(root, index, at, Trace(rx, after)), name) == Listed(Trace(rx, after), name)
       <==> index == None || root != at || SameKinds(rx, before, after, name)
  {
    hide SameKinds, Listed;
    ListedAlikeExactlyWhen(rx, before, after, name);
  }

  /** Whatever changes only comments and the insides of literals leaves every answer right. */
  lemma {:induction false} FreshWhereCodeIsKept(rx: Recognizers, before: seq<Source>, after: seq<Source>)
    requires Paths(before) == Paths(after)
    requires forall f :: 0 <= f < |before| ==> Scanned(before[f].raw) == Scanned(after[f].raw)
    ensures Trace(rx, before) == Trace(rx, after)
  {
    forall f | 0 <= f < |before| ensures FileAdds(rx, before[f]) == FileAdds(rx, after[f]) {
      assert Paths(before)[f] == Paths(after)[f];
    }
    assert FileParts(rx, before) == FileParts(rx, after);
  }

  // ---- an empty line put into the code ----

  /** The lines with an empty line in front of line k. */
  function WithLine(lines: seq<string>, k: nat): seq<string>
    requires k <= |lines|
  {
    lines[..k] + [""] + lines[k..]
  }

  lemma TerminatedEndsLine(lines: seq<string>)
    ensures EndsLine(Terminated(lines))
  {
    if lines != [] {
      TerminatedEndsLine(lines[1..]);
    }
  }

  /** The lines of a text that ends each of them. */
  function EndedLines(x: string): (lines: seq<string>)
    requires EndsLine(x)
    ensures |lines| == Newlines(x)
  {
    if x == "" then []
    else
      var rest := EndedLines(x[1..]);
      if x[0] == '\n' then [""] + rest
      else
        NewlineBehind(x);
        ByteFirst(x[0], rest)
  }

  lemma NewlineBehind(x: string)
    requires EndsLine(x) && x != "" && x[0] != '\n'
    ensures Newlines(x[1..]) > 0
  {
    NewlinesZero(x[1..]);
    assert x[1..][|x| - 2] == '\n';
  }

  /** The lines with one more byte in front of the first. */
  function ByteFirst(c: char, lines: seq<string>): seq<string>
    requires c == '\n' || lines != []
  {
    if c == '\n' then [""] + lines else [[c] + lines[0]] + lines[1..]
  }

  lemma EndedFirst(x: string)
    requires EndsLine(x) && x != ""
    ensures EndsLine(x[1..]) && (x[0] != '\n' ==> EndedLines(x[1..]) != [])
    ensures EndedLines(x) == ByteFirst(x[0], EndedLines(x[1..]))
  {
    if x[0] != '\n' {
      NewlineBehind(x);
    }
  }

  lemma SplitFirst(s: string, c: char, rest: string)
    requires s == [c] + rest
    ensures Split(s) == ByteFirst(c, Split(rest))
  {
    assert s[1..] == rest;
  }

  lemma ByteFirstConcat(c: char, lines: seq<string>, more: seq<string>)
    requires c == '\n' || lines != []
    ensures ByteFirst(c, lines + more) == ByteFirst(c, lines) + more
  {
  }

  /** Splitting a text that begins with ended lines. */
  lemma {:induction false} SplitEndsLine(x: string, z: string)
    requires EndsLine(x)
    ensures Split(x + z) == EndedLines(x) + Split(z)
  {
    if x == "" {
      assert x + z == z;
    } else {
      hide *;
      EndedFirst(x);
      SplitEndsLine(x[1..], z);
      SplitFirst(x + z, x[0], x[1..] + z);
      ByteFirstConcat(x[0], EndedLines(x[1..]), Split(z));
    }
  }

  lemma JoinEmptyLine(b: seq<string>)
    requires b != []
    ensures Join([""] + b) == "\n" + Join(b)
  {
    var all := [""] + b;
    assert all[1..] == b;
    assert "" + "\n" == "\n";
  }

  lemma JoinWithLine(raw: seq<string>, k: nat)
    requires k < |raw|
    ensures Join(raw) == Terminated(raw[..k]) + Join(raw[k..])
    ensures Join(WithLine(raw, k)) == Terminated(raw[..k]) + "\n" + Join(raw[k..])
  {
    hide Join, Terminated;
    var a, b := raw[..k], raw[k..];
    assert raw == a + b;
    JoinConcat(a, b);
    assert WithLine(raw, k) == a + ([""] + b);
    JoinConcat(a, [""] + b);
    JoinEmptyLine(b);
    Associative(Terminated(a), "\n", Join(b));
  }

  /** An empty line in the raw text is an empty line, in the same place, of what is scanned. */
  lemma {:induction false} ScannedWithLine(raw: seq<string>, k: nat)
    requires AllNewlineFree(raw) && k < |raw|
    ensures |Scanned(raw)| == |raw|
    ensures Scanned(WithLine(raw, k)) == WithLine(Scanned(raw), k)
  {
    hide Join, Split, WithoutComments, CodeOf, EndedLines;
    var a, b := Terminated(raw[..k]), Join(raw[k..]);
    JoinWithLine(raw, k);
    TerminatedEndsLine(raw[..k]);
    NewlinesTerminated(raw[..k]);
    var x, y := InsertedNewlineSurvives(a, b);
    var lines := EndedLines(x);
    LineCountKept(Join(raw));
    SplitJoin(raw);
    SplitEndsLine(x, y);
    SplitEndsLine(x, "\n" + y);
    SplitNewline(y);
    CodeOfEmpty();
    var code := Scanned(raw);
    assert code == CodeLines(lines + Split(y));
    assert Scanned(WithLine(raw, k)) == CodeLines(lines + ([""] + Split(y)));
  }

  lemma SplitNewline(y: string)
    ensures Split("\n" + y) == [""] + Split(y)
  {
    assert ("\n" + y)[1..] == y;
  }

  lemma CodeOfEmpty()
    ensures CodeOf("") == ""
  {
  }

  lemma {:induction false} NextWithLine(lines: seq<string>, k: nat, j: nat)
    requires k <= |lines|
    ensures j <= k ==> NextStartsBrace(WithLine(lines, k), j) == NextStartsBrace(lines, j)
    ensures j >= k ==> NextStartsBrace(WithLine(lines, k), j + 1) == NextStartsBrace(lines, j)
    decreases if j >= |lines| then 0 else |lines| - j
  {
    var more := WithLine(lines, k);
    assert TrimSpace("") == "";
    hide TrimSpace;
    if j < |lines| {
      NextWithLine(lines, k, j + 1);
    }
    assert j < k ==> more[j] == lines[j];
    assert more[k] == "";
    assert k <= j < |lines| ==> more[j + 1] == lines[j];
  }

  lemma {:induction false} ScanWithLine(rx: Recognizers, lines: seq<string>, k: nat, i: nat)
    requires Wordly(rx) && k <= |lines| && i <= |lines|
    ensures i <= k ==> ScanBefore(rx, WithLine(lines, k), i) == ScanBefore(rx, lines, i)
    ensures i >= k ==> ScanBefore(rx, WithLine(lines, k), i + 1) == ScanBefore(rx, lines, i)
  {
    var more := WithLine(lines, k);
    EmptyLineKeepsScan(rx, ScanBefore(rx, lines, i));
    hide ScanAfter, Wordly;
    assert more[k] == "";
    if i > 0 {
      ScanWithLine(rx, lines, k, i - 1);
      assert i <= k ==> more[i - 1] == lines[i - 1];
      assert i > k ==> more[i] == lines[i - 1];
    }
  }

  lemma EmptyLineKeepsScan(rx: Recognizers, st: Scan)
    requires Wordly(rx)
    ensures ScanAfter(rx, "", st) == st
  {
    assert TrimSpace("") == "";
    assert rx.typedefClose("").None?;
  }

  lemma NothingOnEmpty(rx: Recognizers, lines: seq<string>, i: nat, st: Scan)
    requires Wordly(rx) && i < |lines| && lines[i] == ""
    ensures Finds(rx, lines, i, st) == []
  {
    assert TrimSpace("") == "";
    assert rx.define("").None? && rx.funcBrace("").None? && rx.funcHeader("").None? && rx.typedefClose("").None?;
  }

  /** What is recognised depends on the line, the scan so far, and the next brace. */
  lemma FindsAlike(rx: Recognizers, a: seq<string>, i: nat, b: seq<string>, j: nat, st: Scan)
    requires i < |a| && j < |b| && a[i] == b[j] && NextStartsBrace(a, i + 1) == NextStartsBrace(b, j + 1)
    ensures Finds(rx, a, i, st) == Finds(rx, b, j, st)
  {
    hide NextStartsBrace, TypedefStep, Aggregates;
  }

  lemma LinesAround(lines: seq<string>, k: nat)
    requires k <= |lines|
    ensures var more := WithLine(lines, k);
            && |more| == |lines| + 1 && more[k] == ""
            && forall i :: 0 <= i < |lines| ==> more[if i < k then i else i + 1] == lines[i]
  {
  }

  /** What is recognised on the lines after the empty one moves with them. */
  lemma {:induction false} KindWithLine(rx: Recognizers, lines: seq<string>, k: nat, i: nat, name: string)
    requires Wordly(rx) && k <= |lines|
    ensures KindOn(rx, WithLine(lines, k), i, name)
         == if i < k then KindOn(rx, lines, i, name) else if i == k then None else KindOn(rx, lines, i - 1, name)
  {
    hide Wordly, Finds, ScanBefore, NextStartsBrace, WithLine;
    var more := WithLine(lines, k);
    LinesAround(lines, k);
    if i == k {
      NothingOnEmpty(rx, more, k, ScanBefore(rx, more, k));
    } else {
      var j := if i < k then i else i - 1;
      if j < |lines| {
        assert more[if j < k then j else j + 1] == lines[j];
        ScanWithLine(rx, lines, k, j);
        NextWithLine(lines, k, j + 1);
        FindsAlike(rx, more, i, lines, j, ScanBefore(rx, lines, j));
      }
    }
  }

  /** The definitions below line k of the file, n lines further down. */
  function Moved(defs: seq<Def>, file: string, k: nat, n: nat): (r: seq<Def>)
    ensures |r| == |defs|
    ensures forall i :: 0 <= i < |defs| ==>
              r[i] == if defs[i].file == file && defs[i].line > k then defs[i].(line := defs[i].line + n) else defs[i]
  {
    seq(|defs|, i requires 0 <= i < |defs| =>
      if defs[i].file == file && defs[i].line > k then defs[i].(line := defs[i].line + n) else defs[i])
  }

  lemma MovedConcat(a: seq<Def>, b: seq<Def>, file: string, k: nat, n: nat)
    ensures Moved(a + b, file, k, n) == Moved(a, file, k, n) + Moved(b, file, k, n)
  {
  }

  lemma MovedLine(file: string, line: nat, kind: Option<string>, k: nat)
    ensures Moved(DefAt(file, line, kind), file, k, 1) == DefAt(file, if line > k then line + 1 else line, kind)
  {
  }

  lemma {:induction false} DefsAboveLine(rx: Recognizers, file: string, lines: seq<string>, k: nat, i: nat,
                                         name: string)
    requires Wordly(rx) && i <= k <= |lines|
    ensures DefsOnLines(rx, file, WithLine(lines, k), i, name) == DefsOnLines(rx, file, lines, i, name)
    ensures Moved(DefsOnLines(rx, file, lines, i, name), file, k, 1) == DefsOnLines(rx, file, lines, i, name)
  {
    hide Wordly, KindOn, DefsOnLines, WithLine;
    LineAppended(rx, file, lines, i, name);
    LineAppended(rx, file, WithLine(lines, k), i, name);
    if i > 0 {
      DefsAboveLine(rx, file, lines, k, i - 1, name);
      KindWithLine(rx, lines, k, i - 1, name);
      var kind := KindOn(rx, lines, i - 1, name);
      MovedLine(file, i, kind, k);
      MovedConcat(DefsOnLines(rx, file, lines, i - 1, name), DefAt(file, i, kind), file, k, 1);
    }
  }

  lemma {:induction false} DefsWithLine(rx: Recognizers, file: string, lines: seq<string>, k: nat, i: nat, name: string)
    requires Wordly(rx) && k <= i <= |lines|
    ensures DefsOnLines(rx, file, WithLine(lines, k), i + 1, name)
         == Moved(DefsOnLines(rx, file, lines, i, name), file, k, 1)
  {
    hide Wordly, KindOn, DefsOnLines, WithLine;
    LineAppended(rx, file, WithLine(lines, k), i + 1, name);
    KindWithLine(rx, lines, k, i, name);
    if i == k {
      DefsAboveLine(rx, file, lines, k, k, name);
    } else {
      LineAppended(rx, file, lines, i, name);
      DefsWithLine(rx, file, lines, k, i - 1, name);
      var kind := KindOn(rx, lines, i - 1, name);
      MovedLine(file, i, kind, k);
      MovedConcat(DefsOnLines(rx, file, lines, i - 1, name), DefAt(file, i, kind), file, k, 1);
    }
  }

  // ---- newlines inserted in front of a line ----

  /** The lines with n empty lines in front of line k. */
  function WithLines(lines: seq<string>, k: nat, n: nat): (r: seq<string>)
    requires k <= |lines|
    ensures |r| == |lines| + n && r[..k] == lines[..k] && r[k + n..] == lines[k..]
  {
    if n == 0 then lines else WithLine(WithLines(lines, k, n - 1), k)
  }

  /** The definitions of one file after an empty line in file f. */
  lemma {:induction false} FileMoved(rx: Recognizers, files: seq<Source>, f: nat, k: nat, m: nat, name: string)
    requires Wordly(rx) && f < |files| && k < |files[f].raw| && AllNewlineFree(files[f].raw) && m < |files|
    requires NoDuplicates(Paths(files))
    ensures var after := files[f := Source(files[f].path, WithLine(files[f].raw, k))];
            var (lines, more) := (Scanned(files[m].raw), Scanned(after[m].raw));
            DefsOnLines(rx, after[m].path, more, |more|, name)
            == Moved(DefsOnLines(rx, files[m].path, lines, |lines|, name), files[f].path, k, 1)
  {
    hide Wordly, Scanned, DefsOnLines, WithLine;
    var (path, lines) := (files[m].path, Scanned(files[m].raw));
    if m == f {
      ScannedWithLine(files[f].raw, k);
      LinesAround(lines, k);
      DefsWithLine(rx, path, lines, k, |lines|, name);
    } else {
      assert Paths(files)[m] != Paths(files)[f];
      OtherFileStays(rx, path, lines, |lines|, name, files[f].path, k);
    }
  }

  lemma {:induction false} OneLineInFiles(rx: Recognizers, files: seq<Source>, f: nat, k: nat, m: nat, name: string)
    requires Wordly(rx) && f < |files| && k < |files[f].raw| && AllNewlineFree(files[f].raw) && m <= |files|
    requires NoDuplicates(Paths(files))
    ensures var after := files[f := Source(files[f].path, WithLine(files[f].raw, k))];
            DefsInFiles(rx, after, m, name) == Moved(DefsInFiles(rx, files, m, name), files[f].path, k, 1)
  {
    hide *;
    var after := files[f := Source(files[f].path, WithLine(files[f].raw, k))];
    FileAppended(rx, files, m, name);
    FileAppended(rx, after, m, name);
    if m > 0 {
      OneLineInFiles(rx, files, f, k, m - 1, name);
      FileMoved(rx, files, f, k, m - 1, name);
      var (path, lines) := (files[m - 1].path, Scanned(files[m - 1].raw));
      MovedConcat(DefsInFiles(rx, files, m - 1, name), DefsOnLines(rx, path, lines, |lines|, name),
                  files[f].path, k, 1);
    }
  }

  lemma {:induction false} OtherFileStays(rx: Recognizers, path: string, lines: seq<string>, n: nat, name: string,
                                          file: string, k: nat)
    requires path != file && n <= |lines|
    ensures Moved(DefsOnLines(rx, path, lines, n, name), file, k, 1) == DefsOnLines(rx, path, lines, n, name)
  {
    hide KindOn, DefsOnLines;
    var defs := DefsOnLines(rx, path, lines, n, name);
    forall i | 0 <= i < |defs| ensures defs[i].file == path {
      assert defs[i] in defs;
      DefsOnLinesHas(rx, path, lines, n, name, defs[i]);
    }
  }

  lemma EmptyLineNewlineFree(raw: seq<string>, k: nat)
    requires AllNewlineFree(raw) && k <= |raw|
    ensures AllNewlineFree(WithLine(raw, k))
  {
  }

  lemma {:induction false} LinesInFiles(rx: Recognizers, files: seq<Source>, f: nat, k: nat, n: nat, name: string)
    requires Wordly(rx) && f < |files| && k < |files[f].raw| && AllNewlineFree(files[f].raw)
    requires NoDuplicates(Paths(files))
    ensures AllNewlineFree(WithLines(files[f].raw, k, n))
    ensures DefsInFiles(rx, files[f := Source(files[f].path, WithLines(files[f].raw, k, n))], |files|, name)
         == Moved(DefsInFiles(rx, files, |files|, name), files[f].path, k, n)
  {
    hide Wordly, DefsInFiles, WithLine;
    var path, raw := files[f].path, files[f].raw;
    if n == 0 {
      assert files[f := Source(path, WithLines(raw, k, 0))] == files;
      assert Moved(DefsInFiles(rx, files, |files|, name), path, k, 0) == DefsInFiles(rx, files, |files|, name);
    } else {
      var less := files[f := Source(path, WithLines(raw, k, n - 1))];
      LinesInFiles(rx, files, f, k, n - 1, name);
      assert Paths(less) == Paths(files);
      OneLineInFiles(rx, less, f, k, |files|, name);
      EmptyLineNewlineFree(less[f].raw, k);
      assert less[f := Source(path, WithLines(raw, k, n))] == files[f := Source(path, WithLines(raw, k, n))];
      MovedOnce(DefsInFiles(rx, files, |files|, name), path, k, n - 1);
    }
  }

  lemma MovedOnce(defs: seq<Def>, file: string, k: nat, n: nat)
    ensures Moved(Moved(defs, file, k, n), file, k, 1) == Moved(defs, file, k, n + 1)
  {
  }

  /** The edit that inserts n newlines at the start of line k. */
  function NewlinesAt(k: nat, n: nat): Edit {
    Edit(Position(k, 0), Position(k, 0), Repeat("\n", n))
  }

  lemma {:induction false} JoinWithLines(raw: seq<string>, k: nat, n: nat)
    requires k < |raw|
    ensures Join(WithLines(raw, k, n)) == Terminated(raw[..k]) + Repeat("\n", n) + Join(raw[k..])
  {
    hide Join, Terminated, WithLine, Repeat;
    JoinWithLine(raw, k);
    var (a, b) := (Terminated(raw[..k]), Join(raw[k..]));
    OneMoreNewline(n);
    if n == 0 {
      assert a + "" == a;
    } else {
      var less, r := WithLines(raw, k, n - 1), Repeat("\n", n - 1);
      JoinWithLines(raw, k, n - 1);
      JoinWithLine(less, k);
      SameBehind(a, Join(less[k..]), r, b);
      Associative(a + "\n", r, b);
      Associative(a, "\n", r);
    }
  }

  lemma OneMoreNewline(n: nat)
    ensures Repeat("\n", n) == if n == 0 then "" else "\n" + Repeat("\n", n - 1)
  {
  }

  lemma SameBehind(a: string, c: string, r: string, b: string)
    requires a + c == a + r + b
    ensures c == r + b
  {
    assert c == (a + c)[|a|..];
    assert a + r + b == a + (r + b);
    assert r + b == (a + (r + b))[|a|..];
  }

  /** Inserting newlines at the start of a line and reading the file again gives the lines
      with as many empty ones in front of that line. */
  lemma {:induction false} InsertedLines(raw: seq<string>, k: nat, n: nat)
    requires AllNewlineFree(raw) && k < |raw|
    requires AllNewlineFree(WithLines(raw, k, n))
    ensures Split(Join(Applied(raw, NewlinesAt(k, n)))) == WithLines(raw, k, n)
  {
    hide Applied, Join, Terminated, WithLines, Repeat;
    var e := NewlinesAt(k, n);
    AppliedIsSubstitution(raw, e);
    JoinWithLine(raw, k);
    var (a, b, r) := (Terminated(raw[..k]), Join(raw[k..]), Repeat("\n", n));
    assert Offset(raw, e.start) == |a|;
    assert (a + b)[..|a|] == a && (a + b)[|a|..] == b;
    Associative(a, r, b);
    JoinWithLines(raw, k, n);
    SplitJoin(WithLines(raw, k, n));
  }

  /** A file edited by inserting n newlines at the start of line k. */
  function Pushed(files: seq<Source>, f: nat, k: nat, n: nat): (after: seq<Source>)
    requires f < |files| && k < |files[f].raw|
    ensures Paths(after) == Paths(files)
  {
    files[f := Source(files[f].path, Split(Join(Applied(files[f].raw, NewlinesAt(k, n)))))]
  }

  /** After n newlines are inserted at the start of a line, the definitions of the file
      from that line on are n lines further down, all others where they were; so the cached
      answer for a name is stale exactly when n is not 0 and it lists one of them. */
  lemma {:induction false} NewlinesMakeStaleExactlyWhen(rx: Recognizers, before: seq<Source>, f: nat, k: nat, n: nat,
                                                        name: string)
    requires Wordly(rx) && NoDuplicates(Paths(before)) && Usable(name)
    requires f < |before| && k < |before[f].raw| && AllNewlineFree(before[f].raw)
    ensures var (listed, path, after) := (Listed(Trace(rx, before), name), before[f].path, Pushed(before, f, k, n));
            && Listed(Trace(rx, after), name) == Moved(listed, path, k, n)
            && (Listed(Trace(rx, after), name) == listed
                <==> n == 0 || forall d :: d in listed ==> d.file != path || d.line <= k)
  {
    var (listed, path, after) := (Listed(Trace(rx, before), name), before[f].path, Pushed(before, f, k, n));
    hide Wordly, Usable, Trace, Applied;
    if '|' in name {
      TraceIsWords(rx, before);
      TraceIsWords(rx, after);
      NeverListed(Trace(rx, before), name);
      NeverListed(Trace(rx, after), name);
    } else {
      LinesInFiles(rx, before, f, k, n, name);
      InsertedLines(before[f].raw, k, n);
      TraceByLine(rx, before, name);
      TraceByLine(rx, after, name);
    }
    MovedAway(listed, path, k, n);
  }

  lemma MovedAway(defs: seq<Def>, file: string, k: nat, n: nat)
    ensures Moved(defs, file, k, n) == defs <==> n == 0 || forall d :: d in defs ==> d.file != file || d.line <= k
  {
    var moved := Moved(defs, file, k, n);
    if moved == defs && n > 0 {
      forall d | d in defs ensures d.file != file || d.line <= k {
        var i :| 0 <= i < |defs| && defs[i] == d;
        assert moved[i] == d;
      }
    }
    if n == 0 || forall d :: d in defs ==> d.file != file || d.line <= k {
      forall i | 0 <= i < |defs| ensures moved[i] == defs[i] {
        assert defs[i] in defs;
      }
    }
  }

  predicate Plain(line: string) {
    forall c :: c in line ==> c != '/' && !IsQuote(c) && c != '\n'
  }

  lemma {:induction false} PlainIsNeutral(line: string, i: nat)
    requires Plain(line)
    ensures NeutralFrom(line, i)
    decreases if i < |line| then |line| - i else 0
  {
    if i < |line| {
      assert line[i] in line;
      PlainIsNeutral(line, i + 1);
    }
  }

  /** A line without slashes and quotes is scanned as it is. */
  lemma PlainIsScanned(line: string)
    requires Plain(line)
    ensures Scanned([line]) == [line]
  {
    assert forall i :: 0 <= i < |line| ==> line[i] in line;
    assert NoOpeners(line);
    UnchangedExactlyWhen(line);
    SplitAtNewline(line, "");
    PlainIsNeutral(line, 0);
    LineUnchangedExactlyWhen(line);
  }

  lemma {:induction false} MacroListed(rx: Recognizers, path: string, line: string, name: string)
    requires Wordly(rx) && Plain(line) && rx.define(line) == Some(name) && Usable(name)
    ensures Listed(Trace(rx, [Source(path, [line])]), name) == [Def(path, 1, "define")]
  {
    var files := [Source(path, [line])];
    PlainIsScanned(line);
    var found := Finds(rx, [line], 0, ScanBefore(rx, [line], 0));
    assert found[0] == (name, "define");
    assert KindOn(rx, [line], 0, name) == Some("define");
    assert '|' !in name;
    hide Scanned, KindOn, Wordly, DefsOnLines, DefsInFiles;
    TraceByLine(rx, files, name);
    LineAppended(rx, path, [line], 1, name);
    LineAppended(rx, path, [line], 0, name);
    FileAppended(rx, files, 1, name);
    FileAppended(rx, files, 0, name);
  }

  /** For instance a macro on the first line: the cache goes on naming line 1 when a
      newline has moved it to line 2. */
  lemma {:induction false} StaleMacro(rx: Recognizers, root: string, path: string)
    requires Wordly(rx) && rx.define("#define X 1") == Some("X")
    ensures var before := [Source(path, ["#define X 1"])];
            var after := Pushed(before, 0, 0, 1);
            && Listed(Documents.Served(root, Some(Trace(rx, before)), root, Trace(rx, after)), "X")
               == [Def(path, 1, "define")]
            && Listed(Trace(rx, after), "X") == [Def(path, 2, "define")]
  {
    var before := [Source(path, ["#define X 1"])];
    assert Plain("#define X 1");
    OneLetterUsable();
    hide *;
    MacroListed(rx, path, "#define X 1", "X");
    SinglePath(before);
    NewlinesMakeStaleExactlyWhen(rx, before, 0, 0, 1, "X");
    MovedLine(path, 1, Some("define"), 0);
    ServedFromCache(root, Trace(rx, before), Trace(rx, Pushed(before, 0, 0, 1)));
    OneDef(path, 1, "define");
    OneDef(path, 2, "define");
  }

  lemma OneDef(file: string, line: nat, kind: string)
    ensures DefAt(file, line, Some(kind)) == [Def(file, line, kind)]
  {
  }

  lemma SinglePath(files: seq<Source>)
    requires |files| == 1
    ensures NoDuplicates(Paths(files))
  {
  }

  lemma OneLetterUsable()
    ensures Usable("X")
  {
    assert |"X"| == 1;
  }

  lemma ServedFromCache(root: string, cached: seq<Entry>, current: seq<Entry>)
    ensures Documents.Served(root, Some(cached), root, current) == cached
  {
  }
}
