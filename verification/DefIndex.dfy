/** The definition index of internal/cindex/cindex.go. */
module DefIndex {
  import opened Text
  import opened Decimals
  import opened Strip
  import opened Rearrangement

  datatype Def = Def(file: string, line: nat, kind: string)

  /** A definition handed to `add`. */
  datatype Entry = Entry(name: string, def: Def)

  /** The regular expressions, each as what it recognises on a line. */
  datatype Recognizers = Recognizers(
    define: string -> Option<string>,
    typedefName: string -> Option<string>,
    typedefClose: string -> Option<string>,
    aggregates: string -> seq<(string, string)>,
    funcBrace: string -> Option<string>,
    funcHeader: string -> Option<string>)

  const KEYWORDS: set<string> := {
    "if", "for", "while", "switch", "return", "sizeof", "do", "else", "struct", "union",
    "enum", "typedef", "case", "default", "goto"}

  /** A name `add` does not ignore. */
  predicate Usable(name: string) {
    name != "" && name !in KEYWORDS
  }

  // ---- add ----

  /** The string under which a definition is remembered as seen. */
  function Key(e: Entry): string {
    e.name + "|" + e.def.file + "|" + Decimal(e.def.line)
  }

  /** The key tells apart what differs in name, file or line, whatever the file's path. */
  lemma {:induction false} KeyInjective(e: Entry, f: Entry)
    requires '|' !in e.name && '|' !in f.name && Key(e) == Key(f)
    ensures e.name == f.name && e.def.file == f.def.file && e.def.line == f.def.line
  {
    var d, g := Decimal(e.def.line), Decimal(f.def.line);
    DecimalIsDigits(e.def.line);
    DecimalIsDigits(f.def.line);
    assert forall k :: 0 <= k < |d| ==> d[k] != '|';
    assert forall k :: 0 <= k < |g| ==> g[k] != '|';
    LastMarkSeparates(e.name + "|" + e.def.file, d, f.name + "|" + f.def.file, g, '|');
    FirstMarkSeparates(e.name, e.def.file, f.name, f.def.file, '|');
    DecimalInjective(e.def.line, f.def.line);
  }

  function Keys(trace: seq<Entry>): set<string> {
    if trace == [] then {}
    else
      var e, earlier := trace[|trace| - 1], Keys(trace[..|trace| - 1]);
      if Usable(e.name) then earlier + {Key(e)} else earlier
  }

  /** What the index lists under a name after the entries of `trace` have been added. */
  function Listed(trace: seq<Entry>, name: string): seq<Def> {
    if trace == [] then []
    else
      var earlier, e := trace[..|trace| - 1], trace[|trace| - 1];
      if e.name == name && Usable(name) && Key(e) !in Keys(earlier) then Listed(earlier, name) + [e.def]
      else Listed(earlier, name)
  }

  /** The maps that buildFresh's closure `add` updates. */
  class Index {
    var defs: map<string, seq<Def>>
    var seen: set<string>
    ghost var trace: seq<Entry>

    constructor ()
      ensures Valid() && trace == []
    {
      defs, seen, trace := map[], {}, [];
    }

    ghost predicate Valid()
      reads this
    {
      seen == Keys(trace) && forall n :: Lookup(n) == Listed(trace, n)
    }

    function Lookup(name: string): seq<Def>
      reads this
    {
      if name in defs then defs[name] else []
    }

    method Add(name: string, file: string, line: nat, kind: string)
      requires Valid()
      modifies this
      ensures Valid() && trace == old(trace) + [Entry(name, Def(file, line, kind))]
    {
      ghost var e := Entry(name, Def(file, line, kind));
      assert (trace + [e])[..|trace|] == trace;
      trace := trace + [e];
      if name == "" || name in KEYWORDS {
        return;
      }
      var key := name + "|" + file + "|" + Decimal(line);
      if key in seen {
        return;
      }
      seen := seen + {key};
      defs := defs[name := Lookup(name) + [Def(file, line, kind)]];
    }
  }

  // -- what is listed --

  /** All recognised names are words. */
  ghost predicate NamesAreWords(trace: seq<Entry>) {
    forall k :: 0 <= k < |trace| ==> '|' !in trace[k].name
  }

  lemma {:induction false} KeysHas(trace: seq<Entry>, key: string)
    ensures key in Keys(trace) <==> exists k :: 0 <= k < |trace| && Usable(trace[k].name) && Key(trace[k]) == key
  {
    if trace != [] {
      var n := |trace| - 1;
      KeysHas(trace[..n], key);
      if k :| 0 <= k < |trace| && Usable(trace[k].name) && Key(trace[k]) == key {
        if k < n { assert trace[..n][k] == trace[k]; }
      }
    }
  }

  /** Whatever is listed was added under that name. */
  lemma {:induction false} ListedWasAdded(trace: seq<Entry>, name: string, i: nat) returns (k: nat)
    requires i < |Listed(trace, name)|
    ensures k < |trace| && trace[k] == Entry(name, Listed(trace, name)[i]) && Usable(name)
  {
    var n := |trace| - 1;
    if i < |Listed(trace[..n], name)| {
      k := ListedWasAdded(trace[..n], name, i);
    } else {
      k := n;
    }
  }

  /** Everything added under a usable name is listed, at least by another entry for the
      same file and line. */
  lemma {:induction false} AddedIsListed(trace: seq<Entry>, k: nat) returns (i: nat)
    requires NamesAreWords(trace) && k < |trace| && Usable(trace[k].name)
    ensures var e := trace[k];
            && i < |Listed(trace, e.name)|
            && Listed(trace, e.name)[i].file == e.def.file && Listed(trace, e.name)[i].line == e.def.line
  {
    var n, e := |trace| - 1, trace[k];
    if k < n {
      i := AddedIsListed(trace[..n], k);
    } else if Key(e) in Keys(trace[..n]) {
      KeysHas(trace[..n], Key(e));
      var j :| 0 <= j < n && Usable(trace[..n][j].name) && Key(trace[..n][j]) == Key(e);
      KeyInjective(trace[j], e);
      i := AddedIsListed(trace[..n], j);
    } else {
      i := |Listed(trace[..n], e.name)|;
    }
  }

  /** Something is listed under a name exactly when the name was added and is neither empty nor
      a word of the language after which no definition is named. */
  lemma {:induction false} ListedExactlyWhen(trace: seq<Entry>, name: string)
    requires NamesAreWords(trace)
    ensures Listed(trace, name) != []
       <==> (exists k :: 0 <= k < |trace| && trace[k].name == name)
            && name !in ["", "if", "for", "while", "switch", "return", "sizeof", "do", "else", "struct", "union",
                         "enum", "typedef", "case", "default", "goto"]
  {
    if Listed(trace, name) != [] {
      var k := ListedWasAdded(trace, name, 0);
    }
    if k :| 0 <= k < |trace| && trace[k].name == name && Usable(name) {
      var i := AddedIsListed(trace, k);
    }
  }

  /** No two entries of a name share file and line. */
  lemma {:induction false} ListedOnce(trace: seq<Entry>, name: string, i: nat, j: nat)
    requires NamesAreWords(trace) && i < j < |Listed(trace, name)|
    ensures Listed(trace, name)[i].file != Listed(trace, name)[j].file
         || Listed(trace, name)[i].line != Listed(trace, name)[j].line
  {
    var n := |trace| - 1;
    var earlier, e := trace[..n], trace[n];
    if j < |Listed(earlier, name)| {
      ListedOnce(earlier, name, i, j);
    } else {
      var k := ListedWasAdded(earlier, name, i);
      KeysHas(earlier, Key(e));
      assert Key(earlier[k]) != Key(e);
    }
  }

  // ---- the line scan ----

  /** What the loop carries from line to line. */
  datatype Scan = Scan(depth: int, pendingTypedef: bool)

  function HasPrefix(s: string, p: string): bool {
    p <= s
  }

  function HasSuffix(s: string, p: string): bool {
    |p| <= |s| && s[|s| - |p|..] == p
  }

  /** The first line at or after idx that is not blank begins with a brace. */
  predicate NextStartsBrace(lines: seq<string>, idx: nat)
    decreases |lines| - idx
  {
    if idx >= |lines| then false
    else if TrimSpace(lines[idx]) == "" then NextStartsBrace(lines, idx + 1)
    else HasPrefix(TrimSpace(lines[idx]), "{")
  }

  method NextNonEmptyStartsBrace(lines: seq<string>, idx: nat) returns (b: bool)
    ensures b == NextStartsBrace(lines, idx)
    ensures b <==> exists j :: idx <= j < |lines| && HasPrefix(TrimSpace(lines[j]), "{")
                            && forall k :: idx <= k < j ==> TrimSpace(lines[k]) == ""
  {
    var j := idx;
    while j < |lines|
      invariant idx <= j && (j <= |lines| || j == idx)
      invariant forall k :: idx <= k < j ==> TrimSpace(lines[k]) == ""
      invariant NextStartsBrace(lines, idx) == NextStartsBrace(lines, j)
    {
      var t := TrimSpace(lines[j]);
      if t == "" {
        j := j + 1;
        continue;
      }
      b := HasPrefix(t, "{");
      assert forall i ::
          idx <= i < |lines| && (forall k :: idx <= k < i ==> TrimSpace(lines[k]) == "") && TrimSpace(lines[i]) != ""
          ==> i == j;
      return b;
    }
    return false;
  }

  /** Opening minus closing braces of a line. */
  function NetBraces(line: string): int {
    Count(line, '{') - Count(line, '}')
  }

  /** Opening minus closing braces of the first i lines. */
  function NetDepth(lines: seq<string>, i: nat): int
    requires i <= |lines|
  {
    if i == 0 then 0 else NetDepth(lines, i - 1) + NetBraces(lines[i - 1])
  }

  function One(name: Option<string>, kind: string): seq<(string, string)> {
    match name case None => [] case Some(n) => [(n, kind)]
  }

  /** The typedef branch on line s: what it adds, and whether a typedef stays pending. */
  function TypedefStep(rx: Recognizers, s: string, pending: bool): (seq<(string, string)>, bool) {
    var trimmed := TrimSpace(s);
    if HasPrefix(trimmed, "typedef") then
      if HasSuffix(trimmed, ";") then (One(rx.typedefName(trimmed), "typedef"), pending)
      else ([], true)
    else if pending && rx.typedefClose(s).Some? then (One(rx.typedefClose(s), "typedef"), false)
    else ([], pending)
  }

  function Aggregates(rx: Recognizers, s: string): (r: seq<(string, string)>)
    ensures |r| == |rx.aggregates(s)|
  {
    var all := rx.aggregates(s);
    seq(|all|, k requires 0 <= k < |all| => (all[k].1, all[k].0))
  }

  /** A function definition that begins on line i, which is at brace depth `depth`. */
  function FuncAt(rx: Recognizers, lines: seq<string>, i: nat, depth: int): Option<string>
    requires i < |lines|
  {
    if depth != 0 then None
    else if rx.funcBrace(lines[i]).Some? then rx.funcBrace(lines[i])
    else if NextStartsBrace(lines, i + 1) then rx.funcHeader(lines[i])
    else None
  }

  /** Everything line i adds, in order, as (name, kind). */
  function Finds(rx: Recognizers, lines: seq<string>, i: nat, st: Scan): seq<(string, string)>
    requires i < |lines|
  {
    One(rx.define(lines[i]), "define")
    + TypedefStep(rx, lines[i], st.pendingTypedef).0
    + Aggregates(rx, lines[i])
    + One(FuncAt(rx, lines, i, st.depth), "func")
  }

  /** The loop's variables after a line. */
  function ScanAfter(rx: Recognizers, line: string, st: Scan): Scan {
    Scan(st.depth + NetBraces(line), TypedefStep(rx, line, st.pendingTypedef).1)
  }

  /** The loop's variables before line i. */
  function ScanBefore(rx: Recognizers, lines: seq<string>, i: nat): Scan
    requires i <= |lines|
  {
    if i == 0 then Scan(0, false) else ScanAfter(rx, lines[i - 1], ScanBefore(rx, lines, i - 1))
  }

  lemma {:induction false} DepthIsNet(rx: Recognizers, lines: seq<string>, i: nat)
    requires i <= |lines|
    ensures ScanBefore(rx, lines, i).depth == NetDepth(lines, i)
  {
    if i > 0 { DepthIsNet(rx, lines, i - 1); }
  }

  function ToEntries(found: seq<(string, string)>, file: string, line: nat): (r: seq<Entry>)
    ensures |r| == |found|
    ensures forall k :: 0 <= k < |found| ==> r[k] == Entry(found[k].0, Def(file, line, found[k].1))
  {
    seq(|found|, k requires 0 <= k < |found| => Entry(found[k].0, Def(file, line, found[k].1)))
  }

  function LineAdds(rx: Recognizers, file: string, lines: seq<string>, i: nat, st: Scan): seq<Entry>
    requires i < |lines|
  {
    ToEntries(Finds(rx, lines, i, st), file, i + 1)
  }

  /** What each line of a file adds. */
  function LineParts(rx: Recognizers, file: string, lines: seq<string>): (r: seq<seq<Entry>>)
    ensures |r| == |lines|
  {
    seq(|lines|, i requires 0 <= i < |lines| =>
      LineAdds(rx, file, lines, i, ScanBefore(rx, lines, i)))
  }

  /** The lines that are scanned: comments stripped over the whole file, literals
      blanked line by line. */
  function Scanned(raw: seq<string>): seq<string> {
    CodeLines(Split(WithoutComments(Join(raw))))
  }

  /** A source file: its path and its lines (none if it cannot be read). */
  datatype Source = Source(path: string, raw: seq<string>)

  /** What a file adds. */
  function FileAdds(rx: Recognizers, f: Source): seq<Entry> {
    Flatten(LineParts(rx, f.path, Scanned(f.raw)))
  }

  function FileParts(rx: Recognizers, files: seq<Source>): (r: seq<seq<Entry>>)
    ensures |r| == |files|
    ensures forall k :: 0 <= k < |files| ==> r[k] == FileAdds(rx, files[k])
  {
    seq(|files|, k requires 0 <= k < |files| => FileAdds(rx, files[k]))
  }

  /** Everything a build hands to `add`, in order. */
  function Trace(rx: Recognizers, files: seq<Source>): seq<Entry> {
    Flatten(FileParts(rx, files))
  }

  lemma {:induction false} Append4(t: seq<Entry>, a: seq<(string, string)>, b: seq<(string, string)>,
                                   c: seq<(string, string)>,
                d: seq<(string, string)>, file: string, line: nat)
    ensures t + ToEntries(a, file, line) + ToEntries(b, file, line) + ToEntries(c, file, line)
            + ToEntries(d, file, line)
         == t + ToEntries(a + b + c + d, file, line)
  {
  }

  method AddAll(ix: Index, found: seq<(string, string)>, file: string, line: nat)
    requires ix.Valid()
    modifies ix
    ensures ix.Valid() && ix.trace == old(ix.trace) + ToEntries(found, file, line)
  {
    ghost var trace0, all := ix.trace, ToEntries(found, file, line);
    var k := 0;
    while k < |found|
      invariant 0 <= k <= |found| && ix.Valid()
      invariant ix.trace == trace0 + all[..k]
    {
      assert all[..k + 1] == all[..k] + [all[k]];
      ix.Add(found[k].0, file, line, found[k].1);
      k := k + 1;
    }
    assert all[..k] == all;
  }

  /** The typedef part of the loop body. */
  method ScanTypedef(ix: Index, rx: Recognizers, s: string, file: string, line: nat, pending: bool) returns (next: bool)
    requires ix.Valid()
    modifies ix
    ensures ix.Valid()
    ensures ix.trace == old(ix.trace) + ToEntries(TypedefStep(rx, s, pending).0, file, line)
    ensures next == TypedefStep(rx, s, pending).1
  {
    var trimmed := TrimSpace(s);
    next := pending;
    var m: Option<string> := None;
    if HasPrefix(trimmed, "typedef") {
      if HasSuffix(trimmed, ";") {
        m := rx.typedefName(trimmed);
      } else {
        next := true;
      }
    } else if pending {
      m := rx.typedefClose(s);
      if m.Some? {
        next := false;
      }
    }
    AddAll(ix, One(m, "typedef"), file, line);
  }

  /** The function part of the loop body. */
  method ScanFunction(ix: Index, rx: Recognizers, file: string, lines: seq<string>, i: nat, startDepth: int)
    requires ix.Valid() && i < |lines|
    modifies ix
    ensures ix.Valid()
    ensures ix.trace == old(ix.trace) + ToEntries(One(FuncAt(rx, lines, i, startDepth), "func"), file, i + 1)
  {
    var m: Option<string> := None;
    if startDepth == 0 {
      m := rx.funcBrace(lines[i]);
      if m.None? && rx.funcHeader(lines[i]).Some? {
        var braced := NextNonEmptyStartsBrace(lines, i + 1);
        if braced {
          m := rx.funcHeader(lines[i]);
        }
      }
    }
    AddAll(ix, One(m, "func"), file, i + 1);
  }

  /** The body of the loop over a file's lines. */
  method ScanLine(ix: Index, rx: Recognizers, file: string, lines: seq<string>, i: nat, st: Scan) returns (next: Scan)
    requires ix.Valid() && i < |lines|
    modifies ix
    ensures ix.Valid()
    ensures ix.trace == old(ix.trace) + LineAdds(rx, file, lines, i, st)
    ensures next == ScanAfter(rx, lines[i], st)
  {
    ghost var trace0 := ix.trace;
    var s := lines[i];
    var depth := st.depth + (Count(s, '{') - Count(s, '}'));
    AddAll(ix, One(rx.define(s), "define"), file, i + 1);
    var pending := ScanTypedef(ix, rx, s, file, i + 1, st.pendingTypedef);
    AddAll(ix, Aggregates(rx, s), file, i + 1);
    ScanFunction(ix, rx, file, lines, i, st.depth);
    Append4(trace0, One(rx.define(s), "define"), TypedefStep(rx, s, st.pendingTypedef).0, Aggregates(rx, s),
            One(FuncAt(rx, lines, i, st.depth), "func"), file, i + 1);
    next := Scan(depth, pending);
  }

  method StripLines(raw: seq<string>) returns (stripped: seq<string>)
    ensures stripped == Scanned(raw)
  {
    var joined := StripComments(Join(raw));
    var lines := Split(joined);
    stripped := [];
    var j := 0;
    while j < |lines|
      invariant 0 <= j <= |lines| && stripped == CodeLines(lines)[..j]
    {
      var code := StripCodeLine(lines[j]);
      stripped := stripped + [code];
      j := j + 1;
    }
  }

  method ScanFile(ix: Index, rx: Recognizers, file: string, lines: seq<string>)
    requires ix.Valid()
    modifies ix
    ensures ix.Valid() && ix.trace == old(ix.trace) + Flatten(LineParts(rx, file, lines))
  {
    hide Flatten, LineAdds, ScanAfter, Keys, Listed;
    ghost var trace0, parts := ix.trace, LineParts(rx, file, lines);
    FlattenEnds(parts);
    var st := Scan(0, false);
    var i := 0;
    while i < |lines|
      invariant 0 <= i <= |lines| && ix.Valid()
      invariant st == ScanBefore(rx, lines, i)
      invariant ix.trace == trace0 + Flatten(parts[..i])
    {
      FlattenOneMore(parts, i);
      Associative(trace0, Flatten(parts[..i]), parts[i]);
      st := ScanLine(ix, rx, file, lines, i, st);
      i := i + 1;
    }
  }

  /** The body of the loop over the files. */
  method ScanSource(ix: Index, rx: Recognizers, f: Source)
    requires ix.Valid()
    modifies ix
    ensures ix.Valid() && ix.trace == old(ix.trace) + FileAdds(rx, f)
  {
    var lines := StripLines(f.raw);
    ScanFile(ix, rx, f.path, lines);
  }

  /** buildFresh. */
  method BuildFresh(rx: Recognizers, files: seq<Source>) returns (ix: Index)
    ensures fresh(ix) && ix.Valid() && ix.trace == Trace(rx, files)
  {
    hide FileAdds;
    ix := new Index();
    ghost var parts := FileParts(rx, files);
    var k := 0;
    while k < |files|
      invariant 0 <= k <= |files| && fresh(ix) && ix.Valid()
      invariant ix.trace == Flatten(parts[..k])
    {
      FlattenOneMore(parts, k);
      ScanSource(ix, rx, files[k]);
      k := k + 1;
    }
    assert parts[..k] == parts;
  }

  // ---- what the index says about the files ----

  /** Facts about the regular expressions: they match nothing on an empty line, the
      names they capture are words, and the aggregates' kinds are not "func". */
  ghost predicate Wordly(rx: Recognizers) {
    && (forall s, n :: rx.define(s) == Some(n) ==> s != "" && '|' !in n)
    && (forall s, n :: rx.typedefName(s) == Some(n) ==> s != "" && '|' !in n)
    && (forall s, n :: rx.typedefClose(s) == Some(n) ==> s != "" && '|' !in n)
    && (forall s, n :: rx.funcBrace(s) == Some(n) ==> s != "" && '|' !in n)
    && (forall s, n :: rx.funcHeader(s) == Some(n) ==> s != "" && '|' !in n)
    && (forall s, k :: 0 <= k < |rx.aggregates(s)| ==>
          rx.aggregates(s)[k].0 != "func" && '|' !in rx.aggregates(s)[k].1)
    && rx.aggregates("") == []
  }

  /** A definition of `name`, of this kind, is recognised on line i. */
  ghost predicate RecognisedOn(rx: Recognizers, lines: seq<string>, i: nat, name: string, kind: string) {
    i < |lines| && (name, kind) in Finds(rx, lines, i, ScanBefore(rx, lines, i))
  }

  // -- what is recognised, line by line --

  /** A typedef begins on this line and does not end on it. */
  predicate TypedefOpens(line: string) {
    HasPrefix(TrimSpace(line), "typedef") && !HasSuffix(TrimSpace(line), ";")
  }

  /** The line closes a typedef, if one is pending. */
  predicate TypedefCloses(rx: Recognizers, line: string) {
    !HasPrefix(TrimSpace(line), "typedef") && rx.typedefClose(line).Some?
  }

  /** A typedef that began before line i has not been closed since. */
  ghost predicate OpenTypedef(rx: Recognizers, lines: seq<string>, i: nat)
    requires i <= |lines|
  {
    exists j :: 0 <= j < i && TypedefOpens(lines[j]) && forall k :: j < k < i ==> !TypedefCloses(rx, lines[k])
  }

  lemma {:induction false} PendingMeansOpen(rx: Recognizers, lines: seq<string>, i: nat)
    requires i <= |lines|
    ensures ScanBefore(rx, lines, i).pendingTypedef <==> OpenTypedef(rx, lines, i)
  {
    if i > 0 {
      hide OpenTypedef;
      PendingMeansOpen(rx, lines, i - 1);
      OpenOneMore(rx, lines, i);
    }
  }

  lemma {:induction false} OpenOneMore(rx: Recognizers, lines: seq<string>, i: nat)
    requires 0 < i <= |lines|
    ensures OpenTypedef(rx, lines, i)
       <==> TypedefOpens(lines[i - 1]) || (OpenTypedef(rx, lines, i - 1) && !TypedefCloses(rx, lines[i - 1]))
  {
    hide TypedefOpens, TypedefCloses;
    if TypedefOpens(lines[i - 1]) {
      assert OpenTypedef(rx, lines, i);
    } else if OpenTypedef(rx, lines, i - 1) && !TypedefCloses(rx, lines[i - 1]) {
      var j :| 0 <= j < i - 1 && TypedefOpens(lines[j]) && forall k :: j < k < i - 1 ==> !TypedefCloses(rx, lines[k]);
      assert OpenTypedef(rx, lines, i);
    }
  }

  /** A typedef of this name is completed on line i. */
  ghost predicate TypedefOn(rx: Recognizers, lines: seq<string>, i: nat, name: string)
    requires i < |lines|
  {
    var trimmed := TrimSpace(lines[i]);
    if HasPrefix(trimmed, "typedef") then HasSuffix(trimmed, ";") && rx.typedefName(trimmed) == Some(name)
    else rx.typedefClose(lines[i]) == Some(name) && OpenTypedef(rx, lines, i)
  }

  /** A function of this name begins on line i: at file scope, with its brace on the line
      or on the next line that is not blank. */
  predicate FunctionOn(rx: Recognizers, lines: seq<string>, i: nat, name: string)
    requires i < |lines|
  {
    && NetDepth(lines, i) == 0
    && (rx.funcBrace(lines[i]) == Some(name)
        || (rx.funcBrace(lines[i]).None? && rx.funcHeader(lines[i]) == Some(name) && NextStartsBrace(lines, i + 1)))
  }

  /** What the scan recognises on a line, without its running variables. */
  lemma {:induction false} RecognisedExactly(rx: Recognizers, lines: seq<string>, i: nat, name: string, kind: string)
    requires i < |lines|
    ensures RecognisedOn(rx, lines, i, name, kind)
       <==> || (kind == "define" && rx.define(lines[i]) == Some(name))
            || (kind == "typedef" && TypedefOn(rx, lines, i, name))
            || (kind, name) in rx.aggregates(lines[i])
            || (kind == "func" && FunctionOn(rx, lines, i, name))
  {
    hide NetDepth, OpenTypedef, ScanBefore, NextStartsBrace;
    PendingMeansOpen(rx, lines, i);
    DepthIsNet(rx, lines, i);
    AggregatesHas(rx, lines[i], name, kind);
    OneHas(rx.define(lines[i]), "define", name, kind);
    OneHas(FuncAt(rx, lines, i, NetDepth(lines, i)), "func", name, kind);
    TypedefHas(rx, lines[i], ScanBefore(rx, lines, i).pendingTypedef, name, kind);
  }

  lemma {:induction false} OneHas(found: Option<string>, k: string, name: string, kind: string)
    ensures (name, kind) in One(found, k) <==> kind == k && found == Some(name)
  {
  }

  lemma {:induction false} AggregatesHas(rx: Recognizers, s: string, name: string, kind: string)
    ensures (name, kind) in Aggregates(rx, s) <==> (kind, name) in rx.aggregates(s)
  {
    if (kind, name) in rx.aggregates(s) {
      var k :| 0 <= k < |rx.aggregates(s)| && rx.aggregates(s)[k] == (kind, name);
      assert Aggregates(rx, s)[k] == (name, kind);
    }
  }

  lemma {:induction false} TypedefHas(rx: Recognizers, s: string, pending: bool, name: string, kind: string)
    ensures (name, kind) in TypedefStep(rx, s, pending).0
       <==> kind == "typedef"
            && if HasPrefix(TrimSpace(s), "typedef")
               then HasSuffix(TrimSpace(s), ";") && rx.typedefName(TrimSpace(s)) == Some(name)
               else pending && rx.typedefClose(s) == Some(name)
  {
  }

  lemma {:induction false} FindsAreWords(rx: Recognizers, lines: seq<string>, i: nat, st: Scan, k: nat)
    requires Wordly(rx) && i < |lines| && k < |Finds(rx, lines, i, st)|
    ensures '|' !in Finds(rx, lines, i, st)[k].0
  {
    var a, b := One(rx.define(lines[i]), "define"), TypedefStep(rx, lines[i], st.pendingTypedef).0;
    var c, d := Aggregates(rx, lines[i]), One(FuncAt(rx, lines, i, st.depth), "func");
    if k < |a| {
    } else if k < |a| + |b| {
      assert Finds(rx, lines, i, st)[k] == b[k - |a|];
    } else if k < |a| + |b| + |c| {
      assert Finds(rx, lines, i, st)[k] == c[k - |a| - |b|];
    } else {
      assert Finds(rx, lines, i, st)[k] == d[k - |a| - |b| - |c|];
    }
  }

  /** A function is only found at brace depth 0. */
  lemma {:induction false} FuncAtDepthZero(rx: Recognizers, lines: seq<string>, i: nat, st: Scan, name: string)
    requires Wordly(rx) && i < |lines| && (name, "func") in Finds(rx, lines, i, st)
    ensures st.depth == 0 && FuncAt(rx, lines, i, st.depth) == Some(name)
  {
    var a, b := One(rx.define(lines[i]), "define"), TypedefStep(rx, lines[i], st.pendingTypedef).0;
    assert forall k :: 0 <= k < |a| ==> a[k].1 == "define";
    assert forall k :: 0 <= k < |b| ==> b[k].1 == "typedef";
    assert forall k :: 0 <= k < |Aggregates(rx, lines[i])| ==> Aggregates(rx, lines[i])[k].1 != "func";
    assert "define" != "func" && "typedef" != "func" by {
      assert "define"[0] != "func"[0] && "typedef"[0] != "func"[0];
    }
    assert (name, "func") in One(FuncAt(rx, lines, i, st.depth), "func");
  }

  /** e is added for line i. */
  ghost predicate AddedOn(rx: Recognizers, file: string, lines: seq<string>, i: nat, e: Entry) {
    && e.def.file == file && e.def.line == i + 1
    && RecognisedOn(rx, lines, i, e.name, e.def.kind)
    && (Wordly(rx) ==> '|' !in e.name)
  }

  /** Where an added entry comes from. */
  lemma {:induction false} TraceMember(rx: Recognizers, files: seq<Source>, k: nat) returns (f: nat, i: nat)
    requires k < |Trace(rx, files)|
    ensures f < |files| && AddedOn(rx, files[f].path, Scanned(files[f].raw), i, Trace(rx, files)[k])
  {
    hide Scanned, AddedOn;
    var j;
    f, j := FlattenFrom(FileParts(rx, files), k);
    i := PartMember(rx, files[f].path, Scanned(files[f].raw), j);
  }

  lemma {:induction false} PartMember(rx: Recognizers, file: string, lines: seq<string>, k: nat) returns (i: nat)
    requires k < |Flatten(LineParts(rx, file, lines))|
    ensures AddedOn(rx, file, lines, i, Flatten(LineParts(rx, file, lines))[k])
  {
    var n;
    i, n := FlattenFrom(LineParts(rx, file, lines), k);
    FoundOnLine(rx, file, lines, i, n);
  }

  lemma {:induction false} FoundOnLine(rx: Recognizers, file: string, lines: seq<string>, i: nat, n: nat)
    requires i < |lines| && n < |LineParts(rx, file, lines)[i]|
    ensures AddedOn(rx, file, lines, i, LineParts(rx, file, lines)[i][n])
  {
    var st := ScanBefore(rx, lines, i);
    var found := Finds(rx, lines, i, st);
    assert found[n] in found;
    if Wordly(rx) { FindsAreWords(rx, lines, i, st, n); }
  }

  lemma {:induction false} PartHas(rx: Recognizers, file: string, lines: seq<string>, i: nat, name: string,
                                   kind: string)
    returns (j: nat)
    requires RecognisedOn(rx, lines, i, name, kind)
    ensures j < |Flatten(LineParts(rx, file, lines))|
    ensures Flatten(LineParts(rx, file, lines))[j] == Entry(name, Def(file, i + 1, kind))
  {
    var found := Finds(rx, lines, i, ScanBefore(rx, lines, i));
    var n :| 0 <= n < |found| && found[n] == (name, kind);
    j := FlattenTo(LineParts(rx, file, lines), i, n);
  }

  /** Joining, stripping and splitting keep the number of lines; a file without lines is
      scanned as one empty line, on which nothing is recognised. */
  lemma {:induction false} RecognisedLineIsRaw(rx: Recognizers, raw: seq<string>, i: nat, name: string, kind: string)
    requires Wordly(rx) && AllNewlineFree(raw) && RecognisedOn(rx, Scanned(raw), i, name, kind)
    ensures i < |raw|
  {
    LineCountKept(Join(raw));
    if raw != [] {
      SplitJoin(raw);
    } else {
      assert WithoutComments("") == "" && Split("") == [""] && CodeOf("") == "";
      assert Scanned(raw) == [""];
      NothingOnEmptyLine(rx, Scanned(raw), ScanBefore(rx, Scanned(raw), 0));
    }
  }

  lemma {:induction false} NothingOnEmptyLine(rx: Recognizers, lines: seq<string>, st: Scan)
    requires Wordly(rx) && lines == [""] && st == Scan(0, false)
    ensures Finds(rx, lines, 0, st) == []
  {
    assert TrimSpace("") == "";
    assert rx.define("").None? && rx.funcBrace("").None? && rx.funcHeader("").None?;
  }

  /** The index is exact.  Under each name it lists, once per file and line, precisely
      the lines of the raw files on which a definition of that name is recognised, and
      the ones of kind func stand where the stripped text before them has no net open
      brace. */
  lemma {:induction false} IndexIsExact(rx: Recognizers, files: seq<Source>, name: string)
    requires Wordly(rx) && Usable(name)
    requires forall f :: 0 <= f < |files| ==> AllNewlineFree(files[f].raw)
    ensures var listed := Listed(Trace(rx, files), name);
      && (forall i, j :: 0 <= i < j < |listed| ==> listed[i].file != listed[j].file || listed[i].line != listed[j].line)
      && (forall i :: 0 <= i < |listed| ==> Justified(rx, files, name, listed[i]))
      && (forall f, i, kind :: 0 <= f < |files| && 0 <= i && RecognisedOn(rx, Scanned(files[f].raw), i, name, kind) ==>
            exists k :: 0 <= k < |listed| && listed[k].file == files[f].path && listed[k].line == i + 1)
  {
    var trace := Trace(rx, files);
    var listed := Listed(trace, name);
    forall k | 0 <= k < |trace| ensures '|' !in trace[k].name {
      var f, i := TraceMember(rx, files, k);
    }
    forall i, j | 0 <= i < j < |listed| ensures listed[i].file != listed[j].file || listed[i].line != listed[j].line {
      ListedOnce(trace, name, i, j);
    }
    forall i | 0 <= i < |listed| ensures Justified(rx, files, name, listed[i]) {
      var k := ListedWasAdded(trace, name, i);
      var f, at := TraceMember(rx, files, k);
      JustifiedBy(rx, files, name, listed[i], f, at);
    }
    forall f, i, kind | 0 <= f < |files| && 0 <= i && RecognisedOn(rx, Scanned(files[f].raw), i, name, kind)
      ensures exists k :: 0 <= k < |listed| && listed[k].file == files[f].path && listed[k].line == i + 1
    {
      var j := PartHas(rx, files[f].path, Scanned(files[f].raw), i, name, kind);
      var k := FlattenTo(FileParts(rx, files), f, j);
      var at := AddedIsListed(trace, k);
    }
  }

  /** The entry names a line of a raw file on which its definition is recognised. */
  ghost predicate Justified(rx: Recognizers, files: seq<Source>, name: string, d: Def) {
    exists f: nat :: f < |files| && 1 <= d.line <= |files[f].raw| && d.file == files[f].path
      && RecognisedOn(rx, Scanned(files[f].raw), d.line - 1, name, d.kind)
      && (d.kind == "func" ==> NetDepth(Scanned(files[f].raw), d.line - 1) == 0)
  }

  lemma {:induction false} JustifiedBy(rx: Recognizers, files: seq<Source>, name: string, d: Def, f: nat, i: nat)
    requires Wordly(rx) && f < |files| && AllNewlineFree(files[f].raw)
    requires d.file == files[f].path && d.line == i + 1
    requires RecognisedOn(rx, Scanned(files[f].raw), i, name, d.kind)
    ensures Justified(rx, files, name, d)
  {
    var lines := Scanned(files[f].raw);
    RecognisedLineIsRaw(rx, files[f].raw, i, name, d.kind);
    if d.kind == "func" {
      FuncAtDepthZero(rx, lines, i, ScanBefore(rx, lines, i), name);
      DepthIsNet(rx, lines, i);
    }
  }
}
