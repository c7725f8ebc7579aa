/** What of the files' text the definition index of internal/cindex/cindex.go looks at. */
module IndexedCode {
  import opened Text
  import opened Strip
  import opened Comments
  import opened DefIndex
  import opened Rearrangement
  import Staleness

  // ---- the lines that are scanned, from the raw text ----

  /** The raw lines are those of a text cut in this way. */
  ghost predicate Reads(raw: seq<string>, ts: seq<Token>) {
    Cut(ts) && Join(raw) == TextOf(ts)
  }

  /** Line k of the scan is the code of that line of the text without its comments. */
  lemma {:induction false} ScannedIsCode(raw: seq<string>, ts: seq<Token>, k: nat, ps: seq<Piece>)
    requires Reads(raw, ts) && k < |Split(CodeLeft(ts))|
    requires LineCut(ps) && Split(CodeLeft(ts))[k] == LineOf(ps)
    ensures k < |Scanned(raw)| && Scanned(raw)[k] == CodeKept(ps)
  {
    LeavesTheCode(ts);
    KeepsTheCode(ps);
  }

  // -- line breaks --

  lemma {:induction false} SplitAround(a: string, b: string)
    ensures Split(a + "\n" + b) == Split(a) + Split(b)
  {
    if a == "" {
      assert a + "\n" + b == "\n" + b && ("\n" + b)[1..] == b;
    } else {
      var s := a + "\n" + b;
      assert s[0] == a[0] && s[1..] == a[1..] + "\n" + b;
      SplitAround(a[1..], b);
      var rest := Split(a[1..]);
      if a[0] != '\n' {
        assert (rest + Split(b))[0] == rest[0] && (rest + Split(b))[1..] == rest[1..] + Split(b);
        Associative([[a[0]] + rest[0]], rest[1..], Split(b));
      } else {
        Associative([""], rest, Split(b));
      }
    }
  }

  function Empties(n: nat): (r: seq<string>)
    ensures |r| == n && forall k :: 0 <= k < n ==> r[k] == ""
  {
    seq(n, _ => "")
  }

  lemma {:induction false} SplitBreaks(a: string, n: nat, b: string)
    requires n > 0
    ensures Split(a + Breaks(n) + b) == Split(a) + Empties(n - 1) + Split(b)
    decreases n
  {
    if n == 1 {
      assert Breaks(1) == "\n" + "" == "\n";
      SplitAround(a, b);
      assert Split(a) + Empties(0) == Split(a);
    } else {
      var rest := Breaks(n - 1);
      assert a + Breaks(n) + b == a + "\n" + ("" + rest + b);
      SplitAround(a, "" + rest + b);
      SplitBreaks("", n - 1, b);
      assert Split("") == [""] && Empties(n - 1) == [""] + Empties(n - 2);
      assert Split(a) + ([""] + Empties(n - 2) + Split(b)) == Split(a) + ([""] + Empties(n - 2)) + Split(b);
    }
  }

  lemma {:induction false} BreaksCount(n: nat)
    ensures Newlines(Breaks(n)) == n
  {
    if n > 0 {
      BreaksCount(n - 1);
      assert Breaks(n)[1..] == Breaks(n - 1);
    }
  }

  lemma {:induction false} TextConcat(a: seq<Token>, b: seq<Token>)
    ensures TextOf(a + b) == TextOf(a) + TextOf(b) && CodeLeft(a + b) == CodeLeft(a) + CodeLeft(b)
  {
    if a == [] {
      assert a + b == b;
    } else {
      var s := a + b;
      assert s[0] == a[0] && s[1..] == a[1..] + b;
      TextConcat(a[1..], b);
      FirstToken(a);
      FirstToken(s);
      Associative(TextOf([a[0]]), TextOf(a[1..]), TextOf(b));
      Associative(CodeLeft([a[0]]), CodeLeft(a[1..]), CodeLeft(b));
    }
  }

  lemma FirstToken(ts: seq<Token>)
    requires ts != []
    ensures TextOf(ts) == TextOf([ts[0]]) + TextOf(ts[1..]) && CodeLeft(ts) == CodeLeft([ts[0]]) + CodeLeft(ts[1..])
  {
    assert [ts[0]][1..] == [];
  }

  /** Stripping keeps every line break. */
  lemma {:induction false} BreaksKept(ts: seq<Token>)
    requires forall k :: 0 <= k < |ts| && ts[k].Remark? ==> NewlineFree(ts[k].inner)
    ensures Newlines(TextOf(ts)) == Newlines(CodeLeft(ts))
  {
    if ts != [] {
      BreaksKept(ts[1..]);
      FirstToken(ts);
      NewlinesConcat(TextOf([ts[0]]), TextOf(ts[1..]));
      NewlinesConcat(CodeLeft([ts[0]]), CodeLeft(ts[1..]));
      OneTokenKept(ts[0]);
    }
  }

  lemma OneTokenKept(t: Token)
    requires t.Remark? ==> NewlineFree(t.inner)
    ensures Newlines(TextOf([t])) == Newlines(CodeLeft([t]))
  {
    assert [t][1..] == [] && TextOf([]) == "" && CodeLeft([]) == "";
    match t
    case Byte(c) => assert TextOf([t]) == [c] + "" == [c] && CodeLeft([t]) == [c] + "" == [c];
    case Remark(inner) =>
      assert TextOf([t]) == "//" + inner && CodeLeft([t]) == "";
      assert NewlineFree("//" + inner);
      NewlinesZero("//" + inner);
    case Block(inner) =>
      assert TextOf([t]) == "/*" + inner + "*/" && CodeLeft([t]) == Breaks(Newlines(inner));
      BreaksCount(Newlines(inner));
      NewlinesConcat("/*" + inner, "*/");
      NewlinesConcat("/*", inner);
      NewlinesZero("/*");
      NewlinesZero("*/");
    case Open(inner) =>
      assert TextOf([t]) == "/*" + inner && CodeLeft([t]) == Breaks(Newlines(inner));
      BreaksCount(Newlines(inner));
      NewlinesConcat("/*", inner);
      NewlinesZero("/*");
  }

  lemma {:induction false} RemarksAreLines(ts: seq<Token>)
    requires Cut(ts)
    ensures forall k :: 0 <= k < |ts| && ts[k].Remark? ==> NewlineFree(ts[k].inner)
  {
    if ts != [] {
      RemarksAreLines(ts[1..]);
      forall k | 0 <= k < |ts| && ts[k].Remark? ensures NewlineFree(ts[k].inner) {
        assert k > 0 ==> ts[1..][k - 1] == ts[k];
      }
    }
  }

  // ---- inside a comment ----

  /** The text of the file has a block comment, closed or not, behind `before`. */
  ghost predicate HasComment(raw: seq<string>, before: seq<Token>, inner: string, after: seq<Token>) {
    Reads(raw, before + [Block(inner)] + after) || (after == [] && Reads(raw, before + [Open(inner)]))
  }

  lemma {:induction false} CommentedText(raw: seq<string>, before: seq<Token>, inner: string, after: seq<Token>)
    requires AllNewlineFree(raw) && HasComment(raw, before, inner, after) && Newlines(inner) > 0
    ensures Split(WithoutComments(Join(raw)))
         == Split(CodeLeft(before)) + Empties(Newlines(inner) - 1) + Split(CodeLeft(after))
    ensures Newlines(CodeLeft(before)) == Newlines(TextOf(before))
  {
    hide Cut, TextOf, CodeLeft;
    var t := if Reads(raw, before + [Block(inner)] + after) then Block(inner) else Open(inner);
    var ts := before + [t] + after;
    assert after == [] ==> before + [t] + after == before + [t];
    LeavesTheCode(ts);
    TextConcat(before + [t], after);
    TextConcat(before, [t]);
    assert CodeLeft([t]) == Breaks(Newlines(inner)) by { CommentLeft(t); }
    SplitBreaks(CodeLeft(before), Newlines(inner), CodeLeft(after));
    RemarksAreLines(ts);
    forall k | 0 <= k < |before| && before[k].Remark? ensures NewlineFree(before[k].inner) {
      assert ts[k] == before[k];
    }
    BreaksKept(before);
  }

  lemma CommentLeft(t: Token)
    requires t.Block? || t.Open?
    ensures CodeLeft([t]) == Breaks(Newlines(t.inner))
  {
    assert [t][1..] == [] && CodeLeft([]) == "";
  }

  /** A line that lies wholly inside a block comment is scanned as an empty line, and nothing
      is recognised on it. */
  lemma {:induction false} NothingInComment(rx: Recognizers, raw: seq<string>, before: seq<Token>, inner: string,
                                            after: seq<Token>, k: nat, name: string, kind: string)
    requires AllNewlineFree(raw) && HasComment(raw, before, inner, after) && Wordly(rx)
    requires Newlines(TextOf(before)) < k < Newlines(TextOf(before)) + Newlines(inner)
    ensures k < |Scanned(raw)| && Scanned(raw)[k] == ""
    ensures !RecognisedOn(rx, Scanned(raw), k, name, kind)
  {
    hide Cut, TextOf, CodeLeft, WithoutComments;
    CommentedText(raw, before, inner, after);
    SplitCount(CodeLeft(before));
    var lines := Split(WithoutComments(Join(raw)));
    assert lines[k] == "";
    assert CodeOf("") == "";
    NothingOnEmpty(rx, Scanned(raw), k, name, kind);
  }

  lemma {:induction false} NothingOnEmpty(rx: Recognizers, lines: seq<string>, k: nat, name: string, kind: string)
    requires Wordly(rx) && k < |lines| && lines[k] == ""
    ensures !RecognisedOn(rx, lines, k, name, kind)
  {
    RecognisedExactly(rx, lines, k, name, kind);
    assert TrimSpace("") == "" && rx.aggregates("") == [];
    assert rx.define("").None? && rx.funcBrace("").None? && rx.funcHeader("").None? && rx.typedefClose("").None?;
    assert !HasPrefix("", "typedef");
  }

  /** So no definition is listed there. */
  lemma {:induction false} NothingListedInComment(rx: Recognizers, files: seq<Source>, f: nat, before: seq<Token>,
                                                  inner: string, after: seq<Token>, name: string, d: Def)
    requires Wordly(rx) && Usable(name) && f < |files| && NoDuplicates(Staleness.Paths(files))
    requires forall g :: 0 <= g < |files| ==> AllNewlineFree(files[g].raw)
    requires HasComment(files[f].raw, before, inner, after)
    requires d.file == files[f].path
    requires Newlines(TextOf(before)) + 1 < d.line < Newlines(TextOf(before)) + 1 + Newlines(inner)
    ensures d !in Listed(Trace(rx, files), name)
  {
    hide *;
    if d in Listed(Trace(rx, files), name) {
      NothingInComment(rx, files[f].raw, before, inner, after, d.line - 1, name, d.kind);
      ListedIsJustified(rx, files, name, d);
      NotJustified(rx, files, f, name, d);
    }
  }

  lemma {:induction false} ListedIsJustified(rx: Recognizers, files: seq<Source>, name: string, d: Def)
    requires Wordly(rx) && Usable(name)
    requires forall g :: 0 <= g < |files| ==> AllNewlineFree(files[g].raw)
    requires d in Listed(Trace(rx, files), name)
    ensures Justified(rx, files, name, d)
  {
    hide *;
    IndexIsExact(rx, files, name);
  }

  lemma {:induction false} NotJustified(rx: Recognizers, files: seq<Source>, f: nat, name: string, d: Def)
    requires f < |files| && NoDuplicates(Staleness.Paths(files)) && d.file == files[f].path && d.line > 0
    requires !RecognisedOn(rx, Scanned(files[f].raw), d.line - 1, name, d.kind)
    ensures !Justified(rx, files, name, d)
  {
    hide RecognisedOn, Scanned;
    forall g: nat | g < |files| && files[g].path == d.file ensures g == f {
      assert Staleness.Paths(files)[g] == Staleness.Paths(files)[f];
    }
  }

  // ---- changes that do not show ----

  /** The same code, with other comments that have as many lines. */
  predicate SameCode(ts: seq<Token>, us: seq<Token>) {
    |ts| == |us| && forall k :: 0 <= k < |ts| ==> SameToken(ts[k], us[k])
  }

  predicate SameToken(t: Token, u: Token) {
    match t
    case Byte(c) => u == t
    case Block(inner) => u.Block? && Newlines(inner) == Newlines(u.inner)
    case Remark(_) => u.Remark?
    case Open(inner) => u.Open? && Newlines(inner) == Newlines(u.inner)
  }

  /** The same code, with other text in the literals and comments of the line. */
  predicate SamePieces(ps: seq<Piece>, qs: seq<Piece>) {
    |ps| == |qs| && forall k :: 0 <= k < |ps| ==> SamePiece(ps[k], qs[k])
  }

  predicate SamePiece(p: Piece, q: Piece) {
    match p
    case Char(_) => q == p
    case Literal(quote, _) => q.Literal? && q.quote == quote
    case LeftOpen(quote, _) => q.LeftOpen? && q.quote == quote
    case Span(_) => q.Span?
    case Rest(_, _) => q.Rest?
  }

  lemma {:induction false} SameCodeLeft(ts: seq<Token>, us: seq<Token>)
    requires SameCode(ts, us)
    ensures CodeLeft(ts) == CodeLeft(us)
  {
    if ts != [] {
      assert SameToken(ts[0], us[0]);
      assert forall k :: 0 <= k < |ts[1..]| ==> ts[1..][k] == ts[k + 1] && us[1..][k] == us[k + 1];
      SameCodeLeft(ts[1..], us[1..]);
    }
  }

  lemma {:induction false} SameCodeKept(ps: seq<Piece>, qs: seq<Piece>)
    requires SamePieces(ps, qs)
    ensures CodeKept(ps) == CodeKept(qs)
  {
    if ps != [] {
      assert SamePiece(ps[0], qs[0]);
      assert forall k :: 0 <= k < |ps[1..]| ==> ps[1..][k] == ps[k + 1] && qs[1..][k] == qs[k + 1];
      SameCodeKept(ps[1..], qs[1..]);
    }
  }

  /** The two lines differ in the insides of their literals and comments at most. */
  ghost predicate SameLine(a: string, b: string) {
    exists ps, qs :: LineCut(ps) && LineCut(qs) && SamePieces(ps, qs) && LineOf(ps) == a && LineOf(qs) == b
  }

  /** The texts differ in their comments, keeping the number of lines of each, and, the
      comments left out, in the insides of literals. */
  ghost predicate SameButComments(a: seq<string>, b: seq<string>, ts: seq<Token>, us: seq<Token>) {
    Reads(a, ts) && Reads(b, us) &&
    (SameCode(ts, us) ||
     var (x, y) := (Split(CodeLeft(ts)), Split(CodeLeft(us)));
     |x| == |y| && forall k :: 0 <= k < |x| ==> x[k] == y[k] || SameLine(x[k], y[k]))
  }

  lemma {:induction false} SameScanned(a: seq<string>, b: seq<string>, ts: seq<Token>, us: seq<Token>)
    requires SameButComments(a, b, ts, us)
    ensures Scanned(a) == Scanned(b)
  {
    hide Cut, TextOf, CodeLeft, SameLine, CodeOf, WithoutComments;
    LeavesTheCode(ts);
    LeavesTheCode(us);
    if SameCode(ts, us) {
      SameCodeLeft(ts, us);
    } else {
      var x, y := Split(CodeLeft(ts)), Split(CodeLeft(us));
      forall k | 0 <= k < |x| ensures CodeOf(x[k]) == CodeOf(y[k]) {
        if x[k] != y[k] {
          SameLineSameCode(x[k], y[k]);
        }
      }
    }
  }

  lemma {:induction false} SameLineSameCode(a: string, b: string)
    requires SameLine(a, b)
    ensures CodeOf(a) == CodeOf(b)
  {
    hide LineCut, LineOf, CodeOf, SamePieces;
    var ps, qs :| LineCut(ps) && LineCut(qs) && SamePieces(ps, qs) && LineOf(ps) == a && LineOf(qs) == b;
    KeepsTheCode(ps);
    KeepsTheCode(qs);
    SameCodeKept(ps, qs);
  }

  /** Files that differ only so have the same index: a change of comments and of the insides
      of literals leaves every answer as it was. */
  lemma {:induction false} FreshWhereCommentsDiffer(rx: Recognizers, before: seq<Source>, after: seq<Source>,
                                                    cuts: seq<(seq<Token>, seq<Token>)>)
    requires Staleness.Paths(before) == Staleness.Paths(after) && |cuts| == |before|
    requires forall f :: 0 <= f < |before| ==>
               SameButComments(before[f].raw, after[f].raw, cuts[f].0, cuts[f].1)
    ensures Trace(rx, before) == Trace(rx, after)
  {
    hide SameButComments, Scanned;
    assert |after| == |Staleness.Paths(after)|;
    forall f | 0 <= f < |before| ensures Scanned(before[f].raw) == Scanned(after[f].raw) {
      SameScanned(before[f].raw, after[f].raw, cuts[f].0, cuts[f].1);
    }
    Staleness.FreshWhereCodeIsKept(rx, before, after);
  }

  // -- a line in a comment --

  /** A line between the two ends of a comment, whatever code it holds, such as the head of
      a function, is scanned as an empty line, and nothing is recognised on it. */
  lemma {:induction false} CommentedLine(rx: Recognizers, line: string, name: string, kind: string)
    requires Wordly(rx) && NewlineFree(line) && '*' !in line
    ensures Scanned(["/*", line, "*/"]) == ["", "", ""]
    ensures !RecognisedOn(rx, Scanned(["/*", line, "*/"]), 1, name, kind)
  {
    var raw, inner := ["/*", line, "*/"], "\n" + line + "\n";
    CommentOfThree(line);
    hide *;
    LeavesTheCode([Block(inner)]);
    CommentLeft(Block(inner));
    ThreeEmpty();
    assert Scanned(raw) == CodeLines(Split(WithoutComments(Join(raw)))) by { ScannedIs(raw); }
    NothingOnEmpty(rx, Scanned(raw), 1, name, kind);
  }

  lemma ScannedIs(raw: seq<string>)
    ensures Scanned(raw) == CodeLines(Split(WithoutComments(Join(raw))))
  {
  }

  lemma ThreeEmpty()
    ensures CodeLines(Split(Breaks(2))) == ["", "", ""]
  {
    SplitBreaks("", 2, "");
    assert "" + Breaks(2) + "" == Breaks(2) && Split("") == [""] && CodeOf("") == "";
  }

  lemma CommentOfThree(line: string)
    requires NewlineFree(line) && '*' !in line
    ensures Reads(["/*", line, "*/"], [Block("\n" + line + "\n")]) && Newlines("\n" + line + "\n") == 2
  {
    hide Newlines;
    var inner := "\n" + line + "\n";
    OneBlock(inner);
    JoinOfThree(line);
    NewlinesConcat("\n" + line, "\n");
    NewlinesConcat("\n", line);
    NewlinesZero(line);
    assert Newlines("\n") == 1 by { OneBreak(); }
  }

  lemma OneBreak()
    ensures Newlines("\n") == 1
  {
  }

  lemma OneBlock(inner: string)
    requires '*' !in inner
    ensures Cut([Block(inner)]) && TextOf([Block(inner)]) == "/*" + inner + "*/"
  {
    assert [Block(inner)][1..] == [];
    assert "/*" + inner + "*/" + "" == "/*" + inner + "*/";
  }

  lemma JoinOfThree(line: string)
    ensures Join(["/*", line, "*/"]) == "/*" + ("\n" + line + "\n") + "*/"
  {
    ThreeJoined("/*", line, "*/");
    assert "/*" + "\n" + line + "\n" + "*/" == "/*" + ("\n" + line + "\n") + "*/";
  }
}
