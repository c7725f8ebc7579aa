/** What the strippers of internal/csrc/csrc.go do, said of the text itself. */
module Comments {
  // A text is cut into the bytes of its code and its comments (and, on a line, its
  // literals), as a reader of C would cut it.  The strippers leave the code, the newlines
  // of block comments and the quotes of literals, and nothing else.

  import opened Text
  import opened Strip
  import opened Rearrangement

  // ---- whole texts ----

  /** A byte of code, a block comment, a line comment up to its line's end, a block comment
      that is never closed. */
  datatype Token = Byte(c: char) | Block(inner: string) | Remark(inner: string) | Open(inner: string)

  function Shown(t: Token): string {
    match t
    case Byte(c) => [c]
    case Block(inner) => "/*" + inner + "*/"
    case Remark(inner) => "//" + inner
    case Open(inner) => "/*" + inner
  }

  function TextOf(ts: seq<Token>): string {
    if ts == [] then "" else Shown(ts[0]) + TextOf(ts[1..])
  }

  /** Nothing in the text closes a block comment. */
  predicate NoCloser(s: string) {
    forall k :: 0 <= k < |s| - 1 ==> s[k] != '*' || s[k + 1] != '/'
  }

  predicate StartsWith(s: string, c: char) {
    s != "" && s[0] == c
  }

  /** A slash of the code begins no comment, a block comment ends at the first place it can, a
      line comment at the end of its line. */
  predicate Fits(t: Token, rest: string) {
    match t
    case Byte(c) => c == '/' ==> !StartsWith(rest, '/') && !StartsWith(rest, '*')
    case Block(inner) => NoCloser(inner)
    case Remark(inner) => NewlineFree(inner) && (rest == "" || rest[0] == '\n')
    case Open(inner) => NoCloser(inner) && rest == ""
  }

  /** The text is cut where C cuts it. */
  predicate Cut(ts: seq<Token>) {
    ts == [] || (Fits(ts[0], TextOf(ts[1..])) && Cut(ts[1..]))
  }

  /** n line breaks. */
  function Breaks(n: nat): string {
    if n == 0 then "" else "\n" + Breaks(n - 1)
  }

  /** The code, with a line break for every one in a block comment. */
  function CodeLeft(ts: seq<Token>): string {
    if ts == [] then "" else Remains(ts[0]) + CodeLeft(ts[1..])
  }

  function Remains(t: Token): string {
    match t
    case Byte(c) => [c]
    case Block(inner) => Breaks(Newlines(inner))
    case Remark(inner) => ""
    case Open(inner) => Breaks(Newlines(inner))
  }

  /** What the lexer leaves of a text that begins in the given mode. */
  function Left(s: string, mode: Mode): string {
    Survives(s, 0, mode)
  }

  lemma LeftFrom(s: string, i: nat, mode: Mode)
    requires i <= |s|
    ensures Survives(s, i, mode) == Left(s[i..], mode)
  {
    var t := s[i..];
    assert SameFrom(t, s, 0, i);
    SurvivesShifted(t, s, 0, i, mode);
  }

  /** One step. */
  lemma LeftStep(s: string, mode: Mode)
    requires s != ""
    ensures var (n, next, takes) := Step(s, 0, mode);
            0 < n <= |s| && Left(s, mode) == (if takes then [s[0]] else "") + Left(s[n..], next)
  {
    hide Step, Survives;
    SurvivesSteps(s, 0, mode);
    var (n, next, takes) := Step(s, 0, mode);
    LeftFrom(s, n, next);
  }

  lemma LeftNothing(mode: Mode)
    ensures Left("", mode) == ""
  {
  }

  lemma NewlinesFirst(s: string)
    requires s != ""
    ensures Newlines(s) == (if s[0] == '\n' then 1 else 0) + Newlines(s[1..])
  {
  }

  lemma NoCloserBehind(s: string)
    requires s != "" && NoCloser(s)
    ensures NoCloser(s[1..])
  {
    var t := s[1..];
    forall k | 0 <= k < |t| - 1 ensures t[k] != '*' || t[k + 1] != '/' {
      assert s[k + 1] != '*' || s[k + 1 + 1] != '/';
    }
  }

  /** A block comment to its close, or to the end of the text. */
  lemma {:induction false} BlockLeaves(inner: string, rest: string)
    requires NoCloser(inner)
    ensures Left(inner + ("*/" + rest), InBlock) == Breaks(Newlines(inner)) + Left(rest, Code)
    ensures Left(inner, InBlock) == Breaks(Newlines(inner))
  {
    var s := inner + ("*/" + rest);
    hide Survives;
    if inner == "" {
      assert s == "*/" + rest && s[2..] == rest;
      LeftStep(s, InBlock);
      LeftNothing(InBlock);
    } else {
      var more := inner[1..];
      NoCloserBehind(inner);
      assert s[1..] == more + ("*/" + rest) && s[0] == inner[0];
      assert s[1] == if |inner| > 1 then inner[1] else '*';
      assert |inner| > 1 ==> inner[0] != '*' || inner[0 + 1] != '/';
      LeftStep(s, InBlock);
      LeftStep(inner, InBlock);
      NewlinesFirst(inner);
      BlockLeaves(more, rest);
      Associative(if inner[0] == '\n' then "\n" else "", Breaks(Newlines(more)), Left(rest, Code));
    }
  }

  /** A line comment to the end of its line. */
  lemma {:induction false} RemarkLeaves(inner: string, rest: string)
    requires NewlineFree(inner) && (rest == "" || rest[0] == '\n')
    ensures Left(inner + rest, InLine) == Left(rest, Code)
  {
    var s := inner + rest;
    hide Survives;
    if inner == "" {
      assert s == rest;
      if rest == "" {
        LeftNothing(InLine);
        LeftNothing(Code);
      } else {
        LeftStep(rest, InLine);
        LeftStep(rest, Code);
      }
    } else {
      assert s[0] == inner[0] && s[0] in inner && s[1..] == inner[1..] + rest;
      LeftStep(s, InLine);
      RemarkLeaves(inner[1..], rest);
    }
  }

  lemma OpenerLeaves(s: string, rest: string, mode: Mode)
    requires (s == "/*" && mode == InBlock) || (s == "//" && mode == InLine)
    ensures Left(s + rest, Code) == Left(rest, mode)
  {
    hide Survives;
    var t := s + rest;
    assert t[0] == '/' && t[1] == s[1] && t[2..] == rest;
    LeftStep(t, Code);
  }

  lemma ByteLeaves(c: char, rest: string)
    requires c == '/' ==> !StartsWith(rest, '/') && !StartsWith(rest, '*')
    ensures Left([c] + rest, Code) == [c] + Left(rest, Code)
  {
    hide Survives;
    var t := [c] + rest;
    assert t[0] == c && t[1..] == rest && (rest != "" ==> t[1] == rest[0]);
    LeftStep(t, Code);
  }

  /** Stripping comments leaves exactly the code and the line breaks of block comments. */
  lemma {:induction false} LeavesTheCode(ts: seq<Token>)
    requires Cut(ts)
    ensures WithoutComments(TextOf(ts)) == CodeLeft(ts)
  {
    WholeIsLeft(TextOf(ts));
    hide WithoutComments, Left, Fits, Shown, Remains;
    if ts == [] {
      LeftNothing(Code);
    } else {
      LeavesTheCode(ts[1..]);
      WholeIsLeft(TextOf(ts[1..]));
      TokenLeaves(ts[0], TextOf(ts[1..]));
    }
  }

  lemma TokenLeaves(t: Token, rest: string)
    requires Fits(t, rest)
    ensures Left(Shown(t) + rest, Code) == Remains(t) + Left(rest, Code)
  {
    hide Left, NoCloser, Newlines, Breaks, StartsWith;
    match t
    case Byte(c) => ByteLeaves(c, rest);
    case Block(inner) =>
      OpenerLeaves("/*", inner + ("*/" + rest), InBlock);
      BlockLeaves(inner, rest);
      assert "/*" + inner + "*/" + rest == "/*" + (inner + ("*/" + rest));
    case Remark(inner) =>
      OpenerLeaves("//", inner + rest, InLine);
      RemarkLeaves(inner, rest);
      Associative("//", inner, rest);
    case Open(inner) =>
      OpenerLeaves("/*", inner, InBlock);
      BlockLeaves(inner, "");
      LeftNothing(Code);
      assert "/*" + inner + rest == "/*" + inner && Breaks(Newlines(inner)) + "" == Breaks(Newlines(inner));
  }

  lemma WholeIsLeft(s: string)
    ensures WithoutComments(s) == Left(s, Code)
  {
  }

  /** Every text can be cut so, and so the law above is about every text. */
  lemma {:induction false} EveryTextIsCut(s: string) returns (ts: seq<Token>)
    ensures Cut(ts) && TextOf(ts) == s
    decreases |s|
  {
    hide Fits, Shown;
    if s == "" {
      return [];
    }
    var first, n := FirstToken(s);
    var others := EveryTextIsCut(s[n..]);
    ts := [first] + others;
    assert ts[0] == first && ts[1..] == others && s == s[..n] + s[n..];
  }

  /** The token at the start of a text, and where it ends. */
  lemma {:induction false} FirstToken(s: string) returns (t: Token, n: nat)
    requires s != ""
    ensures 0 < n <= |s| && Fits(t, s[n..]) && Shown(t) == s[..n]
  {
    hide NoCloser;
    if |s| >= 2 && s[0] == '/' && s[1] == '*' {
      var inner, closed := CommentInner(s);
      t, n := if closed then Block(inner) else Open(inner), |inner| + if closed then 4 else 2;
      assert s[n..] == "" || closed;
    } else if |s| >= 2 && s[0] == '/' && s[1] == '/' {
      t, n := RemarkToken(s);
    } else {
      t, n := Byte(s[0]), 1;
    }
  }

  lemma {:induction false} RemarkToken(s: string) returns (t: Token, n: nat)
    requires |s| >= 2 && s[0] == '/' && s[1] == '/'
    ensures 0 < n <= |s| && Fits(t, s[n..]) && Shown(t) == s[..n]
  {
    var line := s[2..];
    var m := FirstIndex(line, '\n');
    LineEnd(line);
    t, n := Remark(line[..m]), m + 2;
    assert s[n..] == line[m..] && s[..n] == "//" + line[..m];
  }

  lemma {:induction false} LineEnd(s: string)
    ensures FirstIndex(s, '\n') <= |s| && NewlineFree(s[..FirstIndex(s, '\n')])
    ensures FirstIndex(s, '\n') < |s| ==> s[FirstIndex(s, '\n')] == '\n'
  {
    if s != "" && s[0] != '\n' {
      LineEnd(s[1..]);
      var n := FirstIndex(s[1..], '\n');
      assert s[..n + 1] == [s[0]] + s[1..][..n];
    }
  }

  // -- one comment behind code --

  function Bytes(a: string): (ts: seq<Token>)
    ensures |ts| == |a| && forall k :: 0 <= k < |a| ==> ts[k] == Byte(a[k])
  {
    seq(|a|, k requires 0 <= k < |a| => Byte(a[k]))
  }

  /** The text begins no comment, and does not end on a slash. */
  predicate Plain(a: string) {
    && (forall k :: 0 <= k < |a| - 1 ==> a[k] == '/' ==> a[k + 1] != '/' && a[k + 1] != '*')
    && (a != "" ==> a[|a| - 1] != '/')
  }

  lemma PlainBehind(a: string)
    requires a != "" && Plain(a)
    ensures Plain(a[1..]) && (a[0] == '/' ==> |a| > 1 && a[1] != '/' && a[1] != '*')
  {
    var t := a[1..];
    forall k | 0 <= k < |t| - 1 && t[k] == '/' ensures t[k + 1] != '/' && t[k + 1] != '*' {
      assert a[k + 1] == '/' && a[k + 1 + 1] == t[k + 1];
    }
  }

  lemma {:induction false} PlainThen(a: string, rest: string)
    requires Plain(a)
    ensures Left(a + rest, Code) == a + Left(rest, Code)
  {
    hide Survives;
    if a == "" {
      assert a + rest == rest && a + Left(rest, Code) == Left(rest, Code);
    } else {
      var t := a[1..] + rest;
      PlainBehind(a);
      assert a + rest == [a[0]] + t && (|a| > 1 ==> t[0] == a[1]);
      ByteLeaves(a[0], t);
      PlainThen(a[1..], rest);
      assert [a[0]] + (a[1..] + Left(rest, Code)) == a + Left(rest, Code);
    }
  }

  /** A block comment behind code goes, but for its line breaks; what follows is stripped
      on its own. */
  lemma {:induction false} BlockCommentGoes(a: string, c: string, b: string)
    requires Plain(a) && NoCloser(c)
    ensures WithoutComments(a + "/*" + c + "*/" + b) == a + Breaks(Newlines(c)) + WithoutComments(b)
    ensures WithoutComments(a + "/*" + c) == a + Breaks(Newlines(c))
  {
    hide Survives, Plain, NoCloser, Newlines, Breaks;
    var behind := c + ("*/" + b);
    assert a + "/*" + c + "*/" + b == a + ("/*" + behind) && a + "/*" + c == a + ("/*" + c);
    PlainThen(a, "/*" + behind);
    OpenerLeaves("/*", behind, InBlock);
    BlockLeaves(c, b);
    PlainThen(a, "/*" + c);
    OpenerLeaves("/*", c, InBlock);
    WholeIsLeft(a + ("/*" + behind));
    WholeIsLeft(a + ("/*" + c));
    WholeIsLeft(b);
    Associative(a, Breaks(Newlines(c)), Left(b, Code));
  }

  /** A line comment behind code goes up to the end of its line. */
  lemma {:induction false} LineCommentGoes(a: string, c: string, b: string)
    requires Plain(a) && NewlineFree(c)
    ensures WithoutComments(a + "//" + c + "\n" + b) == a + "\n" + WithoutComments(b)
    ensures WithoutComments(a + "//" + c) == a
  {
    hide Survives, Plain;
    var line := "\n" + b;
    assert a + "//" + c + "\n" + b == a + ("//" + (c + line)) && a + "//" + c == a + ("//" + (c + ""));
    PlainThen(a, "//" + (c + line));
    OpenerLeaves("//", c + line, InLine);
    RemarkLeaves(c, line);
    ByteLeaves('\n', b);
    PlainThen(a, "//" + (c + ""));
    OpenerLeaves("//", c + "", InLine);
    RemarkLeaves(c, "");
    LeftNothing(Code);
    WholeIsLeft(a + ("//" + (c + line)));
    WholeIsLeft(a + ("//" + (c + "")));
    WholeIsLeft(b);
    assert a + ("\n" + Left(b, Code)) == a + "\n" + Left(b, Code) && a + "" == a;
  }

  // ---- single lines ----

  /** A byte of code, a literal, a literal left open at the end of the line, a block comment
      within the line, a comment up to its end. */
  datatype Piece =
    | Char(c: char)
    | Literal(quote: char, body: string)
    | LeftOpen(quote: char, body: string)
    | Span(inner: string)
    | Rest(opener: string, inner: string)

  function PieceShown(p: Piece): string {
    match p
    case Char(c) => [c]
    case Literal(quote, body) => [quote] + body + [quote]
    case LeftOpen(quote, body) => [quote] + body
    case Span(inner) => "/*" + inner + "*/"
    case Rest(opener, inner) => opener + inner
  }

  function LineOf(ps: seq<Piece>): string {
    if ps == [] then "" else PieceShown(ps[0]) + LineOf(ps[1..])
  }

  /** The inside of a literal: every quote of its kind is escaped, and no escape is left
      incomplete. */
  predicate Inside(body: string, quote: char) {
    body == "" ||
    if body[0] == '\\' then |body| >= 2 && Inside(body[2..], quote)
    else body[0] != quote && Inside(body[1..], quote)
  }

  /** The same for a literal left open, whose last escape may lack its byte. */
  predicate InsideLeft(body: string, quote: char) {
    body == "" ||
    if body[0] == '\\' then |body| == 1 || InsideLeft(body[2..], quote)
    else body[0] != quote && InsideLeft(body[1..], quote)
  }

  predicate PieceFits(p: Piece, rest: string) {
    match p
    case Char(c) => c != '"' && c != '\'' && (c == '/' ==> !StartsWith(rest, '/') && !StartsWith(rest, '*'))
    case Literal(quote, body) => (quote == '"' || quote == '\'') && Inside(body, quote)
    case LeftOpen(quote, body) => (quote == '"' || quote == '\'') && InsideLeft(body, quote) && rest == ""
    case Span(inner) => NoCloser(inner)
    case Rest(opener, inner) => (opener == "//" || (opener == "/*" && NoCloser(inner))) && rest == ""
  }

  /** The line is cut where C cuts it. */
  predicate LineCut(ps: seq<Piece>) {
    ps == [] || (PieceFits(ps[0], LineOf(ps[1..])) && LineCut(ps[1..]))
  }

  /** The code and the quotes. */
  function CodeKept(ps: seq<Piece>): string {
    if ps == [] then "" else PieceKept(ps[0]) + CodeKept(ps[1..])
  }

  function PieceKept(p: Piece): string {
    match p
    case Char(c) => [c]
    case Literal(quote, body) => [quote, quote]
    case LeftOpen(quote, body) => [quote]
    case Span(inner) => ""
    case Rest(opener, inner) => ""
  }

  /** What the lexer of lines keeps of the rest of a line. */
  function Keeps(s: string, quote: Option<char>): string {
    Pick(s, KeptCode(s, 0, quote))
  }

  lemma {:induction false} CloseShifted(s: string, t: string, i: nat, d: nat)
    requires SameFrom(s, t, i, d) && i <= |s|
    ensures FindClose(t, i + d)
         == match FindClose(s, i) case Some(j) => Some(j + d) case None => None
    decreases |s| - i
  {
    if i < |s| {
      assert t[i + d] == s[i] && (i + 1 < |s| ==> t[i + 1 + d] == s[i + 1]);
      CloseShifted(s, t, i + 1, d);
    }
  }

  lemma {:induction false} KeepsShifted(s: string, t: string, i: nat, d: nat, quote: Option<char>)
    requires SameFrom(s, t, i, d) && i <= |s|
    ensures Pick(t, KeptCode(t, i + d, quote)) == Pick(s, KeptCode(s, i, quote))
    decreases |s| - i
  {
    hide Pick, KeptCode, FindClose;
    if i == |s| {
      NothingPicked(s, "", i, quote);
      NothingPicked(t, "", i + d, quote);
    } else {
      assert t[i + d] == s[i] && (i + 1 < |s| ==> t[i + 1 + d] == s[i + 1]);
      if quote.Some? {
        KeepsInLiteral(s, t, i, d, quote.value);
      } else {
        KeepsByte(s, t, i, d);
      }
    }
  }

  lemma {:induction false} KeepsInLiteral(s: string, t: string, i: nat, d: nat, quote: char)
    requires SameFrom(s, t, i, d) && i < |s| && t[i + d] == s[i]
    ensures Pick(t, KeptCode(t, i + d, Some(quote))) == Pick(s, KeptCode(s, i, Some(quote)))
    decreases |s| - i, 0
  {
    hide Pick, KeptCode, FindClose, SameFrom;
    SameLater(s, t, i, 1, d);
    LiteralByte(s, i, quote);
    LiteralByte(t, i + d, quote);
    if s[i] == '\\' && i + 1 < |s| {
      SameLater(s, t, i, 2, d);
      KeepsShifted(s, t, i + 2, d, Some(quote));
    } else if s[i] == quote {
      KeepsShifted(s, t, i + 1, d, None);
      PickCons(s, i, KeptCode(s, i + 1, None));
      PickCons(t, i + d, KeptCode(t, i + 1 + d, None));
    } else {
      KeepsShifted(s, t, i + 1, d, Some(quote));
    }
  }

  lemma {:induction false} KeepsByte(s: string, t: string, i: nat, d: nat)
    requires SameFrom(s, t, i, d) && i < |s| && t[i + d] == s[i] && (i + 1 < |s| ==> t[i + 1 + d] == s[i + 1])
    ensures Pick(t, KeptCode(t, i + d, None)) == Pick(s, KeptCode(s, i, None))
    decreases |s| - i, 0
  {
    hide Pick, KeptCode, FindClose;
    CodeByte(s, i);
    CodeByte(t, i + d);
    if LineOpens(s, i) {
      NothingPicked(s, "", |s|, None);
      NothingPicked(t, "", |t|, None);
    } else if BlockOpens(s, i) {
      CloseShifted(s, t, i + 2, d);
      if FindClose(s, i + 2).Some? {
        KeepsShifted(s, t, FindClose(s, i + 2).value + 2, d, None);
      } else {
        NothingPicked(s, "", |s|, None);
        NothingPicked(t, "", |t|, None);
      }
    } else {
      var next := if IsQuote(s[i]) then Some(s[i]) else None;
      KeepsShifted(s, t, i + 1, d, next);
      PickCons(s, i, KeptCode(s, i + 1, next));
      PickCons(t, i + d, KeptCode(t, i + 1 + d, next));
    }
  }

  lemma KeepsFrom(s: string, i: nat, quote: Option<char>)
    requires i <= |s|
    ensures Pick(s, KeptCode(s, i, quote)) == Keeps(s[i..], quote)
  {
    var t := s[i..];
    assert SameFrom(t, s, 0, i);
    KeepsShifted(t, s, 0, i, quote);
  }

  lemma KeepsNothing(quote: Option<char>)
    ensures Keeps("", quote) == ""
  {
  }

  lemma CharKept(c: char, rest: string)
    requires c == '/' ==> !StartsWith(rest, '/') && !StartsWith(rest, '*')
    ensures Keeps([c] + rest, None) == [c] + Keeps(rest, if IsQuote(c) then Some(c) else None)
  {
    hide Pick, KeptCode;
    var s := [c] + rest;
    assert s[0] == c && s[1..] == rest && (rest != "" ==> s[1] == rest[0]);
    CodeByte(s, 0);
    var next := if IsQuote(c) then Some(c) else None;
    PickCons(s, 0, KeptCode(s, 1, next));
    KeepsFrom(s, 1, next);
  }

  /** The inside of a literal goes. */
  lemma {:induction false} InsideGoes(body: string, quote: char, rest: string)
    requires Inside(body, quote) && IsQuote(quote)
    ensures Keeps(body + ([quote] + rest), Some(quote)) == [quote] + Keeps(rest, None)
    decreases |body|
  {
    hide Pick, KeptCode;
    var s := body + ([quote] + rest);
    LiteralByte(s, 0, quote);
    if body == "" {
      KeepsNothing(Some(quote));
      assert s[0] == quote && s[1..] == rest;
      PickCons(s, 0, KeptCode(s, 1, None));
      KeepsFrom(s, 1, None);
    } else {
      var n := if body[0] == '\\' then 2 else 1;
      assert s[0] == body[0] && s[n..] == body[n..] + ([quote] + rest);
      KeepsFrom(s, n, Some(quote));
      InsideGoes(body[n..], quote, rest);
    }
  }

  lemma {:induction false} LeftInsideGoes(body: string, quote: char)
    requires InsideLeft(body, quote) && IsQuote(quote)
    ensures Keeps(body, Some(quote)) == ""
    decreases |body|
  {
    hide Pick, KeptCode;
    KeepsNothing(Some(quote));
    if body != "" {
      var n := if body[0] == '\\' && |body| > 1 then 2 else 1;
      LiteralByte(body, 0, quote);
      KeepsFrom(body, n, Some(quote));
      LeftInsideGoes(body[n..], quote);
    }
  }

  lemma {:induction false} ClosesAt(inner: string, rest: string)
    requires NoCloser(inner)
    ensures FindClose("/*" + inner + "*/" + rest, 2) == Some(|inner| + 2)
    ensures FindClose("/*" + inner, 2) == None
  {
    var s, t := "/*" + inner + "*/" + rest, "/*" + inner;
    forall k | 2 <= k < |inner| + 2 ensures !BlockCloses(s, k) && !BlockCloses(t, k) {
      assert s[k] == inner[k - 2] == t[k];
      if k < |inner| + 1 {
        assert inner[k - 2] != '*' || inner[k - 2 + 1] != '/';
        assert s[k + 1] == inner[k - 1] == t[k + 1];
      } else {
        assert s[k + 1] == '*';
      }
    }
    assert BlockCloses(s, |inner| + 2);
  }

  lemma {:induction false} CommentKept(inner: string, rest: string)
    ensures NoCloser(inner) ==> Keeps("/*" + inner + "*/" + rest, None) == Keeps(rest, None)
    ensures NoCloser(inner) ==> Keeps("/*" + inner, None) == ""
    ensures Keeps("//" + inner, None) == ""
  {
    hide Pick, KeptCode, FindClose, NoCloser;
    var s, t, u := "/*" + inner + "*/" + rest, "/*" + inner, "//" + inner;
    assert s[0] == t[0] == u[0] == '/' && s[1] == t[1] == '*' && u[1] == '/';
    CodeByte(s, 0);
    CodeByte(t, 0);
    CodeByte(u, 0);
    NothingPicked(t, "", |t|, None);
    NothingPicked(u, "", |u|, None);
    if NoCloser(inner) {
      ClosesAt(inner, rest);
      KeepsFrom(s, |inner| + 4, None);
      assert s[|inner| + 4..] == rest;
    }
  }

  /** Stripping a line leaves exactly its code and the quotes of its literals. */
  lemma {:induction false} KeepsTheCode(ps: seq<Piece>)
    requires LineCut(ps)
    ensures CodeOf(LineOf(ps)) == CodeKept(ps)
  {
    hide Pick, KeptCode, PieceFits, PieceShown, PieceKept;
    if ps == [] {
      KeepsNothing(None);
    } else {
      KeepsTheCode(ps[1..]);
      PieceLeaves(ps[0], LineOf(ps[1..]));
    }
  }

  lemma PieceLeaves(p: Piece, rest: string)
    requires PieceFits(p, rest)
    ensures Keeps(PieceShown(p) + rest, None) == PieceKept(p) + Keeps(rest, None)
  {
    hide Keeps, NoCloser, Inside, InsideLeft, StartsWith;
    KeepsNothing(None);
    match p
    case Char(c) => CharKept(c, rest);
    case Literal(quote, body) =>
      assert [quote] + body + [quote] + rest == [quote] + (body + ([quote] + rest));
      CharKept(quote, body + ([quote] + rest));
      InsideGoes(body, quote, rest);
      assert [quote] + ([quote] + Keeps(rest, None)) == [quote, quote] + Keeps(rest, None);
    case LeftOpen(quote, body) =>
      assert [quote] + body + rest == [quote] + body && [quote] + "" + "" == [quote];
      CharKept(quote, body);
      LeftInsideGoes(body, quote);
    case Span(inner) => CommentKept(inner, rest);
    case Rest(opener, inner) =>
      assert opener + inner + rest == opener + inner && "" + "" == "";
      CommentKept(inner, "");
  }

  /** Every line can be cut so. */
  lemma {:induction false} EveryLineIsCut(s: string) returns (ps: seq<Piece>)
    ensures LineCut(ps) && LineOf(ps) == s
    decreases |s|
  {
    if s == "" {
      return [];
    }
    hide NoCloser, Inside, InsideLeft;
    var first, n := FirstPiece(s);
    var others := EveryLineIsCut(s[n..]);
    ps := [first] + others;
    assert ps[0] == first && ps[1..] == others;
  }

  /** The piece at the start of a line, and where it ends. */
  lemma {:induction false} FirstPiece(s: string) returns (p: Piece, n: nat)
    requires s != ""
    ensures 0 < n <= |s| && PieceFits(p, s[n..]) && PieceShown(p) == s[..n]
  {
    hide NoCloser, Inside, InsideLeft;
    if |s| >= 2 && s[0] == '/' && s[1] == '*' {
      p, n := CommentPiece(s);
    } else if |s| >= 2 && s[0] == '/' && s[1] == '/' {
      p, n := Rest("//", s[2..]), |s|;
      assert "//" + s[2..] == s[..|s|];
    } else if IsQuote(s[0]) {
      p, n := LiteralPiece(s);
    } else {
      p, n := Char(s[0]), 1;
    }
  }

  lemma {:induction false} CommentPiece(s: string) returns (p: Piece, n: nat)
    requires |s| >= 2 && s[0] == '/' && s[1] == '*'
    ensures 0 < n <= |s| && PieceFits(p, s[n..]) && PieceShown(p) == s[..n]
  {
    var inner, closed := CommentInner(s);
    hide NoCloser;
    p, n := if closed then Span(inner) else Rest("/*", inner), |inner| + if closed then 4 else 2;
    assert s[n..] == "" || closed;
  }

  /** What a block comment at the start of the text holds, and whether it is closed. */
  lemma {:induction false} CommentInner(s: string) returns (inner: string, closed: bool)
    requires |s| >= 2 && s[0] == '/' && s[1] == '*'
    ensures NoCloser(inner)
    ensures if closed then "/*" + inner + "*/" <= s else "/*" + inner == s
  {
    var close := FindClose(s, 2);
    closed := close.Some?;
    inner := if closed then s[2..close.value] else s[2..];
    forall k | 0 <= k < |inner| - 1 ensures inner[k] != '*' || inner[k + 1] != '/' {
      assert !BlockCloses(s, k + 2);
    }
    if closed {
      assert s[..close.value + 2] == "/*" + inner + "*/";
    } else {
      assert "/*" + inner == s;
    }
  }

  lemma {:induction false} LiteralPiece(s: string) returns (p: Piece, n: nat)
    requires s != "" && IsQuote(s[0])
    ensures 0 < n <= |s| && PieceFits(p, s[n..]) && PieceShown(p) == s[..n]
  {
    hide Inside, InsideLeft;
    var m, closed := LiteralEnd(s[1..], s[0]);
    var body := s[1..][..m];
    p, n := if closed then Literal(s[0], body) else LeftOpen(s[0], body), m + if closed then 2 else 1;
    assert !closed ==> s[1..][..m] == s[1..];
  }

  /** Where a literal ends whose inside begins the text, and whether it is closed. */
  lemma {:induction false} LiteralEnd(s: string, quote: char) returns (n: nat, closed: bool)
    ensures if closed then n < |s| && s[n] == quote && Inside(s[..n], quote) else n == |s| && InsideLeft(s, quote)
    decreases |s|
  {
    if s == "" || (s[0] == '\\' && |s| == 1) {
      return |s|, false;
    }
    if s[0] == quote && s[0] != '\\' {
      return 0, true;
    }
    var d := if s[0] == '\\' then 2 else 1;
    var m;
    m, closed := LiteralEnd(s[d..], quote);
    n := m + d;
    if closed {
      assert s[..n][d..] == s[d..][..m];
    }
  }
}
