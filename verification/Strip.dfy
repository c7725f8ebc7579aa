/** internal/csrc/csrc.go: the comment and literal strippers.

    Each stripper's meaning is a small lexer that lists the indices of the bytes that
    survive; the output is those bytes in order.  Newlines always survive, so lines keep
    their numbers. */
module Strip {
  import opened Rearrangement
  import opened Text

  /** The bytes of s at the listed indices. */
  function Pick(s: string, kept: seq<nat>): (r: string)
    requires forall k :: 0 <= k < |kept| ==> kept[k] < |s|
    ensures |r| == |kept|
    ensures forall k :: 0 <= k < |kept| ==> r[k] == s[kept[k]]
  {
    seq(|kept|, k requires 0 <= k < |kept| => s[kept[k]])
  }

  predicate Within(kept: seq<nat>, lo: nat, hi: nat) {
    forall k :: 0 <= k < |kept| ==> lo <= kept[k] < hi
  }

  predicate Ascending(kept: seq<nat>) {
    forall j, k :: 0 <= j < k < |kept| ==> kept[j] < kept[k]
  }

  predicate BlockOpens(s: string, i: nat) {
    i + 1 < |s| && s[i] == '/' && s[i + 1] == '*'
  }

  predicate LineOpens(s: string, i: nat) {
    i + 1 < |s| && s[i] == '/' && s[i + 1] == '/'
  }

  predicate BlockCloses(s: string, i: nat) {
    i + 1 < |s| && s[i] == '*' && s[i + 1] == '/'
  }

  /** No comment opener anywhere. */
  ghost predicate NoOpeners(s: string) {
    forall i: nat :: !BlockOpens(s, i) && !LineOpens(s, i)
  }

  // strings.Index for the end of a block comment, as an index into s.
  function FindClose(s: string, from: nat): (r: Option<nat>)
    ensures r.Some? ==> from <= r.value && BlockCloses(s, r.value)
    ensures r.Some? ==> forall k :: from <= k < r.value ==> !BlockCloses(s, k)
    ensures r.None? ==> forall k :: from <= k ==> !BlockCloses(s, k)
    decreases |s| - from
  {
    if from >= |s| then None
    else if BlockCloses(s, from) then Some(from)
    else FindClose(s, from + 1)
  }

  // ---- StripComments ----

  datatype Mode = Code | InLine | InBlock

  /** The three-state lexer: the indices from i on that survive. */
  function Kept(s: string, i: nat, mode: Mode): (kept: seq<nat>)
    ensures Within(kept, i, |s|)
    decreases |s| - i
  {
    if i >= |s| then []
    else match mode
      case Code =>
        if BlockOpens(s, i) then Kept(s, i + 2, InBlock)
        else if LineOpens(s, i) then Kept(s, i + 2, InLine)
        else [i] + Kept(s, i + 1, Code)
      case InLine =>
        if s[i] == '\n' then [i] + Kept(s, i + 1, Code)
        else Kept(s, i + 1, InLine)
      case InBlock =>
        if BlockCloses(s, i) then Kept(s, i + 2, Code)
        else if s[i] == '\n' then [i] + Kept(s, i + 1, InBlock)
        else Kept(s, i + 1, InBlock)
  }

  lemma {:induction false} KeptAscends(s: string, i: nat, mode: Mode)
    ensures Ascending(Kept(s, i, mode))
    decreases |s| - i
  {
    if i < |s| {
      if Kept(s, i, mode) == [] || Kept(s, i, mode)[0] != i {
        var n, next := KeptSkips(s, i, mode);
        KeptAscends(s, i + n, next);
      } else {
        var next := if mode == InLine then Code else mode;
        KeptAscends(s, i + 1, next);
        AscendingCons(i, Kept(s, i + 1, next), |s|);
      }
    }
  }

  lemma AscendingCons(i: nat, rest: seq<nat>, hi: nat)
    requires Ascending(rest) && Within(rest, i + 1, hi)
    ensures Ascending([i] + rest)
  {
  }

  /** Where the lexer goes on after bytes that do not survive. */
  lemma KeptSkips(s: string, i: nat, mode: Mode) returns (n: nat, next: Mode)
    requires i < |s| && (Kept(s, i, mode) == [] || Kept(s, i, mode)[0] != i)
    ensures 0 < n <= |s| - i && NewlineFree(s[i..i + n])
    ensures Kept(s, i, mode) == Kept(s, i + n, next)
  {
    n := if mode == Code || (mode == InBlock && BlockCloses(s, i)) then 2 else 1;
    next := if mode == Code then (if BlockOpens(s, i) then InBlock else InLine)
            else if n == 2 then Code else mode;
  }

  function WithoutComments(s: string): string {
    Pick(s, Kept(s, 0, Code))
  }

  lemma PickCons(s: string, k: nat, rest: seq<nat>)
    requires k < |s| && forall j :: 0 <= j < |rest| ==> rest[j] < |s|
    ensures Pick(s, [k] + rest) == [s[k]] + Pick(s, rest)
  {
  }

  /** Writing a surviving byte. */
  lemma Emit(s: string, b: string, k: nat, rest: seq<nat>)
    requires k < |s| && forall j :: 0 <= j < |rest| ==> rest[j] < |s|
    ensures b + Pick(s, [k] + rest) == (b + [s[k]]) + Pick(s, rest)
  {
    PickCons(s, k, rest);
    Associative(b, [s[k]], Pick(s, rest));
  }

  /** Where the lexer stands while the source copies the newlines of a block comment
      that begins at i: never before its body, never past its close. */
  function BlockAt(s: string, i: nat, k: nat): (at: nat)
    ensures i + 2 <= at
  {
    var close := FindClose(s, i + 2);
    if k < i + 2 then i + 2
    else if close.Some? && close.value < k then close.value
    else k
  }

  lemma BlockStep(s: string, b: string, i: nat, k: nat)
    requires i <= k < |s| && BlockOpens(s, i)
    requires FindClose(s, i + 2).Some? ==> k < FindClose(s, i + 2).value + 2
    ensures b + Pick(s, Kept(s, BlockAt(s, i, k), InBlock))
         == (if s[k] == '\n' then b + "\n" else b) + Pick(s, Kept(s, BlockAt(s, i, k + 1), InBlock))
  {
    if s[k] == '\n' {
      assert k == BlockAt(s, i, k) && !BlockCloses(s, k);
      Emit(s, b, k, Kept(s, k + 1, InBlock));
    }
  }

  /** One byte of code: a block comment begins, a line comment begins, or it survives. */
  lemma CodeStep(s: string, i: nat)
    requires i < |s|
    ensures BlockOpens(s, i) ==> Kept(s, i, Code) == Kept(s, BlockAt(s, i, i), InBlock)
    ensures LineOpens(s, i) ==> Kept(s, i, Code) == Kept(s, i, InLine)
    ensures !BlockOpens(s, i) && !LineOpens(s, i) ==> Kept(s, i, Code) == [i] + Kept(s, i + 1, Code)
  {
    if LineOpens(s, i) {
      assert Kept(s, i, InLine) == Kept(s, i + 1, InLine) == Kept(s, i + 2, InLine);
    }
  }

  lemma BlockEnds(s: string, i: nat, end: nat)
    requires BlockOpens(s, i)
    requires end == if FindClose(s, i + 2).Some? then FindClose(s, i + 2).value + 2 else |s|
    ensures end <= |s| && Kept(s, BlockAt(s, i, end), InBlock) == Kept(s, end, Code)
  {
  }

  lemma LineByte(s: string, i: nat)
    requires i < |s|
    ensures Kept(s, i, InLine) == Kept(s, if s[i] == '\n' then i else i + 1, if s[i] == '\n' then Code else InLine)
  {
  }

  lemma NothingLeft(s: string, b: string, mode: Mode)
    ensures b + Pick(s, Kept(s, |s|, mode)) == b
  {
  }

  method StripComments(s: string) returns (b: string)
    ensures b == WithoutComments(s)
  {
    hide Kept, Pick, BlockAt, FindClose, BlockCloses;
    b := "";
    var i := 0;
    ghost var goal := WithoutComments(s);
    while i < |s|
      invariant 0 <= i <= |s|
      invariant b + Pick(s, Kept(s, i, Code)) == goal
    {
      CodeStep(s, i);
      if s[i] == '/' && i + 1 < |s| && s[i + 1] == '*' {
        var j := FindClose(s, i + 2);
        var end := if j.Some? then j.value + 2 else |s|;
        BlockEnds(s, i, end);
        var k := i;
        while k < end
          invariant i <= k <= end
          invariant b + Pick(s, Kept(s, BlockAt(s, i, k), InBlock)) == goal
        {
          BlockStep(s, b, i, k);
          if s[k] == '\n' {
            b := b + "\n";
          }
          k := k + 1;
        }
        if j.None? {
          NothingLeft(s, b, Code);
          break;
        }
        i := end;
        continue;
      }
      if s[i] == '/' && i + 1 < |s| && s[i + 1] == '/' {
        while i < |s| && s[i] != '\n'
          invariant 0 <= i <= |s|
          invariant b + Pick(s, Kept(s, i, InLine)) == goal
        {
          LineByte(s, i);
          i := i + 1;
        }
        if i < |s| {
          LineByte(s, i);
        } else {
          NothingLeft(s, b, InLine);
          NothingLeft(s, b, Code);
        }
        continue;
      }
      Emit(s, b, i, Kept(s, i + 1, Code));
      b := b + [s[i]];
      i := i + 1;
    }
    NothingLeft(s, b, Code);
  }

  // -- no comment opener survives --

  lemma {:induction false} KeptHasNoOpeners(s: string, i: nat, mode: Mode)
    ensures NoOpeners(Pick(s, Kept(s, i, mode)))
    decreases |s| - i
  {
    var kept := Kept(s, i, mode);
    if i >= |s| {
    } else if kept != [] && kept[0] == i {
      var next := if mode == InLine then Code else mode;
      var rest := Kept(s, i + 1, next);
      KeptHasNoOpeners(s, i + 1, next);
      assert kept == [i] + rest;
      ConsHasNoOpeners(s, i, rest);
    } else if mode == Code || (mode == InBlock && BlockCloses(s, i)) {
      KeptHasNoOpeners(s, i + 2, if mode == InBlock then Code else if BlockOpens(s, i) then InBlock else InLine);
    } else {
      KeptHasNoOpeners(s, i + 1, mode);
    }
  }

  /** A byte in front makes no opener, if it starts none in s and a slash is followed
      by its successor in s. */
  lemma ConsHasNoOpeners(s: string, i: nat, rest: seq<nat>)
    requires i < |s| && Within(rest, i + 1, |s|) && NoOpeners(Pick(s, rest))
    requires !BlockOpens(s, i) && !LineOpens(s, i)
    requires s[i] == '/' && rest != [] ==> rest[0] == i + 1
    ensures NoOpeners(Pick(s, [i] + rest))
  {
    var t, u := Pick(s, [i] + rest), Pick(s, rest);
    forall p: nat ensures !BlockOpens(t, p) && !LineOpens(t, p) {
      if p > 0 {
        assert !BlockOpens(u, p - 1) && !LineOpens(u, p - 1);
      }
    }
  }

  /** The output contains neither `//` nor the start of a block comment. */
  lemma NoCommentLeft(s: string)
    ensures NoOpeners(WithoutComments(s))
  {
    KeptHasNoOpeners(s, 0, Code);
  }

  lemma {:induction false} NoOpenersKeepsAll(s: string, i: nat)
    requires NoOpeners(s) && i <= |s|
    ensures Pick(s, Kept(s, i, Code)) == s[i..]
    decreases |s| - i
  {
    hide Pick;
    if i < |s| {
      assert !BlockOpens(s, i) && !LineOpens(s, i);
      NoOpenersKeepsAll(s, i + 1);
      PickCons(s, i, Kept(s, i + 1, Code));
      assert s[i..] == [s[i]] + s[i + 1..];
    }
  }

  /** Exactly the texts without a comment opener are left as they are. */
  lemma {:induction false} UnchangedExactlyWhen(s: string)
    ensures WithoutComments(s) == s <==> NoOpeners(s)
  {
    NoCommentLeft(s);
    if NoOpeners(s) {
      NoOpenersKeepsAll(s, 0);
    }
  }

  /** Stripping twice is stripping once. */
  lemma StripCommentsIdempotent(s: string)
    ensures WithoutComments(WithoutComments(s)) == WithoutComments(s)
  {
    NoCommentLeft(s);
    UnchangedExactlyWhen(WithoutComments(s));
  }

  // -- line numbers stay aligned --

  lemma {:induction false} AlignedFrom(s: string, i: nat, mode: Mode, j: nat)
    requires i <= |s| && j <= |Kept(s, i, mode)|
    ensures var kept := Kept(s, i, mode);
            Newlines(Pick(s, kept)[..j]) == Newlines(s[i..if j < |kept| then kept[j] else |s|])
    decreases |s| - i
  {
    hide Kept, Pick, Newlines;
    var kept := Kept(s, i, mode);
    var upto := if j < |kept| then kept[j] else |s|;
    if i == |s| || (j == 0 && kept != [] && kept[0] == i) {
      assert Pick(s, kept)[..j] == s[i..upto];
    } else if kept != [] && kept[0] == i {
      var next := KeptTakes(s, i, mode);
      AlignedFrom(s, i + 1, next, j - 1);
      AlignedCons(s, i, Kept(s, i + 1, next), j, upto);
    } else {
      var n, next := KeptSkips(s, i, mode);
      AlignedFrom(s, i + n, next, j);
      AlignedSkip(s, i, n, upto);
    }
  }

  /** Where the lexer goes on after a byte that survives. */
  lemma KeptTakes(s: string, i: nat, mode: Mode) returns (next: Mode)
    requires i < |s| && Kept(s, i, mode) != [] && Kept(s, i, mode)[0] == i
    ensures Kept(s, i, mode) == [i] + Kept(s, i + 1, next)
  {
    next := if mode == InLine then Code else mode;
  }

  lemma AlignedCons(s: string, i: nat, rest: seq<nat>, j: nat, upto: nat)
    requires i < upto <= |s| && Within(rest, i + 1, |s|) && 0 < j <= |rest| + 1
    requires Newlines(Pick(s, rest)[..j - 1]) == Newlines(s[i + 1..upto])
    ensures Newlines(Pick(s, [i] + rest)[..j]) == Newlines(s[i..upto])
  {
    assert Pick(s, [i] + rest)[..j][1..] == Pick(s, rest)[..j - 1];
    assert s[i..upto][1..] == s[i + 1..upto];
  }

  lemma AlignedSkip(s: string, i: nat, n: nat, upto: nat)
    requires i + n <= upto <= |s| && NewlineFree(s[i..i + n])
    ensures Newlines(s[i..upto]) == Newlines(s[i + n..upto])
  {
    assert s[i..upto] == s[i..i + n] + s[i + n..upto];
    NewlinesConcat(s[i..i + n], s[i + n..upto]);
    NewlinesZero(s[i..i + n]);
  }

  /** Every surviving byte has as many newlines before it in the output as in the
      input, also behind an unterminated comment. */
  lemma {:induction false} SurvivorsKeepTheirLine(s: string, j: nat)
    requires j < |WithoutComments(s)|
    ensures var kept := Kept(s, 0, Code);
            && Ascending(kept) && WithoutComments(s)[j] == s[kept[j]]
            && Newlines(WithoutComments(s)[..j]) == Newlines(s[..kept[j]])
  {
    KeptAscends(s, 0, Code);
    AlignedFrom(s, 0, Code, j);
    assert s[0..Kept(s, 0, Code)[j]] == s[..Kept(s, 0, Code)[j]];
  }

  /** The number of lines stays the same. */
  lemma {:induction false} LineCountKept(s: string)
    ensures |Split(WithoutComments(s))| == |Split(s)|
  {
    var kept := Kept(s, 0, Code);
    AlignedFrom(s, 0, Code, |kept|);
    assert WithoutComments(s)[..|kept|] == WithoutComments(s) && s[0..|s|] == s;
    SplitCount(s);
    SplitCount(WithoutComments(s));
  }

  // ---- StripCodeLine ----

  predicate IsQuote(c: char) {
    c == '"' || c == '\''
  }

  /** The lexer of a single line.  In a literal opened by `quote` everything up to the
      closing quote goes, a backslash taking the next byte with it. */
  function KeptCode(s: string, i: nat, quote: Option<char>): (kept: seq<nat>)
    ensures Within(kept, i, |s|)
    decreases |s| - i
  {
    if i >= |s| then []
    else if quote.None? then
      if LineOpens(s, i) then []
      else if BlockOpens(s, i) then
        var j := FindClose(s, i + 2);
        if j.Some? then KeptCode(s, j.value + 2, None) else []
      else if IsQuote(s[i]) then [i] + KeptCode(s, i + 1, Some(s[i]))
      else [i] + KeptCode(s, i + 1, None)
    else
      if s[i] == '\\' && i + 1 < |s| then KeptCode(s, i + 2, quote)
      else if s[i] == quote.value then [i] + KeptCode(s, i + 1, None)
      else KeptCode(s, i + 1, quote)
  }

  function CodeOf(s: string): string {
    Pick(s, KeptCode(s, 0, None))
  }

  lemma CodeByte(s: string, i: nat)
    requires i < |s|
    ensures LineOpens(s, i) ==> KeptCode(s, i, None) == []
    ensures BlockOpens(s, i) ==>
              KeptCode(s, i, None)
              == if FindClose(s, i + 2).Some? then KeptCode(s, FindClose(s, i + 2).value + 2, None) else []
    ensures !LineOpens(s, i) && !BlockOpens(s, i) ==>
              KeptCode(s, i, None) == [i] + KeptCode(s, i + 1, if IsQuote(s[i]) then Some(s[i]) else None)
  {
  }

  lemma LiteralByte(s: string, i: nat, quote: char)
    requires i < |s|
    ensures KeptCode(s, i, Some(quote))
         == if s[i] == '\\' && i + 1 < |s| then KeptCode(s, i + 2, Some(quote))
            else if s[i] == quote then [i] + KeptCode(s, i + 1, None)
            else KeptCode(s, i + 1, Some(quote))
  {
  }

  lemma NothingPicked(s: string, b: string, i: nat, quote: Option<char>)
    ensures b + Pick(s, []) == b
    ensures i >= |s| ==> KeptCode(s, i, quote) == []
  {
  }

  method StripCodeLine(s: string) returns (b: string)
    ensures b == CodeOf(s)
  {
    hide KeptCode, Pick, FindClose, BlockCloses;
    b := "";
    var i := 0;
    ghost var goal := CodeOf(s);
    while i < |s|
      invariant 0 <= i
      invariant b + Pick(s, KeptCode(s, i, None)) == goal
    {
      CodeByte(s, i);
      NothingPicked(s, b, i, None);
      var c := s[i];
      if c == '/' && i + 1 < |s| && s[i + 1] == '/' {
        break;
      }
      if c == '/' && i + 1 < |s| && s[i + 1] == '*' {
        var j := FindClose(s, i + 2);
        if j.Some? {
          i := j.value + 2;
          continue;
        }
        break;
      }
      if c == '"' || c == '\'' {
        Emit(s, b, i, KeptCode(s, i + 1, Some(c)));
        b := b + [c];
        i := i + 1;
        while i < |s|
          invariant 0 <= i <= |s|
          invariant b + Pick(s, KeptCode(s, i, Some(c))) == goal
        {
          LiteralByte(s, i, c);
          if s[i] == '\\' && i + 1 < |s| {
            i := i + 2;
            continue;
          }
          if s[i] == c {
            Emit(s, b, i, KeptCode(s, i + 1, None));
            b := b + [c];
            break;
          }
          i := i + 1;
        }
        NothingPicked(s, b, i, Some(c));
        NothingPicked(s, b, i + 1, None);
        i := i + 1;
        continue;
      }
      Emit(s, b, i, KeptCode(s, i + 1, None));
      b := b + [c];
      i := i + 1;
    }
    NothingPicked(s, b, i, None);
  }

  /** From i on: no comment opener, and every literal is empty (the last one may be
      left open at the end of the line). */
  predicate NeutralFrom(t: string, i: nat)
    decreases |t| - i
  {
    if i >= |t| then true
    else if IsQuote(t[i]) then i + 1 == |t| || (t[i + 1] == t[i] && NeutralFrom(t, i + 2))
    else !BlockOpens(t, i) && !LineOpens(t, i) && NeutralFrom(t, i + 1)
  }

  /** Neutral text behind a prefix. */
  lemma {:induction false} NeutralBehind(prefix: string, t: string, i: nat)
    requires i <= |t|
    ensures NeutralFrom(prefix + t, |prefix| + i) <==> NeutralFrom(t, i)
    decreases |t| - i
  {
    var u, d := prefix + t, |prefix|;
    if i < |t| {
      assert u[d + i] == t[i];
      if IsQuote(t[i]) {
        if i + 1 < |t| {
          assert u[d + i + 1] == t[i + 1];
          NeutralBehind(prefix, t, i + 2);
        }
      } else {
        if i + 1 < |t| {
          assert u[d + i + 1] == t[i + 1];
        }
        NeutralBehind(prefix, t, i + 1);
      }
    }
  }

  lemma NeutralCons(c: char, t: string)
    requires !IsQuote(c) && NeutralFrom(t, 0)
    requires c == '/' && t != "" ==> t[0] != '/' && t[0] != '*'
    ensures NeutralFrom([c] + t, 0)
  {
    NeutralBehind([c], t, 0);
  }

  lemma NeutralLiteral(c: char, t: string)
    requires IsQuote(c) && NeutralFrom(t, 0)
    ensures NeutralFrom([c] + ([c] + t), 0)
  {
    NeutralBehind([c, c], t, 0);
    assert [c, c] + t == [c] + ([c] + t);
  }

  /** What survives is neutral; inside a literal what survives is at most its closing
      quote and then neutral. */
  lemma {:induction false} KeptCodeNeutral(s: string, i: nat, quote: Option<char>)
    requires quote.Some? ==> IsQuote(quote.value)
    ensures var t := Pick(s, KeptCode(s, i, quote));
            if quote.None? then NeutralFrom(t, 0) else NeutralFrom([quote.value] + t, 0)
    decreases |s| - i
  {
    var kept := KeptCode(s, i, quote);
    if i >= |s| {
    } else if quote.None? {
      if LineOpens(s, i) {
      } else if BlockOpens(s, i) {
        var j := FindClose(s, i + 2);
        if j.Some? {
          KeptCodeNeutral(s, j.value + 2, None);
        }
      } else if IsQuote(s[i]) {
        KeptCodeNeutral(s, i + 1, Some(s[i]));
        PickCons(s, i, KeptCode(s, i + 1, Some(s[i])));
      } else {
        KeptCodeNeutral(s, i + 1, None);
        PickCons(s, i, KeptCode(s, i + 1, None));
        NeutralCons(s[i], Pick(s, KeptCode(s, i + 1, None)));
      }
    } else {
      if s[i] == '\\' && i + 1 < |s| {
        KeptCodeNeutral(s, i + 2, quote);
      } else if s[i] == quote.value {
        KeptCodeNeutral(s, i + 1, None);
        PickCons(s, i, KeptCode(s, i + 1, None));
        NeutralLiteral(s[i], Pick(s, KeptCode(s, i + 1, None)));
      } else {
        KeptCodeNeutral(s, i + 1, quote);
      }
    }
  }

  /** After stripping every literal is empty and no comment is left. */
  lemma StrippedLineIsNeutral(s: string)
    ensures NeutralFrom(CodeOf(s), 0)
  {
    KeptCodeNeutral(s, 0, None);
  }

  lemma {:induction false} NeutralHasNoOpeners(t: string, i: nat, p: nat)
    requires NeutralFrom(t, i) && i <= p
    ensures !BlockOpens(t, p) && !LineOpens(t, p)
    decreases |t| - i
  {
    if i < |t| && i < p {
      if !IsQuote(t[i]) {
        NeutralHasNoOpeners(t, i + 1, p);
      } else if i + 1 < |t| && i + 1 < p {
        NeutralHasNoOpeners(t, i + 2, p);
      }
    }
  }

  lemma {:induction false} NeutralKeepsAll(t: string, i: nat)
    requires NeutralFrom(t, i) && i <= |t|
    ensures Pick(t, KeptCode(t, i, None)) == t[i..]
    decreases |t| - i
  {
    if i == |t| {
    } else if !IsQuote(t[i]) {
      NeutralKeepsAll(t, i + 1);
      PickCons(t, i, KeptCode(t, i + 1, None));
      OneFirst(t, i);
    } else if i + 1 == |t| {
      assert KeptCode(t, i, None) == [i] + KeptCode(t, i + 1, Some(t[i])) == [i];
      OneFirst(t, i);
    } else {
      var rest := KeptCode(t, i + 2, None);
      NeutralKeepsAll(t, i + 2);
      assert KeptCode(t, i + 1, Some(t[i])) == [i + 1] + rest;
      PickCons(t, i, [i + 1] + rest);
      PickCons(t, i + 1, rest);
      TwoFirst(t, i);
    }
  }

  lemma OneFirst(t: string, i: nat)
    requires i < |t|
    ensures t[i..] == [t[i]] + t[i + 1..]
  {
  }

  lemma TwoFirst(t: string, i: nat)
    requires i + 1 < |t|
    ensures t[i..] == [t[i]] + ([t[i + 1]] + t[i + 2..])
  {
  }

  /** Exactly the neutral lines are left as they are. */
  lemma {:induction false} LineUnchangedExactlyWhen(s: string)
    ensures CodeOf(s) == s <==> NeutralFrom(s, 0)
  {
    StrippedLineIsNeutral(s);
    if NeutralFrom(s, 0) {
      NeutralKeepsAll(s, 0);
    }
  }

  /** Stripping a line twice is stripping it once, and leaves no comment opener. */
  lemma {:induction false} StripCodeLineIdempotent(s: string)
    ensures CodeOf(CodeOf(s)) == CodeOf(s) && NoOpeners(CodeOf(s))
  {
    StrippedLineIsNeutral(s);
    LineUnchangedExactlyWhen(CodeOf(s));
    forall p: nat ensures !BlockOpens(CodeOf(s), p) && !LineOpens(CodeOf(s), p) {
      NeutralHasNoOpeners(CodeOf(s), 0, p);
    }
  }

  /** No newline is introduced. */
  lemma CodeOfNewlineFree(s: string)
    requires NewlineFree(s)
    ensures NewlineFree(CodeOf(s))
  {
  }

  // ---- line numbers in the joined, stripped text ----

  /** The lines stripped one by one. */
  function CodeLines(lines: seq<string>): (r: seq<string>)
    ensures |r| == |lines|
    ensures forall k :: 0 <= k < |lines| ==> r[k] == CodeOf(lines[k])
  {
    seq(|lines|, k requires 0 <= k < |lines| => CodeOf(lines[k]))
  }

  /** Counting newlines finds the line a byte of the joined text stands in. */
  lemma {:induction false} LineOfByte(lines: seq<string>, p: nat)
    requires AllNewlineFree(lines) && p < |Join(lines)| && Join(lines)[p] != '\n'
    ensures var n := Newlines(Join(lines)[..p]);
            && n < |lines|
            && 0 <= p - |Terminated(lines[..n])| < |lines[n]|
            && Join(lines)[p] == lines[n][p - |Terminated(lines[..n])|]
    decreases |lines|
  {
    var first := lines[0];
    NewlinesZero(first);
    if p < |first| {
      assert Join(lines)[..p] == first[..p];
      NewlinesZero(first[..p]);
      assert lines[..0] == [];
    } else {
      assert |lines| > 1;
      var rest, q := lines[1..], p - |first| - 1;
      assert Join(lines) == (first + "\n") + Join(rest);
      assert q >= 0;
      LineOfByte(rest, q);
      FirstLineBefore(lines, q);
    }
  }

  lemma FirstLineBefore(lines: seq<string>, q: nat)
    requires |lines| > 1 && NewlineFree(lines[0]) && q <= |Join(lines[1..])|
    ensures Newlines(Join(lines)[..|lines[0]| + 1 + q]) == 1 + Newlines(Join(lines[1..])[..q])
    ensures forall n :: 0 <= n <= |lines[1..]| ==>
              |Terminated(lines[..n + 1])| == |lines[0]| + 1 + |Terminated(lines[1..][..n])|
  {
    var first, rest := lines[0] + "\n", lines[1..];
    assert Join(lines)[..|first| + q] == first + Join(rest)[..q];
    NewlinesConcat(first, Join(rest)[..q]);
    NewlinesConcat(lines[0], "\n");
    NewlinesZero(lines[0]);
    forall n | 0 <= n <= |rest| ensures |Terminated(lines[..n + 1])| == |first| + |Terminated(rest[..n])| {
      assert lines[..n + 1][1..] == rest[..n];
    }
  }

  /** Byte p of the joined text stands in line n of it, at `column`, and is the byte of raw
      line n that survives there. */
  ghost predicate SurvivesFrom(lines: seq<string>, p: nat, n: nat, column: nat)
    requires n < |lines| && p < |Join(CodeLines(lines))|
  {
    && column < |KeptCode(lines[n], 0, None)|
    && p == |Terminated(CodeLines(lines)[..n])| + column
    && KeptCode(lines[n], 0, None)[column] < |lines[n]|
    && lines[n][KeptCode(lines[n], 0, None)[column]] == Join(CodeLines(lines))[p]
  }

  /** dispatchSites: the newline count before a byte of the joined, stripped text is
      the index of the raw line that holds the byte. */
  lemma {:induction false} DispatchLineIsRawLine(lines: seq<string>, p: nat)
    requires AllNewlineFree(lines)
    requires p < |Join(CodeLines(lines))| && Join(CodeLines(lines))[p] != '\n'
    ensures var n := Newlines(Join(CodeLines(lines))[..p]);
            n < |lines| && exists column :: SurvivesFrom(lines, p, n, column)
  {
    var code := CodeLines(lines);
    forall k | 0 <= k < |code| ensures NewlineFree(code[k]) {
      CodeOfNewlineFree(lines[k]);
    }
    LineOfByte(code, p);
    var n := Newlines(Join(code)[..p]);
    var column := p - |Terminated(code[..n])|;
    assert SurvivesFrom(lines, p, n, column);
  }

  // ---- a line inserted into the text ----

  /** One step of the lexer: how many bytes it reads, its next mode, whether the byte at i
      survives. */
  function Step(s: string, i: nat, mode: Mode): (nat, Mode, bool)
    requires i < |s|
  {
    match mode
    case Code =>
      if BlockOpens(s, i) then (2, InBlock, false)
      else if LineOpens(s, i) then (2, InLine, false)
      else (1, Code, true)
    case InLine => if s[i] == '\n' then (1, Code, true) else (1, InLine, false)
    case InBlock => if BlockCloses(s, i) then (2, Code, false) else (1, InBlock, s[i] == '\n')
  }

  /** What survives from i on. */
  function Survives(s: string, i: nat, mode: Mode): string {
    Pick(s, Kept(s, i, mode))
  }

  lemma KeptSteps(s: string, i: nat, mode: Mode)
    requires i < |s|
    ensures var (n, next, takes) := Step(s, i, mode);
            0 < n <= |s| - i && Kept(s, i, mode) == if takes then [i] + Kept(s, i + n, next) else Kept(s, i + n, next)
  {
  }

  lemma SurvivesSteps(s: string, i: nat, mode: Mode)
    requires i < |s|
    ensures var (n, next, takes) := Step(s, i, mode);
            && 0 < n <= |s| - i
            && Survives(s, i, mode) == if takes then [s[i]] + Survives(s, i + n, next) else Survives(s, i + n, next)
  {
    hide Kept, Step, Pick;
    KeptSteps(s, i, mode);
    var (n, next, takes) := Step(s, i, mode);
    if takes {
      PickCons(s, i, Kept(s, i + n, next));
    }
  }

  lemma NothingSurvives(s: string, mode: Mode)
    ensures Survives(s, |s|, mode) == ""
  {
  }

  /** s from i on is t from i + d on. */
  predicate SameFrom(s: string, t: string, i: nat, d: nat) {
    |t| == |s| + d && forall k :: i <= k < |s| ==> t[k + d] == s[k]
  }

  lemma SameLater(s: string, t: string, i: nat, n: nat, d: nat)
    requires SameFrom(s, t, i, d)
    ensures |t| == |s| + d && SameFrom(s, t, i + n, d)
  {
  }

  lemma SameStep(s: string, t: string, i: nat, d: nat, mode: Mode)
    requires SameFrom(s, t, i, d) && i < |s|
    ensures Step(t, i + d, mode) == Step(s, i, mode) && t[i + d] == s[i]
  {
    assert i + 1 < |s| ==> t[i + 1 + d] == s[i + 1];
  }

  /** What survives depends on the bytes that follow only. */
  lemma {:induction false} SurvivesShifted(s: string, t: string, i: nat, d: nat, mode: Mode)
    requires SameFrom(s, t, i, d) && i <= |s|
    ensures Survives(t, i + d, mode) == Survives(s, i, mode)
    decreases |s| - i
  {
    hide *;
    SameLater(s, t, i, 0, d);
    if i == |s| {
      NothingSurvives(s, mode);
      NothingSurvives(t, mode);
    } else {
      SurvivesSteps(s, i, mode);
      SurvivesSteps(t, i + d, mode);
      SameStep(s, t, i, d, mode);
      var (n, next, takes) := Step(s, i, mode);
      SameLater(s, t, i, n, d);
      SurvivesShifted(s, t, i + n, d, next);
    }
  }

  predicate EndsLine(a: string) {
    a == "" || a[|a| - 1] == '\n'
  }

  /** Before the end of a line the lexer does not look past it. */
  lemma StepInPrefix(a: string, b: string, i: nat, mode: Mode)
    requires EndsLine(a) && i < |a|
    ensures Step(a + b, i, mode) == Step(a, i, mode)
    ensures var (n, next, takes) := Step(a, i, mode);
            n > 0 && i + n <= |a| && (i + n == |a| ==> next != InLine)
            && (if takes then n == 1 else Newlines(a[i..]) == Newlines(a[i + n..]))
  {
    var s := a + b;
    assert forall k :: 0 <= k < |a| ==> s[k] == a[k];
    var (n, next, takes) := Step(a, i, mode);
    if !takes {
      assert a[i] != '\n' && (n == 2 ==> a[i + 1] != '\n');
      assert a[i..][1..] == a[i + 1..] && (n == 2 ==> a[i + 1..][1..] == a[i + 2..]);
    }
  }

  lemma BehindNewline(a: string, b: string)
    ensures SameFrom(a + b, a + "\n" + b, |a|, 1)
  {
  }

  lemma NewlineItself(a: string, b: string, mode: Mode)
    requires mode != InLine
    ensures Survives(a + "\n" + b, |a|, mode) == "\n" + Survives(a + b, |a|, mode)
  {
    hide Survives, Kept, SameFrom;
    var s, t := a + b, a + "\n" + b;
    assert t[|a|] == '\n';
    SurvivesSteps(t, |a|, mode);
    assert Step(t, |a|, mode) == (1, mode, true);
    BehindNewline(a, b);
    SurvivesShifted(s, t, |a|, 1, mode);
  }

  /** A newline put in where a line begins survives there, whatever the lexer was in. */
  lemma {:induction false} NewlineSurvives(a: string, b: string, i: nat, mode: Mode) returns (x: string, y: string)
    requires EndsLine(a) && i <= |a| && (i == |a| ==> mode != InLine)
    ensures Survives(a + b, i, mode) == x + y
    ensures Survives(a + "\n" + b, i, mode) == x + ("\n" + y)
    ensures Newlines(x) == Newlines(a[i..]) && (x == "" <== i == |a|) && EndsLine(x)
    decreases |a| - i
  {
    hide Survives, Kept, Step;
    if i == |a| {
      x, y := "", Survives(a + b, i, mode);
      NewlineItself(a, b, mode);
      assert x + y == y && x + ("\n" + y) == "\n" + y;
    } else {
      var (n, next, takes) := Step(a, i, mode);
      StepInPrefix(a, b, i, mode);
      StepInPrefix(a, "\n" + b, i, mode);
      Associative(a, "\n", b);
      SurvivesSteps(a + b, i, mode);
      SurvivesSteps(a + "\n" + b, i, mode);
      assert (a + b)[i] == a[i] == (a + "\n" + b)[i];
      x, y := NewlineSurvives(a, b, i + n, next);
      if takes {
        Associative([a[i]], x, y);
        Associative([a[i]], x, "\n" + y);
        OneMoreByte(a, i, x);
        x := [a[i]] + x;
      }
    }
  }

  lemma OneMoreByte(a: string, i: nat, x: string)
    requires EndsLine(a) && i < |a| && EndsLine(x) && Newlines(x) == Newlines(a[i + 1..])
    ensures EndsLine([a[i]] + x) && Newlines([a[i]] + x) == Newlines(a[i..])
  {
    assert ([a[i]] + x)[1..] == x && a[i..][1..] == a[i + 1..];
    NewlinesZero(a[i + 1..]);
    if i + 1 < |a| {
      assert a[i + 1..][|a| - i - 2] == '\n';
    }
  }

  /** Stripping comments moves what follows an inserted newline one line down. */
  lemma {:induction false} InsertedNewlineSurvives(a: string, b: string) returns (x: string, y: string)
    requires EndsLine(a)
    ensures WithoutComments(a + b) == x + y && WithoutComments(a + "\n" + b) == x + ("\n" + y)
    ensures Newlines(x) == Newlines(a) && EndsLine(x)
  {
    x, y := NewlineSurvives(a, b, 0, Code);
    assert a[0..] == a;
  }
}
