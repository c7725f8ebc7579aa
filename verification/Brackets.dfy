/** The hand-written bracket scanners of internal/fnptr/fnptr.go. */
module Brackets {
  // The forward scan finds the brace that closes a body, the backward scan the
  // parenthesis that opens a receiver.

  import opened Text

  /** Which brackets count. */
  datatype Kind = Braces | Parens | AllKinds

  predicate Opens(b: Kind, c: char) {
    match b
    case Braces => c == '{'
    case Parens => c == '('
    case AllKinds => c == '{' || c == '(' || c == '['
  }

  predicate Closes(b: Kind, c: char) {
    match b
    case Braces => c == '}'
    case Parens => c == ')'
    case AllKinds => c == '}' || c == ')' || c == ']'
  }

  function Delta(b: Kind, c: char): int {
    if Opens(b, c) then 1 else if Closes(b, c) then -1 else 0
  }

  /** Opening minus closing brackets in s[i..j). */
  function Depth(s: string, b: Kind, i: nat, j: nat): int
    requires j <= |s|
    decreases j
  {
    if j <= i then 0 else Depth(s, b, i, j - 1) + Delta(b, s[j - 1])
  }

  lemma {:induction false} DepthSplits(s: string, b: Kind, i: nat, k: nat, j: nat)
    requires i <= k <= j <= |s|
    ensures Depth(s, b, i, j) == Depth(s, b, i, k) + Depth(s, b, k, j)
    decreases j
  {
    if k < j {
      DepthSplits(s, b, i, k, j - 1);
    }
  }

  lemma {:induction false} DepthShifts(s: string, t: string, b: Kind, i: nat, j: nat, d: nat)
    requires i <= j <= |s| && j + d <= |t|
    requires forall k :: i <= k < j ==> s[k] == t[k + d]
    ensures Depth(s, b, i, j) == Depth(t, b, i + d, j + d)
    decreases j
  {
    if i < j {
      DepthShifts(s, t, b, i, j - 1, d);
    }
  }

  lemma {:induction false} DepthOfSlice(s: string, b: Kind, lo: nat, hi: nat, i: nat, j: nat)
    requires lo <= hi <= |s| && j <= hi - lo
    ensures Depth(s[lo..hi], b, i, j) == Depth(s, b, lo + i, lo + j)
  {
    if i < j {
      DepthShifts(s[lo..hi], s, b, i, j, lo);
    }
  }

  /** The depth behind a text is what it opens less what it closes, kind by kind. */
  lemma {:induction false} DepthIsCounts(s: string)
    ensures Depth(s, Braces, 0, |s|) == Count(s, '{') - Count(s, '}')
    ensures Depth(s, Parens, 0, |s|) == Count(s, '(') - Count(s, ')')
    ensures Depth(s, AllKinds, 0, |s|)
         == (Count(s, '{') + Count(s, '(') + Count(s, '[')) - (Count(s, '}') + Count(s, ')') + Count(s, ']'))
  {
    if s != "" {
      DepthIsCounts(s[1..]);
      FirstDepth(s, Braces);
      FirstDepth(s, Parens);
      FirstDepth(s, AllKinds);
    }
  }

  lemma {:induction false} FirstDepth(s: string, b: Kind)
    requires s != ""
    ensures Depth(s, b, 0, |s|) == Delta(b, s[0]) + Depth(s[1..], b, 0, |s| - 1)
  {
    DepthSplits(s, b, 0, 1, |s|);
    assert Depth(s, b, 0, 1) == Delta(b, s[0]) && s[1..|s|] == s[1..];
    DepthOfSlice(s, b, 1, |s|, 0, |s| - 1);
  }

  /** The close bracket at end - 1 matches the open bracket at `open`. */
  ghost predicate Matches(s: string, b: Kind, open: nat, end: nat) {
    && open + 1 < end <= |s|
    && Opens(b, s[open]) && Closes(b, s[end - 1])
    && Depth(s, b, open, end) == 0
    && forall k :: open < k < end ==> Depth(s, b, open, k) > 0
  }

  /** What a scan backward from end - 1 finds: the largest `open` from which on the
      brackets cancel. */
  ghost predicate MatchesBackward(s: string, b: Kind, open: nat, end: nat) {
    && open + 1 < end <= |s|
    && Closes(b, s[end - 1])
    && Depth(s, b, open, end) == 0
    && forall k :: open < k < end ==> Depth(s, b, k, end) < 0
  }

  /** Forward and backward matching are inverse to each other. */
  lemma {:induction false} BackwardIsForward(s: string, b: Kind, open: nat, end: nat)
    ensures Matches(s, b, open, end) <==> MatchesBackward(s, b, open, end)
  {
    if open + 1 < end <= |s| && Depth(s, b, open, end) == 0 {
      forall k | open < k < end
        ensures Depth(s, b, open, k) == -Depth(s, b, k, end)
      {
        DepthSplits(s, b, open, k, end);
      }
      DepthSplits(s, b, open, open + 1, end);
      if MatchesBackward(s, b, open, end) {
        assert Depth(s, b, open + 1, end) < 0;
        assert Depth(s, b, open, open + 1) == Delta(b, s[open]);
        assert Opens(b, s[open]);
      }
    }
  }

  /** An open bracket has at most one match, and so has a close bracket. */
  lemma {:induction false} MatchIsUnique(s: string, b: Kind, o1: nat, e1: nat, o2: nat, e2: nat)
    requires Matches(s, b, o1, e1) && Matches(s, b, o2, e2)
    ensures o1 == o2 <==> e1 == e2
  {
    BackwardIsForward(s, b, o1, e1);
    BackwardIsForward(s, b, o2, e2);
  }

  /** Brackets that cancel, never closing more than is open. */
  ghost predicate Balanced(s: string, b: Kind) {
    && Depth(s, b, 0, |s|) == 0
    && forall k :: 0 <= k <= |s| ==> Depth(s, b, 0, k) >= 0
  }

  lemma {:induction false} BodyIsBalanced(s: string, b: Kind, open: nat, end: nat)
    requires Matches(s, b, open, end)
    ensures Balanced(s[open + 1..end - 1], b)
  {
    var body := s[open + 1..end - 1];
    assert Depth(s, b, open, open + 1) == 1;
    forall k | 0 <= k <= |body| ensures Depth(body, b, 0, k) == Depth(s, b, open, open + 1 + k) - 1 {
      DepthOfSlice(s, b, open + 1, end - 1, 0, k);
      DepthSplits(s, b, open, open + 1, open + 1 + k);
    }
  }

  // ---- braceBody, braceBodyEnd ----

  /** The first open brace at or after `from` is at `open`, and end is just past the
      brace that closes it. */
  ghost predicate BodyAt(src: string, from: nat, open: nat, end: nat) {
    && from <= open && Matches(src, Braces, open, end)
    && forall k :: from <= k < open ==> src[k] != '{'
  }

  /** There is at most one such body. */
  lemma {:induction false} BodyAtIsUnique(src: string, from: nat, o1: nat, e1: nat, o2: nat, e2: nat)
    requires BodyAt(src, from, o1, e1) && BodyAt(src, from, o2, e2)
    ensures o1 == o2 && e1 == e2
  {
    MatchIsUnique(src, Braces, o1, e1, o2, e2);
  }

  ghost predicate NoBody(src: string, from: nat) {
    forall o: nat, e: nat :: !BodyAt(src, from, o, e)
  }

  lemma NeverClosed(src: string, from: nat, open: nat)
    requires from <= open < |src| && src[open] == '{'
    requires forall k :: from <= k < open ==> src[k] != '{'
    requires forall k :: open < k <= |src| ==> Depth(src, Braces, open, k) > 0
    ensures NoBody(src, from)
  {
  }

  /** The text inside the braces that open at or after `from`. */
  method BraceBody(src: string, from: nat) returns (body: string, ok: bool)
    ensures ok ==> exists o: nat, e: nat :: BodyAt(src, from, o, e) && body == src[o + 1..e - 1]
    ensures ok ==> Balanced(body, Braces)
    ensures !ok ==> NoBody(src, from)
  {
    var open := from;
    while open < |src| && src[open] != '{'
      invariant from <= open && (open <= |src| || open == from)
      invariant forall k :: from <= k < open && k < |src| ==> src[k] != '{'
    {
      open := open + 1;
    }
    if open >= |src| {
      return "", false;
    }
    var depth := 0;
    var i := open;
    while i < |src|
      invariant open <= i <= |src| && depth == Depth(src, Braces, open, i)
      invariant forall k :: open < k <= i ==> Depth(src, Braces, open, k) > 0
    {
      assert Depth(src, Braces, open, i + 1) == depth + Delta(Braces, src[i]);
      if src[i] == '{' {
        depth := depth + 1;
      } else if src[i] == '}' {
        depth := depth - 1;
        if depth == 0 {
          assert BodyAt(src, from, open, i + 1);
          BodyIsBalanced(src, Braces, open, i + 1);
          return src[open + 1..i], true;
        }
      }
      i := i + 1;
    }
    NeverClosed(src, from, open);
    return "", false;
  }

  /** The same text, and the index just past the closing brace. */
  method BraceBodyEnd(src: string, from: nat) returns (body: string, end: nat, ok: bool)
    ensures ok ==> exists o: nat :: BodyAt(src, from, o, end) && body == src[o + 1..end - 1]
    ensures ok ==> Balanced(body, Braces)
    ensures !ok ==> NoBody(src, from)
  {
    var open := from;
    while open < |src| && src[open] != '{'
      invariant from <= open && (open <= |src| || open == from)
      invariant forall k :: from <= k < open && k < |src| ==> src[k] != '{'
    {
      open := open + 1;
    }
    if open >= |src| {
      return "", 0, false;
    }
    var depth := 0;
    var i := open;
    while i < |src|
      invariant open <= i <= |src| && depth == Depth(src, Braces, open, i)
      invariant forall k :: open < k <= i ==> Depth(src, Braces, open, k) > 0
    {
      assert Depth(src, Braces, open, i + 1) == depth + Delta(Braces, src[i]);
      if src[i] == '{' {
        depth := depth + 1;
      } else if src[i] == '}' {
        depth := depth - 1;
        if depth == 0 {
          assert BodyAt(src, from, open, i + 1);
          BodyIsBalanced(src, Braces, open, i + 1);
          return src[open + 1..i], i + 1, true;
        }
      }
      i := i + 1;
    }
    NeverClosed(src, from, open);
    return "", 0, false;
  }

  // ---- parseReceiver ----

  predicate IsSpaceByte(c: char) {
    c == ' ' || c == '\t' || c == '\n' || c == '\r'
  }

  predicate IsWordByte(c: char) {
    c == '_' || 'a' <= c <= 'z' || 'A' <= c <= 'Z' || '0' <= c <= '9'
  }

  /** Where the receiver ends: just after the last byte before `at` that is not white
      space. */
  ghost predicate ReceiverEnd(s: string, at: nat, j: nat)
    requires at <= |s|
  {
    && j <= at && (j > 0 ==> !IsSpaceByte(s[j - 1]))
    && forall k :: j <= k < at ==> IsSpaceByte(s[k])
  }

  /** The longest run of word bytes that ends at j. */
  ghost predicate WordBefore(s: string, j: nat, start: nat)
    requires j <= |s|
  {
    && start <= j && (start > 0 ==> !IsWordByte(s[start - 1]))
    && forall k :: start <= k < j ==> IsWordByte(s[k])
  }

  /** parseReceiver.  `inner` stands for parseInner, which reads (receiver, cast) from
      the inside of a parenthesised receiver with regular expressions. */
  method ParseReceiver(s: string, at: nat, inner: string -> (string, string)) returns (recv: string, cast: string)
    requires at <= |s|
    ensures exists j :: ReceiverEnd(s, at, j) && Receives(s, j, inner, recv, cast)
  {
    var j := at;
    while j > 0 && IsSpaceByte(s[j - 1])
      invariant 0 <= j <= at
      invariant forall k :: j <= k < at ==> IsSpaceByte(s[k])
    {
      j := j - 1;
    }
    assert ReceiverEnd(s, at, j);
    if j == 0 {
      return "", "";
    }
    if s[j - 1] == ')' {
      var end := j;
      var depth: int := 0;
      var k: int := j - 1;
      while k >= 0
        invariant -1 <= k < end
        invariant depth == -Depth(s, Parens, k + 1, end)
        invariant forall i :: k < i < end ==> Depth(s, Parens, i, end) < 0
      {
        DepthSplits(s, Parens, k, k + 1, end);
        assert Depth(s, Parens, k, k + 1) == Delta(Parens, s[k]);
        if s[k] == ')' {
          depth := depth + 1;
        } else if s[k] == '(' {
          depth := depth - 1;
        }
        if depth == 0 {
          break;
        }
        k := k - 1;
      }
      if k < 0 {
        forall o: nat ensures !Matches(s, Parens, o, end) {
          BackwardIsForward(s, Parens, o, end);
        }
        return "", "";
      }
      BackwardIsForward(s, Parens, k, end);
      var r := inner(s[k + 1..end - 1]);
      return r.0, r.1;
    }
    var e := j;
    while j > 0 && IsWordByte(s[j - 1])
      invariant 0 <= j <= e
      invariant forall k :: j <= k < e ==> IsWordByte(s[k])
    {
      j := j - 1;
    }
    assert WordBefore(s, e, j);
    return s[j..e], "";
  }

  /** What parseReceiver answers for a receiver that ends at j: for `( ... )` what
      stands between the close parenthesis and the open one whose forward match it is,
      for a bare name the whole name, and nothing where there is neither. */
  ghost predicate Receives(s: string, j: nat, inner: string -> (string, string), recv: string, cast: string)
    requires j <= |s|
  {
    if j == 0 then recv == "" && cast == ""
    else if s[j - 1] == ')' then
      if exists o: nat :: Matches(s, Parens, o, j) then
        exists o: nat :: Matches(s, Parens, o, j) && (recv, cast) == inner(s[o + 1..j - 1])
      else recv == "" && cast == ""
    else cast == "" && exists start: nat :: WordBefore(s, j, start) && recv == s[start..j]
  }
}
