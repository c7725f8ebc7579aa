/** Two line scanners of internal/cmd/run.go: the column of a name, the first whole word
    on its line, and the line on which a definition ends, the first that leaves no brace
    open. */
module Definitions {
  import opened Text
  import opened Brackets
  import Strip
  import DefIndex

  // ---- nameColumn ----

  predicate OccursAt(txt: string, name: string, i: nat) {
    i + |name| <= |txt| && txt[i..i + |name|] == name
  }

  /** The name stands at i and is no part of a longer identifier. */
  predicate WholeWordAt(txt: string, name: string, i: nat) {
    && OccursAt(txt, name, i)
    && (i == 0 || !IsWordByte(txt[i - 1]))
    && (i + |name| >= |txt| || !IsWordByte(txt[i + |name|]))
  }

  /** strings.Index in txt[from..], counted from the start of txt. */
  method IndexFrom(txt: string, name: string, from: nat) returns (r: Option<nat>)
    requires from <= |txt|
    ensures r.Some? ==> from <= r.value && OccursAt(txt, name, r.value)
                        && forall k :: from <= k < r.value ==> !OccursAt(txt, name, k)
    ensures r.None? ==> forall k :: from <= k ==> !OccursAt(txt, name, k)
  {
    var i := from;
    while i + |name| <= |txt|
      invariant from <= i
      invariant forall k :: from <= k < i ==> !OccursAt(txt, name, k)
    {
      if txt[i..i + |name|] == name {
        return Some(i);
      }
      i := i + 1;
    }
    return None;
  }

  /** The first place where the name stands as a whole word, or -1.  Only for an empty
      name can the search run past the end of the line, which in Go stops the program:
      it does so exactly when the line has no place without an identifier byte on either
      side. */
  method NameColumn(txt: string, name: string) returns (col: int, panics: bool)
    ensures panics <==> name == "" && forall i: nat :: !WholeWordAt(txt, name, i)
    ensures !panics && col >= 0 ==>
              WholeWordAt(txt, name, col) && forall k: nat :: k < col ==> !WholeWordAt(txt, name, k)
    ensures !panics && col < 0 ==> col == -1 && forall i: nat :: !WholeWordAt(txt, name, i)
  {
    var idx := IndexFrom(txt, name, 0);
    assert name == "" ==> OccursAt(txt, name, 0);
    while idx.Some?
      invariant idx.Some? ==>
                  OccursAt(txt, name, idx.value) && forall k: nat :: k < idx.value ==> !WholeWordAt(txt, name, k)
      invariant idx.None? ==> forall k: nat :: !WholeWordAt(txt, name, k)
      invariant idx.None? ==> name != ""
      decreases if idx.Some? then |txt| + 1 - idx.value else 0
    {
      var i := idx.value;
      var before := i == 0 || !IsWordByte(txt[i - 1]);
      var after := i + |name| >= |txt| || !IsWordByte(txt[i + |name|]);
      if before && after {
        assert WholeWordAt(txt, name, i);
        return i, false;
      }
      if i + 1 > |txt| {
        return -1, true;
      }
      var next := IndexFrom(txt, name, i + 1);
      assert name == "" ==> OccursAt(txt, name, |txt|);
      idx := next;
    }
    return -1, false;
  }

  // ---- textDefEndLine ----

  const MAX_LINES := 80

  /** A '{' stands on one of the first n lines. */
  predicate OpenedIn(code: seq<string>, n: nat)
    requires n <= |code|
  {
    n > 0 && (OpenedIn(code, n - 1) || '{' in code[n - 1])
  }

  /** Line n is one the scan may end on: a brace has opened, and no more are open. */
  predicate ClosedAfter(code: seq<string>, n: nat)
    requires n < |code|
  {
    OpenedIn(code, n + 1) && DefIndex.NetDepth(code, n + 1) <= 0
  }

  /** The stripped lines from `start` on, at most MAX_LINES of them. */
  function Window(lines: seq<string>, start: nat): seq<string>
    requires 1 <= start
  {
    var from := if start - 1 <= |lines| then lines[start - 1..] else [];
    Strip.CodeLines(if |from| <= MAX_LINES then from else from[..MAX_LINES])
  }

  /** What the scan of a window that begins at line `start` answers: the first line on
      which a brace has opened and no more are open; without one, the end of a full window
      if a brace has opened, else `start`. */
  ghost predicate EndsAt(code: seq<string>, start: nat, end: nat)
    requires 1 <= start
  {
    if exists n :: 0 <= n < |code| && ClosedAfter(code, n) then
      start <= end < start + |code| && ClosedAfter(code, end - start)
      && forall n :: 0 <= n < end - start ==> !ClosedAfter(code, n)
    else end == if OpenedIn(code, |code|) then start - 1 + MAX_LINES else start
  }

  /** The line, counted from 1, on which the definition at `start` ends. */
  method TextDefEndLine(lines: seq<string>, start: nat) returns (end: nat)
    requires 1 <= start
    ensures EndsAt(Window(lines, start), start, end)
  {
    hide Window, OpenedIn, DefIndex.NetDepth, Strip.CodeOf, Count;
    ghost var code := Window(lines, start);
    ghost var n := 0;
    WindowIs(lines, start);
    var depth, hasOpened := 0, false;
    var i := start - 1;
    while i < |lines| && i < start - 1 + MAX_LINES
      invariant i == start - 1 + n && n <= |code|
      invariant depth == DefIndex.NetDepth(code, n) && hasOpened == OpenedIn(code, n)
      invariant forall m :: 0 <= m < n ==> !ClosedAfter(code, m)
    {
      var s := Strip.StripCodeLine(lines[i]);
      assert s == code[n];
      LineMore(code, n);
      depth := depth + (Count(s, '{') - Count(s, '}'));
      if '{' in s {
        hasOpened := true;
      }
      if hasOpened && depth <= 0 {
        assert ClosedAfter(code, n);
        return i + 1;
      }
      n := n + 1;
      i := i + 1;
    }
    return if hasOpened then start - 1 + MAX_LINES else start;
  }

  lemma WindowIs(lines: seq<string>, start: nat)
    requires 1 <= start
    ensures var code, rest := Window(lines, start), |lines| - (start - 1);
            && |code| == (if rest <= 0 then 0 else if rest <= 80 then rest else 80)
            && (forall n :: 0 <= n < |code| ==> code[n] == Strip.CodeOf(lines[start - 1 + n]))
            && DefIndex.NetDepth(code, 0) == 0 && !OpenedIn(code, 0)
  {
  }

  lemma LineMore(code: seq<string>, n: nat)
    requires n < |code|
    ensures DefIndex.NetDepth(code, n + 1) == DefIndex.NetDepth(code, n) + (Count(code[n], '{') - Count(code[n], '}'))
    ensures OpenedIn(code, n + 1) == (OpenedIn(code, n) || '{' in code[n])
  {
  }

  // ---- what the end line means ----

  /** Where line n begins in the text. */
  function Boundary(code: seq<string>, n: nat): nat
    requires n <= |code|
  {
    |Terminated(code[..n])|
  }

  lemma {:induction false} DepthOfConcat(a: string, b: string)
    ensures Depth(a + b, Braces, 0, |a|) == Depth(a, Braces, 0, |a|)
    ensures Depth(a + b, Braces, 0, |a + b|) == Depth(a, Braces, 0, |a|) + Depth(b, Braces, 0, |b|)
  {
    var s := a + b;
    DepthSplits(s, Braces, 0, |a|, |s|);
    DepthOfSlice(s, Braces, 0, |a|, 0, |a|);
    DepthOfSlice(s, Braces, |a|, |s|, 0, |b|);
    assert s[0..|a|] == a && s[|a|..|s|] == b;
  }

  lemma TerminatedOneMore(code: seq<string>, n: nat)
    requires n < |code|
    ensures Terminated(code[..n + 1]) == Terminated(code[..n]) + (code[n] + "\n")
  {
    assert code[..n + 1] == code[..n] + [code[n]];
    TerminatedConcat(code[..n], [code[n]]);
    assert Terminated([code[n]]) == code[n] + "\n";
  }

  /** The net braces of the first n lines are the depth of their text. */
  lemma {:induction false} NetIsDepth(code: seq<string>, n: nat)
    requires n <= |code|
    ensures DefIndex.NetDepth(code, n) == Depth(Terminated(code[..n]), Braces, 0, Boundary(code, n))
    ensures OpenedIn(code, n) <==> '{' in Terminated(code[..n])
  {
    if n > 0 {
      NetIsDepth(code, n - 1);
      TerminatedOneMore(code, n - 1);
      var line := code[n - 1];
      DepthIsCounts(line);
      DepthOfConcat(Terminated(code[..n - 1]), line + "\n");
      DepthOfConcat(line, "\n");
      assert Depth("\n", Braces, 0, 1) == 0;
    }
  }

  lemma {:induction false} PrefixOfText(code: seq<string>, n: nat)
    requires n <= |code|
    ensures Boundary(code, n) <= |Terminated(code)|
    ensures Terminated(code)[..Boundary(code, n)] == Terminated(code[..n])
    ensures DefIndex.NetDepth(code, n) == Depth(Terminated(code), Braces, 0, Boundary(code, n))
  {
    assert code == code[..n] + code[n..];
    TerminatedConcat(code[..n], code[n..]);
    NetIsDepth(code, n);
    DepthOfConcat(Terminated(code[..n]), Terminated(code[n..]));
  }

  // -- definitions without a brace --

  /** A definition whose line has no open brace, such as a macro or a one-line typedef, is
      said to span just that line exactly when no brace opens in the window behind it. */
  lemma {:induction false} SpansItsLineExactlyWhen(code: seq<string>, start: nat, end: nat)
    requires 1 <= start && code != [] && '{' !in code[0] && EndsAt(code, start, end)
    ensures end == start <==> !OpenedIn(code, |code|)
  {
    LineMore(code, 0);
    forall n | 0 <= n < |code| && ClosedAfter(code, n) ensures OpenedIn(code, |code|) {
      StaysOpened(code, n + 1, |code|);
    }
  }

  lemma {:induction false} StaysOpened(code: seq<string>, n: nat, m: nat)
    requires n <= m <= |code| && OpenedIn(code, n)
    ensures OpenedIn(code, m)
  {
    if n < m { StaysOpened(code, n, m - 1); }
  }

  // -- definitions with a body --

  /** The first open brace of the text. */
  ghost predicate FirstOpen(text: string, o: nat) {
    o < |text| && text[o] == '{' && forall k :: 0 <= k < o ==> text[k] != '{'
  }

  /** How many closing braces stand in front of the first open one. */
  function ClosedBefore(text: string, o: nat): int
    requires o <= |text|
  {
    -Depth(text, Braces, 0, o)
  }

  /** The scan may end on line n exactly when the first brace has opened by then and no more
      braces are open behind it than were closed in front of it. */
  lemma {:induction false} ClosedAfterExactly(code: seq<string>, o: nat, n: nat)
    requires n < |code| && FirstOpen(Terminated(code), o)
    ensures Boundary(code, n + 1) <= |Terminated(code)|
    ensures var (text, p) := (Terminated(code), Boundary(code, n + 1));
            ClosedAfter(code, n) <==> o < p && Depth(text, Braces, o, p) <= ClosedBefore(text, o)
  {
    var text, p := Terminated(code), Boundary(code, n + 1);
    PrefixOfText(code, n + 1);
    NetIsDepth(code, n + 1);
    if o < p {
      assert text[..p][o] == '{';
      DepthSplits(text, Braces, 0, o, p);
    }
  }

  /** At the end of every line before m on which the body at o is open, more braces are open
      than were closed in front of it. */
  ghost predicate StaysOpenUntil(code: seq<string>, o: nat, m: nat)
    requires m <= |code| && o <= |Terminated(code)|
  {
    forall n :: 0 <= n < m ==> !StopsInside(code, o, n)
  }

  predicate StopsInside(code: seq<string>, o: nat, n: nat)
    requires n < |code| && o <= |Terminated(code)|
  {
    var (text, p) := (Terminated(code), Boundary(code, n + 1));
    o < p <= |text| && Depth(text, Braces, o, p) <= ClosedBefore(text, o)
  }

  /** Ending on line m: it is the first line the scan may end on, or the last of a full
      window in which there is none. */
  lemma {:induction false} EndsOnLine(code: seq<string>, start: nat, end: nat, m: nat)
    requires 1 <= start && EndsAt(code, start, end) && m < |code| <= 80 && OpenedIn(code, m + 1)
    ensures end == start + m
       <==> (forall n :: 0 <= n < m ==> !ClosedAfter(code, n)) && (ClosedAfter(code, m) || m == 79)
  {
    StaysOpened(code, m + 1, |code|);
  }

  /** Let the first body of the text, open at o, be closed on line m of the window just
      before e.  The scan ends on line m if and only if it does not stop inside the body,
      where as many braces were closed in front of it as are open, and what follows the close
      on that line leaves open no more than were closed in front; the last line of a full
      window is its end in any case.  Where no brace was closed in front, the scan never
      stops inside. */
  lemma {:induction false} EndsOnClosingLine(code: seq<string>, start: nat, end: nat, o: nat, e: nat, m: nat)
    requires 1 <= start && EndsAt(code, start, end)
    requires BodyAt(Terminated(code), 0, o, e)
    requires m < |code| <= 80 && Boundary(code, m) < e <= Boundary(code, m + 1)
    ensures Boundary(code, m + 1) <= |Terminated(code)|
    ensures var (text, p) := (Terminated(code), Boundary(code, m + 1));
            && (end == start + m
                <==> StaysOpenUntil(code, o, m)
                     && (Depth(text, Braces, e, p) <= ClosedBefore(text, o) || m == 79))
            && (ClosedBefore(text, o) == 0 ==> StaysOpenUntil(code, o, m))
  {
    var text, p := Terminated(code), Boundary(code, m + 1);
    hide ClosedAfter, EndsAt;
    ClosedAfterExactly(code, o, m);
    DepthSplits(text, Braces, o, e, p);
    OpensBy(code, o, m);
    EndsOnLine(code, start, end, m);
    forall n | 0 <= n < m
      ensures ClosedAfter(code, n) <==> StopsInside(code, o, n)
      ensures ClosedBefore(text, o) == 0 ==> !StopsInside(code, o, n)
    {
      ClosedAfterExactly(code, o, n);
      BoundariesGrow(code, n + 1, m);
    }
  }

  /** A first brace that stays open to the end of the window makes the end 79 lines below the
      start, even where the file has fewer lines, and where it has, nothing else does. */
  lemma {:induction false} UnclosedRunsOn(code: seq<string>, start: nat, end: nat, o: nat)
    requires 1 <= start && EndsAt(code, start, end) && FirstOpen(Terminated(code), o) && |code| <= 80
    ensures StaysOpenUntil(code, o, |code|) ==> end == start + 79
    ensures |code| < 80 && end == start + 79 ==> StaysOpenUntil(code, o, |code|)
  {
    hide ClosedAfter, StopsInside;
    OpenedSomewhere(code, o);
    forall n | 0 <= n < |code| ensures ClosedAfter(code, n) <==> StopsInside(code, o, n) {
      StopsWhereClosed(code, o, n);
    }
  }

  lemma {:induction false} StopsWhereClosed(code: seq<string>, o: nat, n: nat)
    requires n < |code| && FirstOpen(Terminated(code), o)
    ensures ClosedAfter(code, n) <==> StopsInside(code, o, n)
  {
    ClosedAfterExactly(code, o, n);
  }

  lemma {:induction false} OpenedSomewhere(code: seq<string>, o: nat)
    requires FirstOpen(Terminated(code), o)
    ensures OpenedIn(code, |code|)
  {
    var n := |code|;
    assert code[..n] == code && n > 0;
    OpensBy(code, o, n - 1);
  }

  lemma OpensBy(code: seq<string>, o: nat, m: nat)
    requires m < |code| && FirstOpen(Terminated(code), o) && o < Boundary(code, m + 1)
    ensures OpenedIn(code, m + 1)
  {
    PrefixOfText(code, m + 1);
    NetIsDepth(code, m + 1);
    assert Terminated(code)[..Boundary(code, m + 1)][o] == '{';
  }

  // -- where the scan misses the end --

  lemma {:induction false} CountConcat(a: string, b: string, c: char)
    ensures Count(a + b, c) == Count(a, c) + Count(b, c)
  {
    if a == "" {
      assert a + b == b;
    } else {
      assert (a + b)[1..] == a[1..] + b;
      CountConcat(a[1..], b, c);
    }
  }

  lemma {:induction false} CountNone(s: string, c: char)
    requires c !in s
    ensures Count(s, c) == 0
  {
    if s != "" {
      CountNone(s[1..], c);
    }
  }

  /** A line with at most one brace. */
  lemma OneBrace(a: string, b: string, c: string)
    requires '{' !in a + c && '}' !in a + c && b in ["{", "}", ""]
    ensures Count(a + b + c, '{') == (if b == "{" then 1 else 0) && ('{' in a + b + c <==> b == "{")
    ensures Count(a + b + c, '}') == if b == "}" then 1 else 0
  {
    forall d | d == '{' || d == '}' ensures Count(a + b + c, d) == if b == [d] then 1 else 0 {
      assert d !in a by { assert forall x :: x in a ==> x in a + c; }
      assert d !in c by { assert forall x :: x in c ==> x in a + c; }
      CountConcat(a + b, c, d);
      CountConcat(a, b, d);
      CountNone(a, d);
      CountNone(c, d);
      assert b != "" ==> b[1..] == "";
    }
  }

  /** Three lines: what the scan has counted after each. */
  lemma ThreeLines(a: string, b: string, c: string)
    ensures var code := [a, b, c];
            && DefIndex.NetDepth(code, 1) == Count(a, '{') - Count(a, '}')
            && DefIndex.NetDepth(code, 2) == DefIndex.NetDepth(code, 1) + (Count(b, '{') - Count(b, '}'))
            && DefIndex.NetDepth(code, 3) == DefIndex.NetDepth(code, 2) + (Count(c, '{') - Count(c, '}'))
            && OpenedIn(code, 1) == ('{' in a)
            && OpenedIn(code, 2) == (OpenedIn(code, 1) || '{' in b)
            && OpenedIn(code, 3) == (OpenedIn(code, 2) || '{' in c)
  {
    hide Count;
    LineMore([a, b, c], 0);
    LineMore([a, b, c], 1);
    LineMore([a, b, c], 2);
  }

  /** A macro in front of a function is said to end with the function. */
  lemma MacroRunsOn(end: nat)
    ensures EndsAt(["#define X 1", "int f() {", "}"], 1, end) <==> end == 3
  {
    hide Count, OpenedIn, DefIndex.NetDepth;
    var (a, b, c) := ("#define X 1", "int f() {", "}");
    assert a + "" + "" == a && "int f() " + "{" + "" == b && "" + "}" + "" == c;
    OneBrace(a, "", "");
    OneBrace("int f() ", "{", "");
    OneBrace("", "}", "");
    ThreeLines(a, b, c);
    assert ClosedAfter([a, b, c], 2);
  }

  /** The line that closes a typedef is said to end inside the function that follows. */
  lemma TypedefRunsOn(end: nat)
    ensures EndsAt(["} T;", "int f() {", "}"], 1, end) <==> end == 2
  {
    hide Count, OpenedIn, DefIndex.NetDepth;
    var (a, b, c) := ("} T;", "int f() {", "}");
    assert "" + "}" + " T;" == a && "int f() " + "{" + "" == b && "" + "}" + "" == c;
    OneBrace("", "}", " T;");
    OneBrace("int f() ", "{", "");
    ThreeLines(a, b, c);
    assert ClosedAfter([a, b, c], 1);
  }

  /** Where another brace opens behind the close, the first body ends on line 1, the scan on
      line 2. */
  lemma EndsTooLate(end: nat)
    ensures EndsAt(["{}{", "}", ""], 1, end) <==> end == 2
    ensures BodyAt(Terminated(["{}{", "}", ""]), 0, 0, 2)
  {
    hide Count, OpenedIn, DefIndex.NetDepth;
    var (a, b, c) := ("{}{", "}", "");
    assert "" + "{" + "" == "{" && "" + "}" + "" == "}" && "{" + "}{" == a && "}" + "{" == "}{";
    OneBrace("", "{", "");
    OneBrace("", "}", "");
    CountConcat("{", "}{", '{');
    CountConcat("}", "{", '{');
    CountConcat("{", "}{", '}');
    CountConcat("}", "{", '}');
    ThreeLines(a, b, c);
    assert ClosedAfter([a, b, c], 1);
    FirstBody([b, c]);
    assert [a, b, c][1..] == [b, c];
  }

  lemma FirstBody(rest: seq<string>)
    ensures BodyAt("{}{" + "\n" + Terminated(rest), 0, 0, 2)
  {
    var text := "{}{" + "\n" + Terminated(rest);
    assert text[0] == '{' && text[1] == '}';
    assert Depth(text, Braces, 0, 1) == 1 && Depth(text, Braces, 0, 2) == 0;
  }

  lemma {:induction false} BoundariesGrow(code: seq<string>, a: nat, b: nat)
    requires a <= b <= |code|
    ensures Boundary(code, a) <= Boundary(code, b)
    decreases b
  {
    if a < b {
      BoundariesGrow(code, a, b - 1);
      TerminatedOneMore(code, b - 1);
    }
  }
}
