/** Byte strings and lines: the few functions of Go's `strings` package that the
    modelled code leans on, and the laws of splitting and joining lines.  A `char` stands
    for one byte. */
module Text {
  datatype Option<+T> = None | Some(value: T)

  /** strings.Split at a single byte. */
  function SplitAt(s: string, c: char): (r: seq<string>)
    ensures |r| > 0
  {
    if s == "" then [""]
    else
      var rest := SplitAt(s[1..], c);
      if s[0] == c then [""] + rest else [[s[0]] + rest[0]] + rest[1..]
  }

  /** strings.Split(s, "\n") */
  function Split(s: string): (lines: seq<string>)
    ensures |lines| > 0
  {
    SplitAt(s, '\n')
  }

  /** strings.Join(lines, "\n") */
  function Join(lines: seq<string>): string {
    if |lines| == 0 then ""
    else if |lines| == 1 then lines[0]
    else lines[0] + "\n" + Join(lines[1..])
  }

  /** Every line followed by a newline. */
  function Terminated(lines: seq<string>): string {
    if |lines| == 0 then "" else lines[0] + "\n" + Terminated(lines[1..])
  }

  /** What follows a line that has `lines` after it. */
  function Remaining(lines: seq<string>): string {
    if |lines| == 0 then "" else "\n" + Join(lines)
  }

  /** strings.Count(s, "\n") */
  function Newlines(s: string): nat {
    if s == "" then 0 else (if s[0] == '\n' then 1 else 0) + Newlines(s[1..])
  }

  predicate NewlineFree(s: string) {
    '\n' !in s
  }

  predicate AllNewlineFree(lines: seq<string>) {
    forall k :: 0 <= k < |lines| ==> NewlineFree(lines[k])
  }

  lemma ThreeJoined(a: string, b: string, c: string)
    ensures Join([a, b, c]) == a + "\n" + b + "\n" + c
  {
    assert [a, b, c][1..] == [b, c] && [b, c][1..] == [c];
    assert Join([b, c]) == b + "\n" + c;
    assert a + "\n" + (b + "\n" + c) == a + "\n" + b + "\n" + c;
  }

  lemma {:induction false} JoinConcat(a: seq<string>, b: seq<string>)
    requires |b| > 0
    ensures Join(a + b) == Terminated(a) + Join(b)
  {
    if a == [] {
      assert a + b == b;
    } else {
      JoinConcat(a[1..], b);
      assert (a + b)[1..] == a[1..] + b;
    }
  }

  lemma {:induction false} JoinAround(a: seq<string>, line: string, b: seq<string>)
    ensures Join(a + [line] + b) == Terminated(a) + line + Remaining(b)
  {
    assert a + [line] + b == a + ([line] + b);
    JoinConcat(a, [line] + b);
    assert ([line] + b)[1..] == b;
  }

  lemma {:induction false} TerminatedConcat(a: seq<string>, b: seq<string>)
    ensures Terminated(a + b) == Terminated(a) + Terminated(b)
  {
    if a == [] {
      assert a + b == b;
    } else {
      var c := a + b;
      assert c[0] == a[0] && c[1..] == a[1..] + b;
      TerminatedConcat(a[1..], b);
      var line, ta, tb := a[0] + "\n", Terminated(a[1..]), Terminated(b);
      assert Terminated(c) == line + (ta + tb);
      assert line + (ta + tb) == (line + ta) + tb;
    }
  }

  /** Splitting a text and joining it again gives the text back. */
  lemma {:induction false} JoinSplit(s: string)
    ensures Join(Split(s)) == s
  {
    if s != "" {
      JoinSplit(s[1..]);
      var rest := Split(s[1..]);
      if s[0] == '\n' {
        assert Split(s)[1..] == rest;
      } else {
        assert Split(s)[1..] == rest[1..];
      }
    }
  }

  lemma {:induction false} SplitIsNewlineFree(s: string)
    ensures AllNewlineFree(Split(s))
  {
    if s != "" {
      SplitIsNewlineFree(s[1..]);
    }
  }

  lemma {:induction false} SplitAtNewline(line: string, rest: string)
    requires NewlineFree(line)
    ensures Split(line) == [line]
    ensures Split(line + "\n" + rest) == [line] + Split(rest)
  {
    if line == "" {
      assert ("\n" + rest)[1..] == rest;
      assert line + "\n" + rest == "\n" + rest;
    } else {
      SplitAtNewline(line[1..], rest);
      assert (line + "\n" + rest)[1..] == line[1..] + "\n" + rest;
      assert [line[0]] + line[1..] == line;
    }
  }

  /** Joining newline-free lines and splitting again gives the lines back. */
  lemma {:induction false} SplitJoin(lines: seq<string>)
    requires |lines| > 0 && AllNewlineFree(lines)
    ensures Split(Join(lines)) == lines
  {
    if |lines| == 1 {
      SplitAtNewline(lines[0], "");
    } else {
      SplitJoin(lines[1..]);
      SplitAtNewline(lines[0], Join(lines[1..]));
    }
  }

  lemma {:induction false} NewlinesConcat(a: string, b: string)
    ensures Newlines(a + b) == Newlines(a) + Newlines(b)
  {
    if a == "" {
      assert a + b == b;
    } else {
      NewlinesConcat(a[1..], b);
      assert (a + b)[1..] == a[1..] + b;
    }
  }

  lemma {:induction false} NewlinesZero(s: string)
    ensures Newlines(s) == 0 <==> NewlineFree(s)
  {
    if s != "" {
      NewlinesZero(s[1..]);
      assert s == [s[0]] + s[1..];
    }
  }

  lemma {:induction false} SplitCount(s: string)
    ensures |Split(s)| == Newlines(s) + 1
  {
    if s != "" {
      SplitCount(s[1..]);
    }
  }

  lemma {:induction false} NewlinesTerminated(lines: seq<string>)
    requires AllNewlineFree(lines)
    ensures Newlines(Terminated(lines)) == |lines|
  {
    if lines != [] {
      NewlinesTerminated(lines[1..]);
      NewlinesZero(lines[0]);
      NewlinesConcat(lines[0] + "\n", Terminated(lines[1..]));
      NewlinesConcat(lines[0], "\n");
    }
  }

  /** strings.Index for a single byte; |s| if there is none. */
  function FirstIndex(s: string, mark: char): nat {
    if s == "" || s[0] == mark then 0 else 1 + FirstIndex(s[1..], mark)
  }

  lemma {:induction false} FirstIndexOfMark(a: string, mark: char, b: string)
    requires mark !in a
    ensures FirstIndex(a + [mark] + b, mark) == |a|
  {
    var s := a + [mark] + b;
    if a == "" {
      assert s[0] == mark;
    } else {
      FirstIndexOfMark(a[1..], mark, b);
      assert s[1..] == a[1..] + [mark] + b && s[0] == a[0];
    }
  }

  /** A mark that does not occur in the first part separates the parts. */
  lemma FirstMarkSeparates(a: string, b: string, c: string, d: string, mark: char)
    requires mark !in a && mark !in c && a + [mark] + b == c + [mark] + d
    ensures a == c && b == d
  {
    var s := a + [mark] + b;
    FirstIndexOfMark(a, mark, b);
    FirstIndexOfMark(c, mark, d);
    assert a == s[..|a|] && c == s[..|a|];
    assert b == s[|a| + 1..] && d == s[|a| + 1..];
  }

  /** The white space that TrimSpace removes, among one-byte code units. */
  predicate IsSpace(c: char) {
    c == ' ' || c == '\t' || c == '\n' || c == '\r' || c == 0x0B as char || c == 0x0C as char
  }

  /** strings.TrimSpace, on one-byte code units. */
  function TrimSpace(s: string): (r: string)
    ensures |r| <= |s|
    decreases |s|
  {
    if s == "" then ""
    else if IsSpace(s[0]) then TrimSpace(s[1..])
    else if IsSpace(s[|s| - 1]) then TrimSpace(s[..|s| - 1])
    else s
  }

  /** Nothing but blanks, tabs, line ends, vertical tabs and form feeds. */
  predicate WhiteSpace(s: string) {
    forall k :: 0 <= k < |s| ==> s[k] in [' ', '\t', '\n', '\r', 0x0B as char, 0x0C as char]
  }

  /** Trimming takes all the white space off both ends and leaves what is between. */
  lemma {:induction false} TrimSpaceIs(before: string, s: string, after: string)
    requires WhiteSpace(before) && WhiteSpace(after)
    requires s == "" || (!WhiteSpace([s[0]]) && !WhiteSpace([s[|s| - 1]]))
    ensures TrimSpace(before + s + after) == s
    decreases |before| + |after|
  {
    var whole := before + s + after;
    hide TrimSpace, WhiteSpace, IsSpace;
    if before != "" {
      FirstOrLast(before);
      assert whole[1..] == before[1..] + s + after && whole[0] == before[0];
      TrimSpaceStep(whole);
      TrimSpaceIs(before[1..], s, after);
    } else if s == "" {
      assert whole == after;
      TrimSpaceStep(after);
      if after != "" {
        FirstOrLast(after);
        assert after[1..] == after[1..] + "" + "";
        TrimSpaceIs(after[1..], "", "");
      }
    } else {
      SpaceIs(s[0]);
      SpaceIs(s[|s| - 1]);
      assert whole == s + after && whole[0] == s[0];
      TrimSpaceStep(whole);
      if after == "" {
        assert whole == s;
      } else {
        FirstOrLast(after);
        var n := |after| - 1;
        assert whole[..|whole| - 1] == "" + s + after[..n] && whole[|whole| - 1] == after[n];
        TrimSpaceIs("", s, after[..n]);
      }
    }
  }

  lemma SpaceIs(c: char)
    ensures WhiteSpace([c]) <==> IsSpace(c)
  {
    assert [c][0] == c;
  }

  /** White space without its first or last byte. */
  lemma FirstOrLast(s: string)
    requires s != "" && WhiteSpace(s)
    ensures IsSpace(s[0]) && WhiteSpace(s[1..]) && IsSpace(s[|s| - 1]) && WhiteSpace(s[..|s| - 1])
  {
    assert s[0] in [' ', '\t', '\n', '\r', 0x0B as char, 0x0C as char];
  }

  lemma TrimSpaceStep(s: string)
    ensures TrimSpace(s)
         == if s == "" then ""
            else if IsSpace(s[0]) then TrimSpace(s[1..])
            else if IsSpace(s[|s| - 1]) then TrimSpace(s[..|s| - 1])
            else s
  {
  }

  function ToLower(c: char): char {
    if 'A' <= c <= 'Z' then (c as int + 32) as char else c
  }

  /** strings.Count of a single byte. */
  function Count(s: string, c: char): nat {
    if s == "" then 0 else (if s[0] == c then 1 else 0) + Count(s[1..], c)
  }

  /** A mark that does not occur in the last part separates the parts. */
  lemma LastMarkSeparates(a: string, b: string, c: string, d: string, mark: char)
    requires mark !in b && mark !in d && a + [mark] + b == c + [mark] + d
    ensures a == c && b == d
  {
    var s := a + [mark] + b;
    assert s[|a|] == mark && s[|c|] == mark;
    assert forall k :: |a| < k < |s| ==> s[k] == b[k - |a| - 1] && s[k] in b;
    assert forall k :: |c| < k < |s| ==> s[k] == d[k - |c| - 1] && s[k] in d;
    assert |a| == |c|;
    assert a == s[..|a|] && c == s[..|c|];
    assert b == s[|a| + 1..] && d == s[|c| + 1..];
  }
}
