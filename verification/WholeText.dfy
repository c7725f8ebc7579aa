/** Stripping a file line by line, as dispatchSites of internal/fnptr/fnptr.go does,
    against stripping its text as a whole. */
module WholeText {
  import opened Rearrangement
  import opened Text
  import opened Strip

  /** Where a byte of C text stands. */
  datatype Place = Plain | Remark | Comment | Literal(quote: char)

  /** One step of a lexer of whole texts: how many bytes it reads, where that leads, and
      whether the byte at i survives.  A newline ends everything but a block comment. */
  function Next(s: string, i: nat, place: Place): (nat, Place, bool)
    requires i < |s|
  {
    if s[i] == '\n' then (1, if place.Comment? then Comment else Plain, true)
    else
      match place
      case Plain =>
        if LineOpens(s, i) then (1, Remark, false)
        else if BlockOpens(s, i) then (2, Comment, false)
        else (1, if IsQuote(s[i]) then Literal(s[i]) else Plain, true)
      case Remark => (1, Remark, false)
      case Comment => if BlockCloses(s, i) then (2, Plain, false) else (1, Comment, false)
      case Literal(quote) =>
        if s[i] == '\\' && i + 1 < |s| && s[i + 1] != '\n' then (2, place, false)
        else if s[i] == quote then (1, Plain, true)
        else (1, place, false)
  }

  /** What survives from i on. */
  function Stripped(s: string, i: nat, place: Place): string
    decreases |s| - i
  {
    if i >= |s| then ""
    else
      var (n, next, takes) := Next(s, i, place);
      (if takes then [s[i]] else "") + Stripped(s, i + n, next)
  }

  /** Where the text ends. */
  function EndOf(s: string, i: nat, place: Place): Place
    decreases |s| - i
  {
    if i >= |s| then place
    else
      var (n, next, takes) := Next(s, i, place);
      EndOf(s, i + n, next)
  }

  /** Where the line behind one that ends there begins. */
  function Behind(end: Place): Place {
    if end.Comment? then Comment else Plain
  }

  /** Where the line behind a line begins. */
  function Carried(line: string, place: Place): Place {
    Behind(EndOf(line, 0, place))
  }

  /** Where line k begins. */
  function PlaceOf(lines: seq<string>, k: nat, place: Place): Place
    requires k < |lines|
  {
    if k == 0 then place else PlaceOf(lines[1..], k - 1, Carried(lines[0], place))
  }

  /** The lines of the text stripped as a whole. */
  function WholeLines(lines: seq<string>, place: Place): (r: seq<string>)
    ensures |r| == |lines|
  {
    if lines == [] then []
    else [Stripped(lines[0], 0, place)] + WholeLines(lines[1..], Carried(lines[0], place))
  }

  lemma {:induction false} WholeLineAt(lines: seq<string>, k: nat, place: Place)
    requires k < |lines|
    ensures WholeLines(lines, place)[k] == Stripped(lines[k], 0, PlaceOf(lines, k, place))
  {
    if k > 0 {
      WholeLineAt(lines[1..], k - 1, Carried(lines[0], place));
    }
  }

  // ---- the text and its lines ----

  lemma StrippedStep(s: string, i: nat, place: Place)
    requires i < |s|
    ensures var (n, next, takes) := Next(s, i, place);
            && n > 0 && i + n <= |s| && EndOf(s, i, place) == EndOf(s, i + n, next)
            && Stripped(s, i, place) == (if takes then [s[i]] else "") + Stripped(s, i + n, next)
  {
  }

  lemma NothingStripped(s: string, place: Place)
    ensures Stripped(s, |s|, place) == "" && EndOf(s, |s|, place) == place
  {
  }

  lemma NextShifted(s: string, t: string, i: nat, d: nat, place: Place)
    requires SameFrom(s, t, i, d) && i < |s|
    ensures i + d < |t| && t[i + d] == s[i] && Next(t, i + d, place) == Next(s, i, place)
  {
    assert i + 1 < |s| ==> t[i + 1 + d] == s[i + 1];
  }

  /** What survives depends on the bytes that follow only. */
  lemma {:induction false} StrippedShifted(s: string, t: string, i: nat, d: nat, place: Place)
    requires SameFrom(s, t, i, d) && i <= |s|
    ensures Stripped(t, i + d, place) == Stripped(s, i, place)
    decreases |s| - i
  {
    hide *;
    SameLater(s, t, i, 0, d);
    if i == |s| {
      NothingStripped(s, place);
      NothingStripped(t, place);
    } else {
      NextShifted(s, t, i, d, place);
      StrippedStep(s, i, place);
      StrippedStep(t, i + d, place);
      var (n, next, takes) := Next(s, i, place);
      SameLater(s, t, i, n, d);
      StrippedShifted(s, t, i + n, d, next);
    }
  }

  /** No step of a line looks past its end. */
  lemma StepInLine(line: string, rest: string, i: nat, place: Place)
    requires NewlineFree(line) && i < |line|
    ensures Next(line + "\n" + rest, i, place) == Next(line, i, place) && i + Next(line, i, place).0 <= |line|
    ensures (line + "\n" + rest)[i] == line[i]
  {
    var s := line + "\n" + rest;
    assert s[i] == line[i] && s[i] in line && s[i + 1] == if i + 1 < |line| then line[i + 1] else '\n';
    assert i + 1 < |line| ==> line[i + 1] in line;
  }

  lemma NewlineKept(line: string, rest: string, place: Place)
    ensures Stripped(line + "\n" + rest, |line|, place) == "\n" + Stripped(rest, 0, Behind(place))
  {
    hide Stripped;
    var s := line + "\n" + rest;
    assert s[|line|] == '\n';
    StrippedStep(s, |line|, place);
    StrippedShifted(rest, s, 0, |line| + 1, Behind(place));
  }

  /** A line, its newline, and the rest. */
  lemma {:induction false} LineThenRest(line: string, rest: string, i: nat, place: Place)
    requires NewlineFree(line) && i <= |line|
    ensures Stripped(line + "\n" + rest, i, place)
         == Stripped(line, i, place) + ("\n" + Stripped(rest, 0, Behind(EndOf(line, i, place))))
    decreases |line| - i
  {
    hide *;
    if i == |line| {
      NothingStripped(line, place);
      NewlineKept(line, rest, place);
    } else {
      StepInLine(line, rest, i, place);
      StrippedStep(line, i, place);
      StrippedStep(line + "\n" + rest, i, place);
      var (n, next, takes) := Next(line, i, place);
      LineThenRest(line, rest, i + n, next);
      Associative(if takes then [line[i]] else "", Stripped(line, i + n, next),
                  "\n" + Stripped(rest, 0, Behind(EndOf(line, i, place))));
    }
  }

  lemma {:induction false} WholeIsLines(lines: seq<string>, place: Place)
    requires AllNewlineFree(lines)
    ensures Stripped(Join(lines), 0, place) == Join(WholeLines(lines, place))
  {
    if |lines| > 1 {
      var next := Carried(lines[0], place);
      WholeIsLines(lines[1..], next);
      LineThenRest(lines[0], Join(lines[1..]), 0, place);
      Associative(Stripped(lines[0], 0, place), "\n", Stripped(Join(lines[1..]), 0, next));
      assert WholeLines(lines, place)[1..] == WholeLines(lines[1..], next);
    }
  }

  // ---- a line by itself ----

  /** Inside a block comment: nothing up to its close. */
  lemma {:induction false} BlockSkips(s: string, i: nat)
    requires NewlineFree(s)
    ensures Stripped(s, i, Comment)
         == match FindClose(s, i) case Some(j) => Stripped(s, j + 2, Plain) case None => ""
    decreases |s| - i
  {
    CommentByte(s, i);
    hide Stripped, FindClose, BlockCloses;
    if i < |s| && !BlockCloses(s, i) {
      BlockSkips(s, i + 1);
    }
  }

  lemma CommentByte(s: string, i: nat)
    requires NewlineFree(s)
    ensures i >= |s| ==> Stripped(s, i, Comment) == "" && FindClose(s, i) == None
    ensures i < |s| && BlockCloses(s, i) ==>
              FindClose(s, i) == Some(i) && Stripped(s, i, Comment) == Stripped(s, i + 2, Plain)
    ensures i < |s| && !BlockCloses(s, i) ==>
              FindClose(s, i) == FindClose(s, i + 1) && Stripped(s, i, Comment) == Stripped(s, i + 1, Comment)
  {
    assert i < |s| ==> s[i] in s;
  }

  lemma {:induction false} RemarkSkips(s: string, i: nat)
    requires NewlineFree(s)
    ensures Stripped(s, i, Remark) == ""
    decreases |s| - i
  {
    if i < |s| {
      assert s[i] in s;
      RemarkSkips(s, i + 1);
    }
  }

  function PlaceIn(quote: Option<char>): Place {
    if quote.Some? then Literal(quote.value) else Plain
  }

  lemma PlainByte(s: string, i: nat)
    requires i < |s| && s[i] != '\n'
    ensures LineOpens(s, i) ==> Stripped(s, i, Plain) == Stripped(s, i + 1, Remark)
    ensures BlockOpens(s, i) ==> Stripped(s, i, Plain) == Stripped(s, i + 2, Comment)
    ensures !LineOpens(s, i) && !BlockOpens(s, i) ==>
              Stripped(s, i, Plain)
              == [s[i]] + Stripped(s, i + 1, PlaceIn(if IsQuote(s[i]) then Some(s[i]) else None))
  {
    hide Stripped;
    StrippedStep(s, i, Plain);
  }

  lemma QuotedByte(s: string, i: nat, quote: char)
    requires NewlineFree(s) && i < |s| && IsQuote(quote)
    ensures Stripped(s, i, Literal(quote))
         == if s[i] == '\\' && i + 1 < |s| then Stripped(s, i + 2, Literal(quote))
            else if s[i] == quote then [s[i]] + Stripped(s, i + 1, Plain)
            else Stripped(s, i + 1, Literal(quote))
  {
    hide Stripped;
    assert s[i] in s && (i + 1 < |s| ==> s[i + 1] in s);
    StrippedStep(s, i, Literal(quote));
  }

  /** A line that begins in code is stripped as by itself. */
  lemma {:induction false} LineInCode(s: string, i: nat, quote: Option<char>)
    requires NewlineFree(s) && i <= |s| && (quote.Some? ==> IsQuote(quote.value))
    ensures Stripped(s, i, PlaceIn(quote)) == Pick(s, KeptCode(s, i, quote))
    decreases |s| - i
  {
    hide Stripped, KeptCode, Pick, FindClose;
    if i == |s| {
      NothingStripped(s, PlaceIn(quote));
      NothingPicked(s, "", i, quote);
    } else if quote.Some? {
      LiteralInCode(s, i, quote.value);
    } else {
      assert s[i] in s;
      CodeByte(s, i);
      PlainByte(s, i);
      if LineOpens(s, i) {
        RemarkSkips(s, i + 1);
        NothingPicked(s, "", i, quote);
      } else if BlockOpens(s, i) {
        BlockSkips(s, i + 2);
        if FindClose(s, i + 2).Some? {
          LineInCode(s, FindClose(s, i + 2).value + 2, None);
        } else {
          NothingPicked(s, "", i, quote);
        }
      } else {
        var next := if IsQuote(s[i]) then Some(s[i]) else None;
        LineInCode(s, i + 1, next);
        PickCons(s, i, KeptCode(s, i + 1, next));
      }
    }
  }

  lemma {:induction false} LiteralInCode(s: string, i: nat, quote: char)
    requires NewlineFree(s) && i < |s| && IsQuote(quote)
    ensures Stripped(s, i, Literal(quote)) == Pick(s, KeptCode(s, i, Some(quote)))
    decreases |s| - i, 0
  {
    hide Stripped, KeptCode, Pick;
    LiteralByte(s, i, quote);
    QuotedByte(s, i, quote);
    if s[i] == '\\' && i + 1 < |s| {
      LineInCode(s, i + 2, Some(quote));
    } else if s[i] == quote {
      LineInCode(s, i + 1, None);
      PickCons(s, i, KeptCode(s, i + 1, None));
    } else {
      LineInCode(s, i + 1, Some(quote));
    }
  }

  // ---- line by line against the whole ----

  /** Line k begins inside a block comment. */
  predicate BeginsInComment(lines: seq<string>, k: nat) {
    k < |lines| && PlaceOf(lines, k, Plain) == Comment
  }

  /** A line that begins inside a block comment keeps as code just what is behind the end
      of that comment, nothing if it does not end there. */
  predicate ReadRight(line: string) {
    CodeOf(line) == match FindClose(line, 0) case Some(j) => CodeOf(line[j + 2..]) case None => ""
  }

  lemma {:induction false} PlaceIsBlockOrCode(lines: seq<string>, k: nat, place: Place)
    requires k < |lines| && (place == Plain || place == Comment)
    ensures PlaceOf(lines, k, place) == Plain || PlaceOf(lines, k, place) == Comment
  {
    if k > 0 {
      PlaceIsBlockOrCode(lines[1..], k - 1, Carried(lines[0], place));
    }
  }

  lemma {:induction false} ReadRightExactlyWhen(line: string)
    requires NewlineFree(line)
    ensures CodeOf(line) == Stripped(line, 0, Plain)
    ensures CodeOf(line) == Stripped(line, 0, Comment) <==> ReadRight(line)
  {
    LineInCode(line, 0, None);
    BlockSkips(line, 0);
    var close := FindClose(line, 0);
    if close.Some? {
      var rest := line[close.value + 2..];
      LineInCode(rest, 0, None);
      StrippedShifted(rest, line, 0, close.value + 2, Plain);
    }
  }

  /** The text dispatchSites scans is the text stripped as a whole if and only if every
      line that begins inside a block comment happens to be read right. */
  lemma {:induction false} TextIsWholeExactlyWhen(lines: seq<string>)
    requires AllNewlineFree(lines)
    ensures Join(CodeLines(lines)) == Stripped(Join(lines), 0, Plain)
       <==> forall k: nat :: BeginsInComment(lines, k) ==> ReadRight(lines[k])
  {
    hide Stripped, CodeOf, ReadRight, PlaceOf, KeptCode;
    var code, whole := CodeLines(lines), WholeLines(lines, Plain);
    WholeIsLines(lines, Plain);
    forall k | 0 <= k < |lines|
      ensures code[k] == whole[k] <==> (BeginsInComment(lines, k) ==> ReadRight(lines[k]))
    {
      WholeLineAt(lines, k, Plain);
      PlaceIsBlockOrCode(lines, k, Plain);
      ReadRightExactlyWhen(lines[k]);
    }
    if Join(code) == Join(whole) && lines != [] {
      StrippedLinesAreFree(lines);
      SplitJoin(code);
      SplitJoin(whole);
    }
    assert code == whole <==> forall k :: 0 <= k < |lines| ==> code[k] == whole[k];
  }

  lemma {:induction false} StrippedLinesAreFree(lines: seq<string>)
    requires AllNewlineFree(lines)
    ensures AllNewlineFree(CodeLines(lines)) && AllNewlineFree(WholeLines(lines, Plain))
  {
    hide CodeOf, PlaceOf;
    forall k | 0 <= k < |lines|
      ensures NewlineFree(CodeLines(lines)[k]) && NewlineFree(WholeLines(lines, Plain)[k])
    {
      CodeOfNewlineFree(lines[k]);
      WholeLineAt(lines, k, Plain);
      NothingNew(lines[k], 0, PlaceOf(lines, k, Plain));
    }
  }

  lemma {:induction false} NothingNew(s: string, i: nat, place: Place)
    requires NewlineFree(s)
    ensures NewlineFree(Stripped(s, i, place))
    decreases |s| - i
  {
    if i < |s| {
      var (n, next, takes) := Next(s, i, place);
      NothingNew(s, i + n, next);
      assert s[i] in s;
    }
  }

  // ---- a comment over several lines ----

  /** Code in a comment of three lines is kept as code, arrows and all. */
  lemma {:induction false} CommentedCodeIsKept(line: string)
    requires NewlineFree(line) && NeutralFrom(line, 0) && FindClose(line, 0).None?
    ensures Join(CodeLines(["/*", line, "*/"])) == "\n" + line + "\n*/"
    ensures Stripped(Join(["/*", line, "*/"]), 0, Plain) == "\n\n"
  {
    hide NeutralFrom, FindClose, CodeOf, Stripped, Join, WholeLines, EndOf;
    var lines := ["/*", line, "*/"];
    EndsOfComment();
    LineUnchangedExactlyWhen(line);
    assert CodeLines(lines) == ["", line, "*/"];
    ThreeJoined("", line, "*/");
    assert "" + "\n" + line + "\n" + "*/" == "\n" + line + "\n*/";
    WholeIsLines(lines, Plain);
    CommentedWhole(line);
    ThreeJoined("", "", "");
    assert "" + "\n" + "" + "\n" + "" == "\n\n";
  }

  /** So the call in this comment is scanned for as a dispatch. */
  lemma {:induction false} ArrowInComment()
    ensures Join(CodeLines(["/*", "p->go();", "*/"])) == "\np->go();\n*/"
    ensures Stripped(Join(["/*", "p->go();", "*/"]), 0, Plain) == "\n\n"
  {
    hide CodeOf, Stripped, Join;
    var line := "p->go();";
    assert NeutralFrom(line, 4) by { assert NeutralFrom(line, 8) && NeutralFrom(line, 6); }
    assert NeutralFrom(line, 2);
    assert FindClose(line, 4) == None by { assert FindClose(line, 8) == None && FindClose(line, 6) == None; }
    assert FindClose(line, 2) == None;
    CommentedCodeIsKept(line);
    assert "\n" + line + "\n*/" == "\np->go();\n*/";
  }

  lemma {:induction false} CommentedWhole(line: string)
    requires NewlineFree(line) && FindClose(line, 0).None?
    ensures WholeLines(["/*", line, "*/"], Plain) == ["", "", ""]
  {
    hide FindClose, Stripped, EndOf;
    EndsOfComment();
    BlockSkips(line, 0);
    BlockRunsOn(line, 0);
    assert ["/*", line, "*/"][1..] == [line, "*/"] && [line, "*/"][1..] == ["*/"] && ["*/"][1..] == [];
    assert WholeLines(["*/"], Comment) == [""];
    assert WholeLines([line, "*/"], Comment) == ["", ""];
  }

  lemma {:induction false} BlockRunsOn(s: string, i: nat)
    requires NewlineFree(s) && FindClose(s, i).None?
    ensures EndOf(s, i, Comment) == Comment
    decreases |s| - i
  {
    if i < |s| {
      assert s[i] in s;
      BlockRunsOn(s, i + 1);
    }
  }

  lemma EndsOfComment()
    ensures CodeOf("/*") == "" && CodeOf("*/") == "*/"
    ensures Stripped("/*", 0, Plain) == "" && Carried("/*", Plain) == Comment
    ensures Stripped("*/", 0, Comment) == ""
  {
    assert NeutralFrom("*/", 0) by { assert NeutralFrom("*/", 2); }
    LineUnchangedExactlyWhen("*/");
    assert BlockOpens("/*", 0) && FindClose("/*", 2) == None;
    assert BlockCloses("*/", 0);
  }
}
