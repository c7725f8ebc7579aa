/** Text edits that share a start.

    LSP 3.17 lets any number of insertions share their position with one replacement
    listed after them (section "TextEdit[]").  The sort of internal/cmd/edit.go leaves
    ties in any order, so the insertions may be applied before the replacement, which
    then takes inserted text for the text it replaces.  The exact condition under which
    no order matters is proved here. */
module EditTies {
  import opened Text
  import opened Edits
  import opened EditOrder
  import opened Rearrangement

  predicate IsInsertion(e: Edit) {
    e.end == e.start
  }

  /** LSP's rule for edits that share a start: only the last listed may replace text. */
  predicate InsertionsFirst(es: seq<Edit>) {
    forall i, j :: 0 <= i < j < |es| && es[i].start == es[j].start ==> IsInsertion(es[i])
  }

  /** The insertions at one position, in list order. */
  function InsertionsAt(es: seq<Edit>, p: Position): seq<Edit> {
    if es == [] then []
    else (if IsInsertion(es[0]) && es[0].start == p then [es[0]] else []) + InsertionsAt(es[1..], p)
  }

  function Texts(es: seq<Edit>): string {
    if es == [] then "" else es[0].newText + Texts(es[1..])
  }

  /** The text `w` inserted where r starts survives r: on one line the replacement takes
      as many bytes as before, of `w` and what it was to replace; across lines it takes
      the whole of `w`. */
  predicate SwallowFree(lines: seq<string>, w: string, r: Edit)
    requires ValidEdit(lines, r)
  {
    if r.start.line == r.end.line then
      var o := lines[r.start.line][r.start.character..r.end.character];
      r.newText + (w + o)[|o|..] == w + r.newText
    else w == ""
  }

  predicate Commute(s: string, t: string) {
    s + t == t + s
  }

  /** Insertions at one position commute. */
  predicate InsertionsCommute(es: seq<Edit>) {
    forall i, j :: 0 <= i < j < |es| && IsInsertion(es[i]) && IsInsertion(es[j]) && es[i].start == es[j].start ==>
      Commute(es[i].newText, es[j].newText)
  }

  /** Every replacement leaves alone what is inserted at its start. */
  predicate NothingSwallowed(lines: seq<string>, es: seq<Edit>)
    requires AllValid(lines, es)
  {
    forall k :: 0 <= k < |es| && !IsInsertion(es[k]) ==>
      SwallowFree(lines, Texts(InsertionsAt(es, es[k].start)), es[k])
  }

  // ---- one insertion and one replacement ----

  /** What is left of `w` and the replaced text when r is applied after `w` was inserted. */
  function Leftover(lines: seq<string>, w: string, r: Edit): string
    requires ValidEdit(lines, r)
  {
    if r.start.line == r.end.line then
      var o := lines[r.start.line][r.start.character..r.end.character];
      (w + o)[|o|..]
    else ""
  }

  lemma SwallowFreeMeans(lines: seq<string>, w: string, r: Edit)
    requires ValidEdit(lines, r)
    ensures SwallowFree(lines, w, r) <==> r.newText + Leftover(lines, w, r) == w + r.newText
  {
    if r.start.line < r.end.line && r.newText + "" == w + r.newText {
      assert |w| == 0;
    }
  }

  /** The lines around the range of r, with `middle` in its place. */
  function Around(lines: seq<string>, r: Edit, middle: string): seq<string>
    requires ValidEdit(lines, r)
  {
    lines[..r.start.line]
    + [lines[r.start.line][..r.start.character] + middle + lines[r.end.line][r.end.character..]]
    + lines[r.end.line + 1..]
  }

  lemma InsertedThenReplaced(lines: seq<string>, i: Edit, r: Edit)
    requires ValidEdit(lines, r) && IsInsertion(i) && i.start == r.start
    ensures Applied(Applied(lines, i), r) == Around(lines, r, r.newText + Leftover(lines, i.newText, r))
  {
    var (l, c, w) := (i.start.line, i.start.character, i.newText);
    var mid := Applied(lines, i);
    var pre, post := lines[l][..c], lines[l][c..];
    assert mid == lines[l := pre + w + post];
    assert mid[l][..c] == pre;
    if r.end.line == l {
      var o, rest := lines[l][c..r.end.character], lines[l][r.end.character..];
      assert post == o + rest;
      CutAfter(pre, w, o, rest);
      assert mid[l][r.end.character..] == (w + o)[|o|..] + rest;
      assert pre + r.newText + ((w + o)[|o|..] + rest) == pre + (r.newText + (w + o)[|o|..]) + rest;
      assert mid[l := pre + r.newText + mid[l][r.end.character..]]
          == Around(lines, r, r.newText + Leftover(lines, w, r));
    } else {
      assert r.newText + "" == r.newText;
      assert mid[r.end.line] == lines[r.end.line];
    }
  }

  lemma CutAfter(pre: string, w: string, o: string, rest: string)
    ensures (pre + w + (o + rest))[|pre| + |o|..] == (w + o)[|o|..] + rest
  {
    assert pre + w + (o + rest) == pre + ((w + o) + rest);
  }

  lemma ReplacedThenInserted(lines: seq<string>, i: Edit, r: Edit)
    requires ValidEdit(lines, r) && IsInsertion(i) && i.start == r.start
    ensures Applied(Applied(lines, r), i) == Around(lines, r, i.newText + r.newText)
  {
    var (l, c) := (i.start.line, i.start.character);
    AppliedShape(lines, r);
    var mid := Applied(lines, r);
    var pre, rest := lines[l][..c], lines[r.end.line][r.end.character..];
    assert mid[l] == pre + r.newText + rest;
    assert mid[l][..c] == pre && mid[l][c..] == r.newText + rest;
    assert pre + i.newText + (r.newText + rest) == pre + (i.newText + r.newText) + rest;
  }

  lemma SameAround(lines: seq<string>, r: Edit, x: string, y: string)
    requires ValidEdit(lines, r) && Join(Around(lines, r, x)) == Join(Around(lines, r, y))
    ensures x == y
  {
    var a, pre := lines[..r.start.line], lines[r.start.line][..r.start.character];
    var rest, b := lines[r.end.line][r.end.character..], lines[r.end.line + 1..];
    JoinMerged(a, pre, x, rest, b);
    JoinMerged(a, pre, y, rest, b);
    Associative(Terminated(a) + pre, x, rest + Remaining(b));
    Associative(Terminated(a) + pre, y, rest + Remaining(b));
    CancelBoth(Terminated(a) + pre, x, y, rest + Remaining(b));
  }

  /** The two orders in which an insertion and a replacement at one start can be applied
      agree if and only if the replacement does not swallow the insertion. */
  lemma OrdersAgreeExactlyWhen(lines: seq<string>, i: Edit, r: Edit)
    requires ValidEdit(lines, r) && IsInsertion(i) && i.start == r.start
    ensures Applied(Applied(lines, i), r) == Applied(Applied(lines, r), i) <==> SwallowFree(lines, i.newText, r)
    ensures Join(Applied(Applied(lines, i), r)) == Join(Applied(Applied(lines, r), i)) ==>
              SwallowFree(lines, i.newText, r)
  {
    hide SwallowFree, Applied;
    InsertedThenReplaced(lines, i, r);
    ReplacedThenInserted(lines, i, r);
    SwallowFreeMeans(lines, i.newText, r);
    if Join(Applied(Applied(lines, i), r)) == Join(Applied(Applied(lines, r), i)) {
      SameAround(lines, r, r.newText + Leftover(lines, i.newText, r), i.newText + r.newText);
    }
  }

  // ---- several insertions at one position ----

  lemma TextsCons(s: seq<Edit>, e: Edit, rest: seq<Edit>)
    requires s == [e] + rest
    ensures Texts(s) == e.newText + Texts(rest)
  {
    assert s[1..] == rest;
  }

  lemma {:induction false} TextsConcat(s: seq<Edit>, t: seq<Edit>)
    ensures Texts(s + t) == Texts(s) + Texts(t)
  {
    if s == [] {
      assert s + t == t;
    } else {
      hide Texts;
      TextsCons(s, s[0], s[1..]);
      TextsCons(s + t, s[0], s[1..] + t);
      TextsConcat(s[1..], t);
      Associative(s[0].newText, Texts(s[1..]), Texts(t));
    }
  }

  lemma InsertTwice(lines: seq<string>, p: Position, x: string, w: string)
    requires ValidPosition(lines, p)
    ensures ValidPosition(Applied(lines, Edit(p, p, x)), p)
    ensures Applied(Applied(lines, Edit(p, p, x)), Edit(p, p, w)) == Applied(lines, Edit(p, p, w + x))
  {
    var pre, post := lines[p.line][..p.character], lines[p.line][p.character..];
    var mid := Applied(lines, Edit(p, p, x));
    assert mid == lines[p.line := pre + x + post];
    assert mid[p.line][..p.character] == pre && mid[p.line][p.character..] == x + post;
    assert pre + w + (x + post) == pre + (w + x) + post;
  }

  lemma InsertNothing(lines: seq<string>, p: Position)
    requires ValidPosition(lines, p)
    ensures Applied(lines, Edit(p, p, "")) == lines
  {
    var ln := lines[p.line];
    assert ln[..p.character] + "" + ln[p.character..] == ln;
  }

  /** Insertions at one position, applied one by one, are a single insertion. */
  lemma {:induction false} InsertionsMerge(lines: seq<string>, s: seq<Edit>, p: Position)
    requires ValidPosition(lines, p)
    requires forall e :: e in s ==> IsInsertion(e) && e.start == p
    ensures forall e :: e in s ==> Unsigned(e)
    ensures AppliedAll(lines, s) == Applied(lines, Edit(p, p, Texts(Reversed(s))))
    decreases |s|
  {
    if s == [] {
      InsertNothing(lines, p);
    } else {
      hide Applied;
      var x, w := s[0].newText, Texts(Reversed(s[1..]));
      assert s[0] == Edit(p, p, x);
      InsertTwice(lines, p, x, w);
      InsertionsMerge(Applied(lines, s[0]), s[1..], p);
      TextsConcat(Reversed(s[1..]), [s[0]]);
      assert Texts([s[0]]) == x + "" == x;
    }
  }

  lemma {:induction false} InsertionsAtHolds(es: seq<Edit>, p: Position)
    ensures forall e :: e in InsertionsAt(es, p) ==> e in es && IsInsertion(e) && e.start == p
    ensures forall e :: multiset(InsertionsAt(es, p))[e]
              == if IsInsertion(e) && e.start == p then multiset(es)[e] else 0
  {
    if es != [] {
      InsertionsAtHolds(es[1..], p);
      assert es == [es[0]] + es[1..];
    }
  }

  predicate TextsCommute(s: seq<Edit>) {
    forall a, b :: a in s && b in s ==> Commute(a.newText, b.newText)
  }

  lemma {:induction false} TextsMoveFront(s: seq<Edit>, k: nat)
    requires k < |s| && TextsCommute(s)
    ensures Texts(s) == s[k].newText + Texts(Without(s, k))
    decreases k
  {
    if k == 0 {
      assert Without(s, 0) == s[1..];
    } else {
      var x, y := s[0], s[k];
      assert s[1..][k - 1] == y;
      TextsMoveFront(s[1..], k - 1);
      var rest := Without(s[1..], k - 1);
      assert Without(s, k) == [x] + rest;
      assert ([x] + rest)[1..] == rest;
      assert Commute(x.newText, y.newText);
      Associative(x.newText, y.newText, Texts(rest));
      Associative(y.newText, x.newText, Texts(rest));
    }
  }

  /** Commuting texts may be put in any order. */
  lemma {:induction false} TextsRearranged(s: seq<Edit>, t: seq<Edit>)
    requires multiset(s) == multiset(t) && TextsCommute(t)
    ensures Texts(s) == Texts(t)
    decreases |s|
  {
    if s == [] {
      assert |multiset(t)| == 0;
    } else {
      var k := FindAndRemove(s, t);
      assert forall e :: e in Without(t, k) ==> e in t;
      TextsRearranged(s[1..], Without(t, k));
      TextsMoveFront(t, k);
    }
  }

  /** A part of commuting texts stands at the end as well as at the front of the whole. */
  lemma PartOfTexts(whole: seq<Edit>, part: seq<Edit>) returns (u: string)
    requires TextsCommute(whole) && multiset(part) <= multiset(whole)
    ensures Texts(whole) == u + Texts(part) == Texts(part) + u
  {
    var others := Others(whole, part);
    u := Texts(others);
    TextsConcat(part, others);
    TextsConcat(others, part);
    assert multiset(others + part) == multiset(part + others);
    TextsRearranged(part + others, whole);
    TextsRearranged(others + part, whole);
  }

  // ---- what survives as a whole survives in part ----

  function Repeat(w: string, n: nat): string {
    if n == 0 then "" else w + Repeat(w, n - 1)
  }

  lemma {:induction false} RepeatLength(w: string, n: nat)
    requires w != ""
    ensures |Repeat(w, n)| >= n
  {
    if n > 0 {
      RepeatLength(w, n - 1);
    }
  }

  lemma {:induction false} RepeatCommutes(a: string, w: string, n: nat)
    requires Commute(a, w)
    ensures Commute(a, Repeat(w, n))
  {
    if n == 0 {
      assert a + "" == a == "" + a;
    } else {
      RepeatCommutes(a, w, n - 1);
      var rest := Repeat(w, n - 1);
      Associative(a, w, rest);
      Associative(w, a, rest);
      Associative(w, rest, a);
    }
  }

  lemma BeginsMore(r: string, w: string, rest: string)
    requires r <= w + r && r <= rest
    ensures r <= w + rest
  {
    assert w + rest == (w + r) + rest[|r|..];
  }

  /** A text that begins a copy of itself behind `w` begins with as many `w` as fit. */
  lemma {:induction false} BeginsRepeated(r: string, w: string, n: nat)
    requires r <= w + r
    ensures r <= Repeat(w, n) + r
  {
    if n == 0 {
      assert "" + r == r;
    } else {
      BeginsRepeated(r, w, n - 1);
      Associative(w, Repeat(w, n - 1), r);
      BeginsMore(r, w, Repeat(w, n - 1) + r);
    }
  }

  lemma BeginsPart(r: string, w: string, a: string)
    requires r <= w + r && Commute(a, w) && |a| <= |w|
    ensures r <= a + r
  {
    if w == "" {
      assert a + r == r;
    } else {
      var n := |r|;
      var many := Repeat(w, n);
      RepeatLength(w, n);
      BeginsRepeated(r, w, n);
      RepeatCommutes(a, w, n);
      assert r == many[..n];
      assert r == (many + a)[..n];
      assert a + many == (a + r) + many[n..];
    }
  }

  lemma SurvivesInPart(o: string, r: string, u: string, a: string)
    requires Commute(u, a) && r + (u + a + o)[|o|..] == u + a + r
    ensures r + (a + o)[|o|..] == a + r
  {
    var w, s := u + a, (a + o)[|o|..];
    Associative(a, u, a);
    assert r == (w + r)[..|r|];
    BeginsPart(r, w, a);
    LastPart(o, r, u, a);
    assert a + r == (a + r)[..|r|] + (a + r)[|r|..];
  }

  lemma LastPart(o: string, r: string, u: string, a: string)
    requires r + (u + a + o)[|o|..] == u + a + r
    ensures (a + r)[|r|..] == (a + o)[|o|..]
  {
    var rest := (u + a + o)[|o|..];
    assert rest[|u|..] == (a + o)[|o|..] by {
      assert u + a + o == u + (a + o);
    }
    assert (r + rest)[|r| + |u|..] == rest[|u|..];
    assert u + a + r == u + (a + r);
  }

  /** If a replacement swallows nothing of all that is inserted at its start, it
      swallows nothing of a part of it. */
  lemma PartSurvives(lines: seq<string>, whole: seq<Edit>, part: seq<Edit>, r: Edit)
    requires ValidEdit(lines, r) && TextsCommute(whole) && multiset(part) <= multiset(whole)
    requires SwallowFree(lines, Texts(whole), r)
    ensures SwallowFree(lines, Texts(part), r)
  {
    hide Texts, TextsCommute;
    var u := PartOfTexts(whole, part);
    if r.start.line == r.end.line {
      SurvivesInPart(lines[r.start.line][r.start.character..r.end.character], r.newText, u, Texts(part));
    } else {
      assert |u + Texts(part)| == 0;
    }
  }

  // ---- a replacement moved in front of the insertions it ties with ----

  /** The first replacement that starts at p, |s| if there is none. */
  function FirstReplacement(s: seq<Edit>, p: Position): (k: nat)
    ensures k <= |s|
    ensures k < |s| ==> !IsInsertion(s[k]) && s[k].start == p
    ensures forall i :: 0 <= i < k ==> IsInsertion(s[i]) || s[i].start != p
  {
    if s == [] || (!IsInsertion(s[0]) && s[0].start == p) then 0 else 1 + FirstReplacement(s[1..], p)
  }

  /** Where the edit that must be applied first stands in a sort outcome: a replacement
      that ties with the first edit, or that edit itself. */
  function Leader(s: seq<Edit>): (k: nat)
    requires s != []
    ensures k < |s|
  {
    var k := FirstReplacement(s, s[0].start);
    if k < |s| then k else 0
  }

  /** The edits of a sort outcome with every replacement applied before the insertions
      at its start. */
  function Untied(s: seq<Edit>): seq<Edit> {
    if s == [] then []
    else
      var k := Leader(s);
      [s[k]] + s[..k] + Untied(s[k + 1..])
  }

  lemma ValidRearranged(lines: seq<string>, es: seq<Edit>, all: seq<Edit>)
    requires AllValid(lines, es) && multiset(all) == multiset(es)
    ensures AllValid(lines, all)
  {
    forall k | 0 <= k < |all| ensures ValidEdit(lines, all[k]) {
      assert all[k] in multiset(all);
      var i := MultisetIndex(es, all[k]);
    }
  }

  lemma UntiedCons(s: seq<Edit>, k: nat)
    requires s != [] && k == Leader(s)
    ensures s == (s[..k] + [s[k]]) + s[k + 1..]
    ensures Untied(s) == [s[k]] + s[..k] + Untied(s[k + 1..])
  {
    hide Leader;
  }

  lemma {:induction false} UntiedRearranges(s: seq<Edit>)
    ensures multiset(Untied(s)) == multiset(s)
    decreases |s|
  {
    if s == [] {
      assert Untied(s) == s;
    } else {
      hide *;
      var k := Leader(s);
      UntiedCons(s, k);
      UntiedRearranges(s[k + 1..]);
      LeaderRearranges(s, k, Untied(s[k + 1..]));
    }
  }

  lemma LeaderRearranges(s: seq<Edit>, k: nat, rest: seq<Edit>)
    requires k < |s| && multiset(rest) == multiset(s[k + 1..])
    ensures multiset([s[k]] + s[..k] + rest) == multiset(s)
  {
    assert s == (s[..k] + [s[k]]) + s[k + 1..];
  }

  /** Of two edits of a sort outcome, the later ends at or before the start of the
      earlier, except a replacement that follows an insertion at its start. */
  lemma EndsBefore(lines: seq<string>, s: seq<Edit>, i: nat, j: nat)
    requires AllValid(lines, s) && SortedBottomUp(s) && NonOverlapping(s) && i < j < |s|
    requires !IsInsertion(s[i]) || IsInsertion(s[j]) || s[i].start != s[j].start
    ensures AtOrBefore(s[j].end, s[i].start)
  {
    assert AtOrBefore(s[j].start, s[i].start);
    assert ValidEdit(lines, s[i]);
  }

  lemma SuffixSorts(lines: seq<string>, s: seq<Edit>, k: nat)
    requires AllValid(lines, s) && SortedBottomUp(s) && NonOverlapping(s) && k <= |s|
    ensures AllValid(lines, s[k..]) && SortedBottomUp(s[k..]) && NonOverlapping(s[k..])
  {
    var t := s[k..];
    assert forall i :: 0 <= i < |t| ==> t[i] == s[k + i];
  }

  /** The edits in front of the leader are insertions at its start. */
  lemma InsertionsBefore(s: seq<Edit>, k: nat)
    requires SortedBottomUp(s) && s != [] && k == Leader(s)
    ensures forall e :: e in s[..k] ==> IsInsertion(e) && e.start == s[k].start
  {
    forall i | 0 <= i < k ensures IsInsertion(s[i]) && s[i].start == s[k].start {
      assert AtOrBefore(s[k].start, s[i].start) && (i == 0 || AtOrBefore(s[i].start, s[0].start));
    }
  }

  lemma BottomUpParts(a: seq<Edit>, b: seq<Edit>)
    requires BottomUp(a) && BottomUp(b)
    requires forall e, f :: e in a && f in b ==> AtOrBefore(f.end, e.start)
    ensures BottomUp(a + b)
  {
    var s := a + b;
    forall i, j | 0 <= i < j < |s| ensures AtOrBefore(s[j].end, s[i].start) {
      if j < |a| {
        assert s[i] == a[i] && s[j] == a[j];
      } else if i < |a| {
        assert s[i] in a && s[j] in b;
      } else {
        assert s[i] == b[i - |a|] && s[j] == b[j - |a|];
      }
    }
  }

  lemma GroupThenRest(x: Edit, group: seq<Edit>, rest: seq<Edit>)
    requires BottomUp(rest)
    requires forall e :: e in group ==> IsInsertion(e) && e.start == x.start
    requires forall f :: f in rest ==> AtOrBefore(f.end, x.start)
    ensures BottomUp([x] + group + rest)
  {
    var front := [x] + group;
    forall i | 0 <= i < |front| ensures front[i].start == x.start && (i > 0 ==> front[i].end == x.start) {
      assert i > 0 ==> front[i] == group[i - 1] && front[i] in group;
    }
    BottomUpParts(front, rest);
  }

  lemma {:induction false} UntiedIsBottomUp(lines: seq<string>, s: seq<Edit>)
    requires AllValid(lines, s) && SortedBottomUp(s) && NonOverlapping(s)
    ensures BottomUp(Untied(s))
    decreases |s|
  {
    if s == [] {
      assert Untied(s) == [];
    } else {
      hide *;
      var k := Leader(s);
      UntiedCons(s, k);
      SuffixSorts(lines, s, k + 1);
      UntiedIsBottomUp(lines, s[k + 1..]);
      InsertionsBefore(s, k);
      RestEndsBefore(lines, s, k);
      GroupThenRest(s[k], s[..k], Untied(s[k + 1..]));
    }
  }

  lemma RestEndsBefore(lines: seq<string>, s: seq<Edit>, k: nat)
    requires AllValid(lines, s) && SortedBottomUp(s) && NonOverlapping(s) && s != [] && k == Leader(s)
    ensures forall f :: f in s[k + 1..] ==> AtOrBefore(f.end, s[k].start)
    ensures forall f :: f in Untied(s[k + 1..]) ==> AtOrBefore(f.end, s[k].start)
  {
    var rest := s[k + 1..];
    forall f | f in rest ensures AtOrBefore(f.end, s[k].start) {
      var j :| 0 <= j < |rest| && rest[j] == f;
      EndsBefore(lines, s, k, k + 1 + j);
    }
    UntiedRearranges(rest);
    assert forall f :: f in Untied(rest) ==> f in multiset(Untied(rest)) && f in multiset(rest) && f in rest;
  }

  // ---- untying changes nothing unless something is swallowed ----

  lemma FirstIsUnsigned(lines: seq<string>, es: seq<Edit>)
    requires AllUnsigned(es) && es != []
    ensures Unsigned(es[0]) && !Panics(lines, es[0])
  {
  }

  lemma {:induction false} AppliedAllConcat(lines: seq<string>, a: seq<Edit>, b: seq<Edit>)
    requires AllUnsigned(a) && AllUnsigned(b)
    ensures AllUnsigned(a + b)
    ensures AppliedAll(lines, a + b) == AppliedAll(AppliedAll(lines, a), b)
    decreases |a|
  {
    hide Unsigned, Applied;
    if a == [] {
      assert a + b == b;
    } else {
      var all := a + b;
      assert all[0] == a[0] && all[1..] == a[1..] + b;
      assert Unsigned(a[0]) && !Panics(lines, a[0]) by { FirstIsUnsigned(lines, a); }
      AppliedAllConcat(Applied(lines, a[0]), a[1..], b);
    }
  }

  lemma Regrouped(lines: seq<string>, a: seq<Edit>, b: seq<Edit>, s: seq<Edit>, t: seq<Edit>)
    requires AllUnsigned(a) && AllUnsigned(b) && AllUnsigned(s) && AllUnsigned(t)
    requires AppliedAll(lines, a) == AppliedAll(lines, b)
    requires AppliedAll(AppliedAll(lines, b), s) == AppliedAll(AppliedAll(lines, b), t)
    ensures AllUnsigned(a + s) && AllUnsigned(b + t)
    ensures AppliedAll(lines, a + s) == AppliedAll(lines, b + t)
  {
    AppliedAllConcat(lines, a, s);
    AppliedAllConcat(lines, b, t);
  }

  lemma {:induction false} OneEdit(lines: seq<string>, e: Edit)
    requires Unsigned(e)
    ensures AppliedAll(lines, [e]) == Applied(lines, e)
  {
    assert [e][1..] == [];
  }

  /** Where the lines agree with the original, the same text is swallowed. */
  lemma SameSwallowed(cur: seq<string>, orig: seq<string>, w: string, r: Edit)
    requires ValidEdit(orig, r) && AgreeBefore(cur, orig, r.end)
    ensures ValidEdit(cur, r)
    ensures SwallowFree(cur, w, r) <==> SwallowFree(orig, w, r)
  {
    AgreeEarlier(cur, orig, r.end, r.start);
    if r.start.line == r.end.line {
      var (l, c, d) := (r.start.line, r.start.character, r.end.character);
      assert cur[l][c..d] == cur[l][..d][c..] == orig[l][..d][c..] == orig[l][c..d];
    }
  }

  /** A group is its replacement and one insertion, in either order. */
  lemma {:induction false} GroupOrders(cur: seq<string>, orig: seq<string>, group: seq<Edit>, r: Edit)
    requires ValidEdit(orig, r) && AgreeBefore(cur, orig, r.end)
    requires forall e :: e in group ==> IsInsertion(e) && e.start == r.start
    ensures AllUnsigned(group + [r]) && AllUnsigned([r] + group) && ValidEdit(cur, r)
    ensures var all := Edit(r.start, r.start, Texts(Reversed(group)));
            && AppliedAll(cur, group + [r]) == Applied(Applied(cur, all), r)
            && AppliedAll(cur, [r] + group) == Applied(Applied(cur, r), all)
    ensures AgreeBefore(AppliedAll(cur, [r] + group), orig, r.start)
    ensures AgreeBefore(AppliedAll(cur, group + [r]), orig, r.start)
  {
    hide Texts;
    assert AllUnsigned(group);
    var all := Edit(r.start, r.start, Texts(Reversed(group)));
    SameSwallowed(cur, orig, "", r);
    AgreeEarlier(cur, orig, r.end, r.start);
    KeepsBefore(cur, orig, r.start, r);
    KeepsBefore(cur, orig, r.start, all);
    AgreeEarlier(Applied(cur, r), orig, r.start, r.start);
    KeepsBefore(Applied(cur, r), orig, r.start, all);
    KeepsBefore(Applied(cur, all), orig, r.start, r);
    InsertionsMerge(cur, group, r.start);
    InsertionsMerge(Applied(cur, r), group, r.start);
    hide Applied, AgreeBefore;
    AppliedAllConcat(cur, group, [r]);
    AppliedAllConcat(cur, [r], group);
    OneEdit(cur, r);
    OneEdit(AppliedAll(cur, group), r);
  }

  /** A replacement that swallows nothing may be applied before or after the insertions. */
  lemma {:induction false} GroupApplies(cur: seq<string>, orig: seq<string>, group: seq<Edit>, r: Edit)
    requires ValidEdit(orig, r) && AgreeBefore(cur, orig, r.end)
    requires forall e :: e in group ==> IsInsertion(e) && e.start == r.start
    requires SwallowFree(orig, Texts(Reversed(group)), r)
    ensures AllUnsigned(group + [r]) && AllUnsigned([r] + group)
    ensures AppliedAll(cur, group + [r]) == AppliedAll(cur, [r] + group)
    ensures AgreeBefore(AppliedAll(cur, [r] + group), orig, r.start)
  {
    hide SwallowFree, Texts, Applied;
    var all := Edit(r.start, r.start, Texts(Reversed(group)));
    GroupOrders(cur, orig, group, r);
    SameSwallowed(cur, orig, all.newText, r);
    OrdersAgreeExactlyWhen(cur, all, r);
  }

  lemma InsertionsTextsCommute(es: seq<Edit>, p: Position)
    requires InsertionsCommute(es)
    ensures TextsCommute(InsertionsAt(es, p))
  {
    InsertionsAtHolds(es, p);
    var at := InsertionsAt(es, p);
    forall a, b | a in at && b in at ensures Commute(a.newText, b.newText) {
      var i :| 0 <= i < |es| && es[i] == a;
      var j :| 0 <= j < |es| && es[j] == b;
      if i < j {
        assert Commute(es[i].newText, es[j].newText);
      } else if j < i {
        assert Commute(es[j].newText, es[i].newText);
      }
    }
  }

  /** Insertions of a part of the edits are a part of the insertions. */
  lemma PartOfInsertions(es: seq<Edit>, s: seq<Edit>, k: nat, p: Position)
    requires multiset(s) <= multiset(es) && k <= |s|
    requires forall e :: e in s[..k] ==> IsInsertion(e) && e.start == p
    ensures multiset(Reversed(s[..k])) <= multiset(InsertionsAt(es, p))
  {
    ReversedIsRearranged(s[..k]);
    InsertionsAtHolds(es, p);
    assert s == s[..k] + s[k..];
    assert multiset(s[..k]) <= multiset(s);
    forall e | e in multiset(s[..k])
      ensures multiset(s[..k])[e] <= multiset(InsertionsAt(es, p))[e]
    {
      assert e in s[..k];
    }
  }

  lemma LeaderSwallowsNothing(lines: seq<string>, es: seq<Edit>, s: seq<Edit>, k: nat)
    requires AllValid(lines, es) && InsertionsCommute(es) && NothingSwallowed(lines, es)
    requires multiset(s) <= multiset(es) && SortedBottomUp(s) && s != [] && k == Leader(s)
    ensures ValidEdit(lines, s[k])
    ensures SwallowFree(lines, Texts(Reversed(s[..k])), s[k])
  {
    assert s[k] in multiset(s);
    var j := MultisetIndex(es, s[k]);
    if k == 0 {
      SwallowFreeMeans(lines, "", s[k]);
    } else {
      hide SwallowFree, Texts, Leader;
      InsertionsBefore(s, k);
      PartOfInsertions(es, s, k, s[k].start);
      InsertionsTextsCommute(es, s[k].start);
      assert !IsInsertion(es[j]) by { LeaderReplaces(s, k); }
      PartSurvives(lines, InsertionsAt(es, s[k].start), Reversed(s[..k]), s[k]);
    }
  }

  lemma LeaderReplaces(s: seq<Edit>, k: nat)
    requires s != [] && k == Leader(s) && k > 0
    ensures !IsInsertion(s[k])
  {
  }

  lemma {:induction false} UntiedApplies(cur: seq<string>, orig: seq<string>, es: seq<Edit>, s: seq<Edit>, p: Position)
    requires AllValid(orig, es) && InsertionsCommute(es) && NothingSwallowed(orig, es)
    requires multiset(s) <= multiset(es) && AllValid(orig, s) && SortedBottomUp(s) && NonOverlapping(s)
    requires AgreeBefore(cur, orig, p) && forall e :: e in s ==> AtOrBefore(e.end, p)
    ensures AllUnsigned(s) && AllUnsigned(Untied(s))
    ensures AppliedAll(cur, s) == AppliedAll(cur, Untied(s))
    decreases |s|
  {
    if s == [] {
      assert Untied(s) == s;
    } else {
      var k := Leader(s);
      var (r, group, rest) := (s[k], s[..k], s[k + 1..]);
      hide *;
      UntiedCons(s, k);
      LeaderApplies(cur, orig, es, s, p);
      SuffixSorts(orig, s, k + 1);
      RestEndsBefore(orig, s, k);
      UntiedApplies(AppliedAll(cur, [r] + group), orig, es, rest, r.start);
      Regrouped(cur, group + [r], [r] + group, rest, Untied(rest));
    }
  }

  lemma {:induction false} LeaderApplies(cur: seq<string>, orig: seq<string>, es: seq<Edit>, s: seq<Edit>, p: Position)
    requires AllValid(orig, es) && InsertionsCommute(es) && NothingSwallowed(orig, es)
    requires multiset(s) <= multiset(es) && AllValid(orig, s) && SortedBottomUp(s) && s != []
    requires AgreeBefore(cur, orig, p) && forall e :: e in s ==> AtOrBefore(e.end, p)
    ensures var k := Leader(s); var (r, group) := (s[k], s[..k]);
            && AllUnsigned(group + [r]) && AllUnsigned([r] + group)
            && AppliedAll(cur, group + [r]) == AppliedAll(cur, [r] + group)
            && AgreeBefore(AppliedAll(cur, [r] + group), orig, r.start)
    ensures multiset(s[Leader(s) + 1..]) <= multiset(es)
  {
    hide InsertionsCommute, NothingSwallowed, AgreeBefore, Applied, AppliedAll, SwallowFree;
    var k := Leader(s);
    LeaderSwallowsNothing(orig, es, s, k);
    InsertionsBefore(s, k);
    assert s[k] in s;
    AgreeEarlier(cur, orig, p, s[k].end);
    GroupApplies(cur, orig, s[..k], s[k]);
    assert s == s[..k + 1] + s[k + 1..];
  }

  // ---- the condition is sufficient ----

  /** Insertions that commute, listed before the replacement they tie with, are in place. */
  lemma {:induction false} TiesSettle(lines: seq<string>, es: seq<Edit>)
    requires AllValid(lines, es) && InsertionsFirst(es) && InsertionsCommute(es)
    ensures Settled(ToSpans(lines, es))
  {
    var spans := ToSpans(lines, es);
    forall a, b | 0 <= a < b < |spans| && spans[a].from == spans[b].from
      ensures InPlace(spans[a], spans[b])
    {
      OffsetMonotone(lines, es[a].start, es[b].start);
      OffsetMonotone(lines, es[b].start, es[b].end);
      assert IsInsertion(es[a]);
      if IsInsertion(es[b]) {
        assert Commute(es[a].newText, es[b].newText);
      }
    }
  }

  lemma InsertionsCommuteRearranged(es: seq<Edit>, out: seq<Edit>)
    requires InsertionsCommute(es) && multiset(es) == multiset(out)
    ensures InsertionsCommute(out)
  {
    forall i, j | 0 <= i < j < |out| && IsInsertion(out[i]) && IsInsertion(out[j]) && out[i].start == out[j].start
      ensures Commute(out[i].newText, out[j].newText)
    {
      var a, b := TwoPlaces(es, out, i, j);
      if a < b {
        assert Commute(es[a].newText, es[b].newText);
      } else {
        assert Commute(es[b].newText, es[a].newText);
      }
    }
  }

  lemma NonOverlappingRearranged(es: seq<Edit>, out: seq<Edit>)
    requires NonOverlapping(es) && multiset(es) == multiset(out)
    ensures NonOverlapping(out)
  {
    forall i, j | 0 <= i < j < |out|
      ensures AtOrBefore(out[i].end, out[j].start) || AtOrBefore(out[j].end, out[i].start)
    {
      var a, b := TwoPlaces(es, out, i, j);
    }
  }

  lemma ReversedPutsInsertionsFirst(lines: seq<string>, s: seq<Edit>)
    requires AllValid(lines, s) && BottomUp(s)
    ensures InsertionsFirst(Reversed(s))
  {
    var r, n := Reversed(s), |s|;
    forall i, j | 0 <= i < j < n && r[i].start == r[j].start ensures IsInsertion(r[i]) {
      assert AtOrBefore(s[n - 1 - i].end, s[n - 1 - j].start);
      assert ValidEdit(lines, s[n - 1 - i]);
    }
  }

  /** Bottom-up application of edits whose insertions commute has LSP's meaning. */
  lemma {:induction false} BottomUpMeansLSP(lines: seq<string>, es: seq<Edit>, s: seq<Edit>)
    requires |lines| > 0 && AllValid(lines, es) && InsertionsFirst(es) && InsertionsCommute(es)
    requires BottomUp(s) && multiset(s) == multiset(es)
    ensures AllValid(lines, s)
    ensures Join(AppliedAll(lines, s)) == Meaning(lines, es)
  {
    hide BottomUp, InsertionsFirst, InsertionsCommute, Settled, AllValid;
    ValidRearranged(lines, es, s);
    BottomUpRenders(lines, s);
    ReversedIsRearranged(s);
    ValidRearranged(lines, es, Reversed(s));
    SpansRearranged(lines, Reversed(s), es);
    ReversedPutsInsertionsFirst(lines, s);
    InsertionsCommuteRearranged(es, Reversed(s));
    TiesSettle(lines, es);
    TiesSettle(lines, Reversed(s));
    RenderRearranged(Join(lines), TopDownSpans(lines, s), ToSpans(lines, es));
  }

  /** Whatever order the sort leaves, edits in LSP's form whose insertions commute and
      survive the replacements at their start mean what LSP says. */
  lemma {:induction false} SurvivingTiesMeanLSP(lines: seq<string>, es: seq<Edit>, out: seq<Edit>)
    requires |lines| > 0 && AllValid(lines, es) && NonOverlapping(es) && InsertionsFirst(es)
    requires InsertionsCommute(es) && NothingSwallowed(lines, es) && SortOutcome(es, out)
    ensures AllValid(lines, out)
    ensures Join(AppliedAll(lines, out)) == Meaning(lines, es)
  {
    hide InsertionsFirst, InsertionsCommute, NothingSwallowed, NonOverlapping;
    ValidRearranged(lines, es, out);
    NonOverlappingRearranged(es, out);
    var last := |lines| - 1;
    var p := Position(last, |lines[last]|);
    assert forall e :: e in out ==> AtOrBefore(e.end, p);
    UntiedApplies(lines, lines, es, out, p);
    UntiedIsBottomUp(lines, out);
    UntiedRearranges(out);
    BottomUpMeansLSP(lines, es, Untied(out));
  }

  // ---- the condition is necessary ----

  /** After the last edit of a sorted list that does not start before e. */
  function Place(e: Edit, s: seq<Edit>): (k: nat)
    ensures k <= |s|
    ensures forall i :: 0 <= i < k ==> AtOrBefore(e.start, s[i].start)
    ensures k < |s| ==> !AtOrBefore(e.start, s[k].start)
  {
    if s == [] || !AtOrBefore(e.start, s[0].start) then 0 else 1 + Place(e, s[1..])
  }

  lemma PlaceSorts(e: Edit, s: seq<Edit>, k: nat)
    requires SortedBottomUp(s) && k == Place(e, s)
    ensures SortedBottomUp(s[..k] + [e] + s[k..])
    ensures forall f :: f in s[k..] ==> !AtOrBefore(e.start, f.start)
  {
  }

  function Placed(e: Edit, s: seq<Edit>): seq<Edit> {
    var k := Place(e, s);
    s[..k] + [e] + s[k..]
  }

  /** The outcome of the sort in which ties are in the reverse of list order. */
  function LatestFirst(es: seq<Edit>): seq<Edit> {
    if es == [] then [] else Placed(es[0], LatestFirst(es[1..]))
  }

  lemma OutcomeIsRearranged(es: seq<Edit>, out: seq<Edit>)
    requires SortOutcome(es, out)
    ensures SortedBottomUp(out) && multiset(out) == multiset(es)
  {
  }

  lemma {:induction false} LatestFirstIsOutcome(es: seq<Edit>)
    ensures SortOutcome(es, LatestFirst(es))
  {
    if es != [] {
      LatestFirstIsOutcome(es[1..]);
      var rest := LatestFirst(es[1..]);
      var k := Place(es[0], rest);
      PlaceSorts(es[0], rest, k);
      InsertRearranges(es, rest, k);
    }
  }

  /** e can be applied at its place among edits it does not overlap, if every edit at its
      start replaces text only when e does not. */
  lemma PlaceIsBottomUp(lines: seq<string>, e: Edit, s: seq<Edit>, k: nat)
    requires ValidEdit(lines, e) && AllValid(lines, s) && BottomUp(s) && SortedBottomUp(s) && k == Place(e, s)
    requires forall f :: f in s ==> AtOrBefore(e.end, f.start) || AtOrBefore(f.end, e.start)
    requires forall f :: f in s && f.start == e.start ==> IsInsertion(e)
    ensures BottomUp(s[..k] + [e] + s[k..])
  {
    PlaceSorts(e, s, k);
    var u, v := s[..k], s[k..];
    forall f | f in u ensures AtOrBefore(e.end, f.start) {
      assert f in s && ValidEdit(lines, f);
    }
    forall f | f in v ensures AtOrBefore(f.end, e.start) {
      assert f in s && ValidEdit(lines, f);
    }
    BottomUpSplits(s, k);
    hide AtOrBefore, ValidEdit, AllValid, SortedBottomUp;
    BottomUpParts([e], v);
    BottomUpParts(u, [e] + v);
    assert u + ([e] + v) == u + [e] + v;
  }

  lemma BottomUpSplits(s: seq<Edit>, k: nat)
    requires BottomUp(s) && k <= |s|
    ensures BottomUp(s[..k]) && BottomUp(s[k..])
    ensures forall e, f :: e in s[..k] && f in s[k..] ==> AtOrBefore(f.end, e.start)
  {
    assert forall i :: 0 <= i < |s[k..]| ==> s[k..][i] == s[k + i];
  }

  lemma {:induction false} LatestFirstIsBottomUp(lines: seq<string>, es: seq<Edit>)
    requires AllValid(lines, es) && NonOverlapping(es) && InsertionsFirst(es)
    ensures AllValid(lines, LatestFirst(es)) && BottomUp(LatestFirst(es))
  {
    if es != [] {
      LatestFirstIsBottomUp(lines, es[1..]);
      LatestFirstIsOutcome(es[1..]);
      LatestFirstIsOutcome(es);
      ValidRearranged(lines, es, LatestFirst(es));
      var rest := LatestFirst(es[1..]);
      forall f | f in rest
        ensures AtOrBefore(es[0].end, f.start) || AtOrBefore(f.end, es[0].start)
        ensures f.start == es[0].start ==> IsInsertion(es[0])
      {
        assert f in multiset(rest);
        var i := MultisetIndex(es[1..], f);
        assert f == es[i + 1];
      }
      PlaceIsBottomUp(lines, es[0], rest, Place(es[0], rest));
    }
  }

  /** Listing the edits that share a start backwards and sorting stably would always mean
      what LSP says. */
  lemma {:induction false} LatestFirstMeansLSP(lines: seq<string>, es: seq<Edit>)
    requires |lines| > 0 && AllValid(lines, es) && NonOverlapping(es) && InsertionsFirst(es)
    ensures SortOutcome(es, LatestFirst(es)) && AllValid(lines, LatestFirst(es))
    ensures Join(AppliedAll(lines, LatestFirst(es))) == Meaning(lines, es)
  {
    LatestFirstIsOutcome(es);
    LatestFirstIsBottomUp(lines, es);
    BottomUpRenders(lines, LatestFirst(es));
    var s, t := TopDownSpans(lines, LatestFirst(es)), ToSpans(lines, es);
    forall i: nat ensures TextAt(s, i) == TextAt(t, i) && ResumeAt(s, i) == ResumeAt(t, i) {
      LatestFirstText(lines, es, i);
    }
    RenderSame(Join(lines), s, t, 0, 0);
  }

  lemma {:induction false} LatestFirstText(lines: seq<string>, es: seq<Edit>, i: nat)
    requires AllValid(lines, es) && AllValid(lines, LatestFirst(es))
    ensures TextAt(TopDownSpans(lines, LatestFirst(es)), i) == TextAt(ToSpans(lines, es), i)
    ensures ResumeAt(TopDownSpans(lines, LatestFirst(es)), i) == ResumeAt(ToSpans(lines, es), i)
  {
    if es == [] {
      assert TopDownSpans(lines, LatestFirst(es)) == ToSpans(lines, es);
    } else {
      var rest := LatestFirst(es[1..]);
      SpansCons(lines, es);
      assert LatestFirst(es) == Placed(es[0], rest);
      hide *;
      LatestFirstIsOutcome(es[1..]);
      OutcomeIsRearranged(es[1..], rest);
      ValidRearranged(lines, es[1..], rest);
      LatestFirstText(lines, es[1..], i);
      TextOfPlaced(lines, es[0], rest, ToSpans(lines, es[1..]), i);
    }
  }

  lemma SpansCons(lines: seq<string>, es: seq<Edit>)
    requires AllValid(lines, es) && es != []
    ensures AllValid(lines, es[1..]) && ValidEdit(lines, es[0])
    ensures ToSpans(lines, es) == [ToSpan(lines, es[0])] + ToSpans(lines, es[1..])
  {
    hide ToSpan, ValidEdit;
  }

  lemma {:induction false} TextOfPlaced(lines: seq<string>, e: Edit, s: seq<Edit>, t: seq<Span>, i: nat)
    requires AllValid(lines, s) && ValidEdit(lines, e) && SortedBottomUp(s) && AllValid(lines, Placed(e, s))
    requires TextAt(TopDownSpans(lines, s), i) == TextAt(t, i)
    requires ResumeAt(TopDownSpans(lines, s), i) == ResumeAt(t, i)
    ensures TextAt(TopDownSpans(lines, Placed(e, s)), i) == TextAt([ToSpan(lines, e)] + t, i)
    ensures ResumeAt(TopDownSpans(lines, Placed(e, s)), i) == ResumeAt([ToSpan(lines, e)] + t, i)
  {
    hide TextAt, ResumeAt, ToSpan, Place, SortedBottomUp, ValidEdit;
    var k := Place(e, s);
    PlaceSorts(e, s, k);
    SpansSplit(lines, s, k, e);
    if i == ToSpan(lines, e).from {
      NoneStarts(lines, s[k..], e);
      NothingAt(TopDownSpans(lines, s[k..]), i);
    }
    PlacedText(TopDownSpans(lines, s[k..]), ToSpan(lines, e), TopDownSpans(lines, s[..k]), t, i);
  }

  lemma SpansSplit(lines: seq<string>, s: seq<Edit>, k: nat, e: Edit)
    requires AllValid(lines, s) && ValidEdit(lines, e) && k <= |s|
    ensures AllValid(lines, s[..k]) && AllValid(lines, s[k..]) && AllValid(lines, s[..k] + [e] + s[k..])
    ensures TopDownSpans(lines, s) == TopDownSpans(lines, s[k..]) + TopDownSpans(lines, s[..k])
    ensures TopDownSpans(lines, s[..k] + [e] + s[k..])
         == TopDownSpans(lines, s[k..]) + [ToSpan(lines, e)] + TopDownSpans(lines, s[..k])
  {
    hide ValidEdit, ToSpan, Reversed;
    var t := s[..k] + [e] + s[k..];
    assert forall i :: 0 <= i < |t| ==> t[i] == if i < k then s[i] else if i == k then e else s[i - 1];
  }

  lemma NoneStarts(lines: seq<string>, s: seq<Edit>, e: Edit)
    requires AllValid(lines, s) && ValidEdit(lines, e)
    requires forall f :: f in s ==> !AtOrBefore(e.start, f.start)
    ensures var i := ToSpan(lines, e).from; NoStartIn(TopDownSpans(lines, s), i, i + 1)
  {
    var spans := TopDownSpans(lines, s);
    forall k | 0 <= k < |spans| ensures spans[k].from != ToSpan(lines, e).from {
      var f := Reversed(s)[k];
      assert f == s[|s| - 1 - k];
      OffsetMonotone(lines, f.start, e.start);
    }
  }

  lemma TextAmong(a: seq<Span>, x: Span, b: seq<Span>, i: nat)
    ensures TextAt(a + [x] + b, i) == TextAt(a, i) + (TextOf(x, i) + TextAt(b, i))
  {
    TextAtConcat(a + [x], b, i);
    TextAtConcat(a, [x], i);
    assert [x][1..] == [];
    assert TextAt([x], i) == TextOf(x, i) + "" == TextOf(x, i);
    Associative(TextAt(a, i), TextAt([x], i), TextAt(b, i));
  }

  lemma ResumeAmong(a: seq<Span>, x: Span, b: seq<Span>, i: nat)
    ensures ResumeAt(a + [x] + b, i) == ResumeAt([x] + (a + b), i)
  {
    hide ResumeAt;
    ResumeAtConcat(a, b, i);
    ResumeAtConcat(a + [x], b, i);
    ResumeAtConcat(a, [x], i);
    ResumeAtConcat([x], a + b, i);
  }

  /** x among spans that start elsewhere, and x in front of spans that insert the same. */
  lemma PlacedText(a: seq<Span>, x: Span, b: seq<Span>, t: seq<Span>, i: nat)
    requires i == x.from ==> TextAt(a, i) == ""
    requires TextAt(a + b, i) == TextAt(t, i) && ResumeAt(a + b, i) == ResumeAt(t, i)
    ensures TextAt(a + [x] + b, i) == TextAt([x] + t, i)
    ensures ResumeAt(a + [x] + b, i) == ResumeAt([x] + t, i)
  {
    hide TextAt, ResumeAt;
    TextAmong(a, x, b, i);
    TextAtConcat(a, b, i);
    SpanInFront([x] + t, x, t, i);
    ResumeAmong(a, x, b, i);
    ResumeAtConcat([x], a + b, i);
    ResumeAtConcat([x], t, i);
    if i != x.from {
      assert TextOf(x, i) + TextAt(b, i) == TextAt(b, i);
      assert TextOf(x, i) + TextAt(t, i) == TextAt(t, i);
    } else {
      assert TextAt(a, i) + (TextOf(x, i) + TextAt(b, i)) == TextOf(x, i) + TextAt(b, i);
      assert TextAt(a, i) + TextAt(b, i) == TextAt(b, i);
    }
  }

  // ---- two insertions at one position must commute ----

  lemma GroupSorts(u: seq<Edit>, x: Edit, v: seq<Edit>, group: seq<Edit>)
    requires SortedBottomUp(u + [x] + v)
    requires forall e :: e in group ==> e.start == x.start
    ensures SortedBottomUp(u + group + v)
  {
    var s, t := u + [x] + v, u + group + v;
    var (n, m) := (|u|, |group|);
    assert s[n] == x;
    forall i, j | 0 <= i < j < |t| ensures AtOrBefore(t[j].start, t[i].start) {
      var i' := if i < n then i else if i < n + m then n else i - m + 1;
      var j' := if j < n then j else if j < n + m then n else j - m + 1;
      assert t[i].start == s[i'].start by { assert n <= i < n + m ==> t[i] == group[i - n]; }
      assert t[j].start == s[j'].start by { assert n <= j < n + m ==> t[j] == group[j - n]; }
    }
  }

  lemma PairIsBottomUp(u: seq<Edit>, a: Edit, b: Edit, v: seq<Edit>)
    requires BottomUp(u + [a] + v) && IsInsertion(a) && IsInsertion(b) && a.start == b.start
    ensures BottomUp(u + [a, b] + v)
  {
    var s, t, n := u + [a] + v, u + [a, b] + v, |u|;
    assert s[n] == a && t[n] == a && t[n + 1] == b;
    forall i, j | 0 <= i < j < |t| ensures AtOrBefore(t[j].end, t[i].start) {
      var i', j' := if i <= n then i else i - 1, if j <= n then j else j - 1;
      assert t[i].start == s[i'].start && t[j].end == s[j'].end;
    }
  }

  lemma WithoutKeeps(lines: seq<string>, es: seq<Edit>, k: nat)
    requires AllValid(lines, es) && NonOverlapping(es) && InsertionsFirst(es) && k < |es|
    ensures AllValid(lines, Without(es, k)) && NonOverlapping(Without(es, k)) && InsertionsFirst(Without(es, k))
    ensures forall f :: f in Without(es, k) ==> AtOrBefore(es[k].end, f.start) || AtOrBefore(f.end, es[k].start)
  {
    var s := Without(es, k);
    assert forall i :: 0 <= i < |s| ==> s[i] == es[if i < k then i else i + 1];
  }

  /** Two insertions at one position can come out of the sort next to each other in
      either order, both times in bottom-up order. */
  lemma {:induction false} TieInEitherOrder(lines: seq<string>, es: seq<Edit>, i: nat, j: nat)
    returns (u: seq<Edit>, v: seq<Edit>)
    requires AllValid(lines, es) && NonOverlapping(es) && InsertionsFirst(es)
    requires i < j < |es| && es[i].start == es[j].start && IsInsertion(es[i]) && IsInsertion(es[j])
    ensures SortOutcome(es, u + [es[i], es[j]] + v) && BottomUp(u + [es[i], es[j]] + v)
    ensures SortOutcome(es, u + [es[j], es[i]] + v) && BottomUp(u + [es[j], es[i]] + v)
  {
    var (a, b) := (es[i], es[j]);
    u, v := PlacedApart(lines, es, i, j);
    PairRearranges(es, i, j, u, v);
    GroupSorts(u, a, v, [a, b]);
    GroupSorts(u, a, v, [b, a]);
    PairIsBottomUp(u, a, b, v);
    assert (u + [b] + v)[|u|] == b;
    assert BottomUp(u + [b] + v) by { OtherIsBottomUp(u, a, b, v); }
    PairIsBottomUp(u, b, a, v);
  }

  lemma OtherIsBottomUp(u: seq<Edit>, a: Edit, b: Edit, v: seq<Edit>)
    requires BottomUp(u + [a] + v) && IsInsertion(a) && IsInsertion(b) && a.start == b.start
    ensures BottomUp(u + [b] + v)
  {
    var s, t := u + [a] + v, u + [b] + v;
    assert forall i :: 0 <= i < |s| ==> s[i].start == t[i].start && s[i].end == t[i].end;
  }

  lemma {:induction false} PlacedApart(lines: seq<string>, es: seq<Edit>, i: nat, j: nat)
    returns (u: seq<Edit>, v: seq<Edit>)
    requires AllValid(lines, es) && NonOverlapping(es) && InsertionsFirst(es)
    requires i < j < |es| && IsInsertion(es[i])
    ensures multiset(u + v) == multiset(Without(Without(es, j), i))
    ensures SortedBottomUp(u + [es[i]] + v) && BottomUp(u + [es[i]] + v)
  {
    var most := Without(es, j);
    assert most[i] == es[i];
    WithoutKeeps(lines, es, j);
    WithoutKeeps(lines, most, i);
    hide AllValid, NonOverlapping, InsertionsFirst;
    u, v := PlacedAmong(lines, Without(most, i), es[i]);
  }

  /** An insertion takes its place among edits it does not overlap. */
  lemma {:induction false} PlacedAmong(lines: seq<string>, es: seq<Edit>, e: Edit)
    returns (u: seq<Edit>, v: seq<Edit>)
    requires AllValid(lines, es) && NonOverlapping(es) && InsertionsFirst(es)
    requires ValidEdit(lines, e) && IsInsertion(e)
    requires forall f :: f in es ==> AtOrBefore(e.end, f.start) || AtOrBefore(f.end, e.start)
    ensures multiset(u + v) == multiset(es)
    ensures SortedBottomUp(u + [e] + v) && BottomUp(u + [e] + v)
  {
    hide NonOverlapping, InsertionsFirst, LatestFirst, Place;
    var rest := LatestFirst(es);
    LatestFirstIsOutcome(es);
    LatestFirstIsBottomUp(lines, es);
    var k := Place(e, rest);
    PlaceSorts(e, rest, k);
    assert forall f :: f in rest ==> f in multiset(rest) && f in multiset(es) && f in es;
    PlaceIsBottomUp(lines, e, rest, k);
    u, v := rest[..k], rest[k..];
    assert u + v == rest;
  }

  lemma PairRearranges(es: seq<Edit>, i: nat, j: nat, u: seq<Edit>, v: seq<Edit>)
    requires i < j < |es| && multiset(u + v) == multiset(Without(Without(es, j), i))
    ensures multiset(u + [es[i], es[j]] + v) == multiset(es) == multiset(u + [es[j], es[i]] + v)
  {
    MultisetWithout(es, j);
    assert Without(es, j)[i] == es[i];
    MultisetWithout(Without(es, j), i);
    MultisetPair(u, es[i], es[j], v);
    MultisetPair(u, es[j], es[i], v);
  }

  lemma ValidParts(lines: seq<string>, u: seq<Edit>, a: Edit, b: Edit, v: seq<Edit>)
    requires AllValid(lines, u + [a, b] + v)
    ensures AllValid(lines, u) && AllValid(lines, v) && ValidEdit(lines, a) && ValidEdit(lines, b)
  {
    var all, n := u + [a, b] + v, |u|;
    assert all[n] == a && all[n + 1] == b;
    assert forall k :: 0 <= k < |u| ==> u[k] == all[k];
    assert forall k :: 0 <= k < |v| ==> v[k] == all[n + 2 + k];
  }

  lemma PartOf(lines: seq<string>, u: seq<Edit>, a: Edit, b: Edit, v: seq<Edit>, k: nat) returns (k': nat)
    requires AllValid(lines, u) && AllValid(lines, v) && AllValid(lines, u + [a, b] + v)
    requires k < |u| + |v|
    ensures k' < |u| + 2 + |v| && k' != |u|
    ensures (TopDownSpans(lines, v) + TopDownSpans(lines, u))[k] == ToSpan(lines, (u + [a, b] + v)[k'])
  {
    k' := |u| + |v| - 1 - k + if k < |v| then 2 else 0;
  }

  lemma {:induction false} AwayFromTie(lines: seq<string>, es: seq<Edit>, all: seq<Edit>, n: nat, k: nat)
    requires AllValid(lines, all) && NonOverlapping(es) && multiset(all) == multiset(es)
    requires n < |all| && k < |all| && k != n && all[n].start == all[n].end
    ensures var (s, at) := (ToSpan(lines, all[k]), ToSpan(lines, all[n]).from);
            s.to <= at || s.from >= at
  {
    var i, j := TwoPlaces(es, all, k, n);
    OffsetMonotone(lines, all[k].end, all[n].start);
    OffsetMonotone(lines, all[n].start, all[k].start);
  }

  /** Nothing else spans the position of two adjacent insertions. */
  lemma {:induction false} TieIsSwappable(lines: seq<string>, es: seq<Edit>, u: seq<Edit>, a: Edit, b: Edit,
                                          v: seq<Edit>)
    requires AllValid(lines, es) && NonOverlapping(es) && IsInsertion(a) && IsInsertion(b)
    requires multiset(u + [a, b] + v) == multiset(es) && a.start == b.start
    ensures AllValid(lines, u + [a, b] + v)
    ensures AllValid(lines, u) && AllValid(lines, v) && ValidEdit(lines, a) && ValidEdit(lines, b)
    ensures SwappablePair(TopDownSpans(lines, v), ToSpan(lines, b), ToSpan(lines, a), TopDownSpans(lines, u))
  {
    var all, n := u + [a, b] + v, |u|;
    ValidRearranged(lines, es, all);
    ValidParts(lines, u, a, b, v);
    assert all[n] == a;
    forall k | 0 <= k < |TopDownSpans(lines, v) + TopDownSpans(lines, u)|
      ensures var s := (TopDownSpans(lines, v) + TopDownSpans(lines, u))[k];
              s.to <= ToSpan(lines, b).from || s.from >= ToSpan(lines, b).from
    {
      var k' := PartOf(lines, u, a, b, v, k);
      AwayFromTie(lines, es, all, n, k');
    }
  }

  lemma {:induction false} SpansOfPair(lines: seq<string>, u: seq<Edit>, a: Edit, b: Edit, v: seq<Edit>)
    requires AllValid(lines, u + [a, b] + v) && AllValid(lines, u) && AllValid(lines, v)
    requires ValidEdit(lines, a) && ValidEdit(lines, b)
    ensures TopDownSpans(lines, u + [a, b] + v)
         == TopDownSpans(lines, v) + [ToSpan(lines, b), ToSpan(lines, a)] + TopDownSpans(lines, u)
  {
    hide ValidEdit, ToSpan, Reversed;
  }

  /** If the two orders of a tie give one text, the tie commutes. */
  lemma {:induction false} SwapMustCommute(lines: seq<string>, es: seq<Edit>, i: nat, j: nat, u: seq<Edit>,
                                           v: seq<Edit>)
    requires |lines| > 0 && AllValid(lines, es) && NonOverlapping(es)
    requires i < j < |es| && es[i].start == es[j].start && IsInsertion(es[i]) && IsInsertion(es[j])
    requires SortOutcome(es, u + [es[i], es[j]] + v) && BottomUp(u + [es[i], es[j]] + v)
    requires SortOutcome(es, u + [es[j], es[i]] + v) && BottomUp(u + [es[j], es[i]] + v)
    requires AllUnsigned(u + [es[i], es[j]] + v) && AllUnsigned(u + [es[j], es[i]] + v)
    requires Join(AppliedAll(lines, u + [es[i], es[j]] + v)) == Join(AppliedAll(lines, u + [es[j], es[i]] + v))
    ensures Commute(es[i].newText, es[j].newText)
  {
    hide SortOutcome, BottomUp, NonOverlapping, Render, AppliedAll, SwappablePair;
    var (a, b) := (es[i], es[j]);
    OutcomeIsRearranged(es, u + [a, b] + v);
    OutcomeIsRearranged(es, u + [b, a] + v);
    TieIsSwappable(lines, es, u, a, b, v);
    TieIsSwappable(lines, es, u, b, a, v);
    BottomUpRenders(lines, u + [a, b] + v);
    BottomUpRenders(lines, u + [b, a] + v);
    SpansOfPair(lines, u, a, b, v);
    SpansOfPair(lines, u, b, a, v);
    SwapVisible(Join(lines), TopDownSpans(lines, v), ToSpan(lines, b), ToSpan(lines, a), TopDownSpans(lines, u), 0);
  }

  lemma {:induction false} TieMustCommute(lines: seq<string>, es: seq<Edit>, i: nat, j: nat)
    requires |lines| > 0 && AllValid(lines, es) && NonOverlapping(es) && InsertionsFirst(es)
    requires AlwaysMeansLSP(lines, es)
    requires i < j < |es| && es[i].start == es[j].start && IsInsertion(es[i]) && IsInsertion(es[j])
    ensures Commute(es[i].newText, es[j].newText)
  {
    hide *;
    var u, v := TieInEitherOrder(lines, es, i, j);
    OutcomesAgree(lines, es, u + [es[i], es[j]] + v, u + [es[j], es[i]] + v);
    SwapMustCommute(lines, es, i, j, u, v);
  }

  // ---- a replacement must not swallow what is inserted at its start ----

  lemma {:induction false} AllKeepBefore(cur: seq<string>, orig: seq<string>, q: Position, s: seq<Edit>)
    requires AgreeBefore(cur, orig, q) && AllUnsigned(s)
    requires forall e :: e in s ==> AtOrBefore(q, e.start) && AtOrBefore(e.start, e.end)
    ensures AgreeBefore(AppliedAll(cur, s), orig, q)
    decreases |s|
  {
    if s != [] {
      assert s[0] in s && Unsigned(s[0]);
      KeepsBefore(cur, orig, q, s[0]);
      AllKeepBefore(Applied(cur, s[0]), orig, q, s[1..]);
    }
  }

  lemma PrefixKept(cur: seq<string>, orig: seq<string>, p: Position)
    requires AgreeBefore(cur, orig, p)
    ensures Offset(orig, p) <= |Join(cur)|
    ensures Join(cur)[..Offset(orig, p)] == Join(orig)[..Offset(orig, p)]
  {
    AgreeEarlier(cur, orig, p, p);
    FlatAt(cur, p);
    FlatAt(orig, p);
  }

  lemma SameSuffixSameText(a: seq<string>, b: seq<string>, orig: seq<string>, p: Position)
    requires AgreeBefore(a, orig, p) && AgreeBefore(b, orig, p)
    requires Offset(orig, p) <= |Join(a)| && Offset(orig, p) <= |Join(b)|
    requires Join(a)[Offset(orig, p)..] == Join(b)[Offset(orig, p)..]
    ensures Join(a) == Join(b)
  {
    PrefixKept(a, orig, p);
    PrefixKept(b, orig, p);
    hide AgreeBefore, Join;
    var n := Offset(orig, p);
    assert Join(a) == Join(a)[..n] + Join(a)[n..];
    assert Join(b) == Join(b)[..n] + Join(b)[n..];
  }

  /** What bottom-up edits make of two texts tells the texts apart. */
  lemma {:induction false} EditsKeepApart(a: seq<string>, b: seq<string>, orig: seq<string>, s: seq<Edit>, p: Position)
    requires AgreeBefore(a, orig, p) && AgreeBefore(b, orig, p) && AllValid(orig, s) && BottomUp(s)
    requires forall e :: e in s ==> AtOrBefore(e.end, p)
    requires Join(AppliedAll(a, s)) == Join(AppliedAll(b, s))
    ensures Join(a) == Join(b)
    decreases |s|
  {
    if s != [] {
      var e := s[0];
      assert e in s;
      StepKeepsAgreement(a, orig, p, e);
      StepKeepsAgreement(b, orig, p, e);
      hide Applied, Join, AgreeBefore, ValidEdit;
      forall f | f in s[1..] ensures AtOrBefore(f.end, e.start) {
        var k :| 0 <= k < |s[1..]| && s[1..][k] == f;
        assert s[1 + k] == f;
      }
      EditsKeepApart(Applied(a, e), Applied(b, e), orig, s[1..], e.start);
      var (n, before) := (Offset(orig, e.end), Join(orig)[..Offset(orig, e.start)]);
      Associative(before, e.newText, Join(a)[n..]);
      Associative(before, e.newText, Join(b)[n..]);
      CancelBoth(before + e.newText, Join(a)[n..], Join(b)[n..], "");
      AgreeEarlier(a, orig, p, e.end);
      AgreeEarlier(b, orig, p, e.end);
      SameSuffixSameText(a, b, orig, e.end);
    }
  }

  /** If two orders of a group give the same text in the end, the replacement of the
      group swallows nothing. */
  lemma {:induction false} GroupMustSurvive(lines: seq<string>, u: seq<Edit>, r: Edit, group: seq<Edit>, v: seq<Edit>)
    requires AllValid(lines, u) && AllValid(lines, v) && ValidEdit(lines, r) && BottomUp(v)
    requires forall e :: e in group ==> IsInsertion(e) && e.start == r.start
    requires forall e :: e in u ==> AtOrBefore(r.end, e.start)
    requires forall e :: e in v ==> AtOrBefore(e.end, r.start)
    requires AllUnsigned(u + ([r] + group) + v) && AllUnsigned(u + (group + [r]) + v)
    requires Join(AppliedAll(lines, u + ([r] + group) + v)) == Join(AppliedAll(lines, u + (group + [r]) + v))
    ensures SwallowFree(lines, Texts(Reversed(group)), r)
  {
    hide SwallowFree, Texts, Applied, BottomUp;
    var all := Edit(r.start, r.start, Texts(Reversed(group)));
    assert AllUnsigned(group) && AllUnsigned([r]) && AllUnsigned([r] + group) && AllUnsigned(group + [r]);
    var cur := AppliedAll(lines, u);
    AgreesEverywhere(lines, r.end);
    AllKeepBefore(lines, lines, r.end, u);
    AppliedAllConcat(lines, u, [r] + group);
    AppliedAllConcat(lines, u + ([r] + group), v);
    AppliedAllConcat(lines, u, group + [r]);
    AppliedAllConcat(lines, u + (group + [r]), v);
    GroupOrders(cur, lines, group, r);
    var a, b := AppliedAll(cur, [r] + group), AppliedAll(cur, group + [r]);
    EditsKeepApart(a, b, lines, v, r.start);
    OrdersAgreeExactlyWhen(cur, all, r);
    SameSwallowed(cur, lines, all.newText, r);
  }

  lemma AgreesEverywhere(lines: seq<string>, p: Position)
    requires ValidPosition(lines, p)
    ensures AgreeBefore(lines, lines, p)
  {
  }

  lemma GroupIsPart(es: seq<Edit>, j: nat, group: seq<Edit>)
    requires j < |es| && !IsInsertion(es[j]) && group == Reversed(InsertionsAt(es, es[j].start))
    ensures forall f :: IsInsertion(f) && f.start == es[j].start ==> multiset([es[j]] + group)[f] == multiset(es)[f]
    ensures multiset([es[j]] + group) <= multiset(es)
  {
    var r, at := es[j], InsertionsAt(es, es[j].start);
    ReversedIsRearranged(at);
    InsertionsAtHolds(es, r.start);
    assert multiset([r] + group) == multiset{r} + multiset(at);
    assert r in multiset(es) && multiset(at)[r] == 0;
    OneMorePart(multiset(at), multiset(es), r);
  }

  lemma OneMorePart(a: multiset<Edit>, b: multiset<Edit>, r: Edit)
    requires a <= b && a[r] == 0 && r in b
    ensures multiset{r} + a <= b
  {
  }

  lemma {:induction false} OthersOfGroup(es: seq<Edit>, j: nat, group: seq<Edit>) returns (others: seq<Edit>)
    requires j < |es| && !IsInsertion(es[j]) && group == Reversed(InsertionsAt(es, es[j].start))
    ensures multiset(es) == multiset([es[j]] + group + others)
    ensures forall f :: f in others ==> !IsInsertion(f) || f.start != es[j].start
  {
    var all := [es[j]] + group;
    GroupIsPart(es, j, group);
    others := Others(es, all);
    assert multiset(all + others) == multiset(all) + multiset(others);
    forall f | f in others && IsInsertion(f) ensures f.start != es[j].start {
      assert f in multiset(others);
      assert multiset(es)[f] == multiset(all)[f] + multiset(others)[f];
    }
  }

  lemma OthersStartElsewhere(lines: seq<string>, es: seq<Edit>, r: Edit, group: seq<Edit>, others: seq<Edit>)
    requires AllValid(lines, es) && NonOverlapping(es) && !IsInsertion(r)
    requires multiset(es) == multiset([r] + group + others)
    requires forall f :: f in others ==> !IsInsertion(f) || f.start != r.start
    ensures AllValid(lines, others) && NonOverlapping(others)
    ensures forall f :: f in others ==>
              f.start != r.start && (AtOrBefore(r.end, f.start) || AtOrBefore(f.end, r.start))
  {
    var all, n := [r] + group + others, 1 + |group|;
    ValidRearranged(lines, es, all);
    NonOverlappingRearranged(es, all);
    assert forall i :: 0 <= i < |others| ==> others[i] == all[n + i];
    forall f | f in others
      ensures f.start != r.start && (AtOrBefore(r.end, f.start) || AtOrBefore(f.end, r.start))
    {
      var i :| 0 <= i < |others| && others[i] == f;
      assert all[0] == r && all[n + i] == f;
      assert ValidEdit(lines, all[0]) && ValidEdit(lines, all[n + i]);
    }
  }

  lemma BottomUpSorts(lines: seq<string>, s: seq<Edit>)
    requires AllValid(lines, s) && BottomUp(s)
    ensures SortedBottomUp(s)
  {
    forall i, j | 0 <= i < j < |s| ensures AtOrBefore(s[j].start, s[i].start) {
      assert ValidEdit(lines, s[j]) && AtOrBefore(s[j].end, s[i].start);
    }
  }

  /** Above and below the place of r among edits it does not overlap. */
  lemma PlaceParts(lines: seq<string>, r: Edit, base: seq<Edit>, k: nat)
    requires ValidEdit(lines, r) && AllValid(lines, base) && BottomUp(base) && SortedBottomUp(base)
    requires k == Place(r, base)
    requires forall f :: f in base ==>
               f.start != r.start && (AtOrBefore(r.end, f.start) || AtOrBefore(f.end, r.start))
    ensures AllValid(lines, base[..k]) && AllValid(lines, base[k..]) && BottomUp(base[..k]) && BottomUp(base[k..])
    ensures forall f :: f in base[..k] ==> AtOrBefore(r.end, f.start)
    ensures forall f :: f in base[k..] ==> AtOrBefore(f.end, r.start)
    ensures SortedBottomUp(base[..k] + [r] + base[k..])
  {
    PlaceSorts(r, base, k);
    forall i | 0 <= i < k ensures AtOrBefore(r.end, base[i].start) {
      assert base[i] in base && ValidEdit(lines, base[i]);
    }
    var v := base[k..];
    assert forall i :: 0 <= i < |v| ==> v[i] == base[k + i];
    forall f | f in v ensures AtOrBefore(f.end, r.start) {
      assert f in base;
    }
  }

  /** Edits that do not overlap r and start elsewhere, in bottom-up order around r. */
  lemma {:induction false} AroundEdit(lines: seq<string>, r: Edit, others: seq<Edit>)
    returns (u: seq<Edit>, v: seq<Edit>)
    requires ValidEdit(lines, r) && AllValid(lines, others) && NonOverlapping(others)
    requires forall f :: f in others ==>
               f.start != r.start && (AtOrBefore(r.end, f.start) || AtOrBefore(f.end, r.start))
    ensures AllValid(lines, u) && AllValid(lines, v) && BottomUp(u) && BottomUp(v)
    ensures forall e :: e in u ==> AtOrBefore(r.end, e.start)
    ensures forall e :: e in v ==> AtOrBefore(e.end, r.start)
    ensures SortedBottomUp(u + [r] + v)
    ensures multiset(u + v) == multiset(others)
  {
    hide AllValid, NonOverlapping, SortedBottomUp, BottomUp, LatestFirst, Untied, Place, AtOrBefore, ValidEdit;
    var sorted := LatestFirst(others);
    var base := Untied(sorted);
    LatestFirstIsOutcome(others);
    NonOverlappingRearranged(others, sorted);
    ValidRearranged(lines, others, sorted);
    UntiedIsBottomUp(lines, sorted);
    UntiedRearranges(sorted);
    ValidRearranged(lines, others, base);
    BottomUpSorts(lines, base);
    assert forall f :: f in base ==> f in multiset(base) && f in multiset(others) && f in others;
    var k := Place(r, base);
    PlaceParts(lines, r, base, k);
    u, v := base[..k], base[k..];
    assert u + v == base;
  }

  /** The rest of the edits around a replacement and the insertions at its start, which
      may be applied before or after it. */
  lemma {:induction false} AroundGroup(lines: seq<string>, es: seq<Edit>, j: nat, group: seq<Edit>)
    returns (u: seq<Edit>, v: seq<Edit>)
    requires AllValid(lines, es) && NonOverlapping(es) && j < |es| && !IsInsertion(es[j])
    requires group == Reversed(InsertionsAt(es, es[j].start))
    ensures AllValid(lines, u) && AllValid(lines, v) && BottomUp(v)
    ensures forall e :: e in u ==> AtOrBefore(es[j].end, e.start)
    ensures forall e :: e in v ==> AtOrBefore(e.end, es[j].start)
    ensures SortOutcome(es, u + ([es[j]] + group) + v) && SortOutcome(es, u + (group + [es[j]]) + v)
  {
    var r := es[j];
    InsertionsAtHolds(es, r.start);
    assert forall e :: e in group ==> e in InsertionsAt(es, r.start);
    var others := OthersOfGroup(es, j, group);
    OthersStartElsewhere(lines, es, r, group, others);
    hide AllValid, NonOverlapping, SortedBottomUp, BottomUp, AtOrBefore, InsertionsAt, Reversed;
    u, v := AroundEdit(lines, r, others);
    GroupSorts(u, r, v, [r] + group);
    GroupSorts(u, r, v, group + [r]);
    GroupRearranges(u, r, group, v, others);
  }

  lemma GroupRearranges(u: seq<Edit>, r: Edit, group: seq<Edit>, v: seq<Edit>, others: seq<Edit>)
    requires multiset(u + v) == multiset(others)
    ensures multiset(u + ([r] + group) + v) == multiset([r] + group + others) == multiset(u + (group + [r]) + v)
  {
  }

  lemma OutcomesAgree(lines: seq<string>, es: seq<Edit>, a: seq<Edit>, b: seq<Edit>)
    requires AllValid(lines, es) && AlwaysMeansLSP(lines, es) && SortOutcome(es, a) && SortOutcome(es, b)
    ensures AllUnsigned(a) && AllUnsigned(b)
    ensures Join(AppliedAll(lines, a)) == Join(AppliedAll(lines, b))
  {
    hide SortOutcome, AppliedAll, Join, Meaning;
    assert AllValid(lines, a) && AllValid(lines, b);
  }

  lemma {:induction false} ReplacementMustSurvive(lines: seq<string>, es: seq<Edit>, j: nat)
    requires |lines| > 0 && AllValid(lines, es) && NonOverlapping(es) && AlwaysMeansLSP(lines, es)
    requires j < |es| && !IsInsertion(es[j])
    ensures SwallowFree(lines, Texts(InsertionsAt(es, es[j].start)), es[j])
  {
    var r, at := es[j], InsertionsAt(es, es[j].start);
    assert ValidEdit(lines, r);
    InsertionsAtHolds(es, r.start);
    hide *;
    var group := Reversed(at);
    ReversedTwice(at);
    assert forall e :: e in group ==> e in at by { InReversed(at); }
    var u, v := AroundGroup(lines, es, j, group);
    OutcomesAgree(lines, es, u + ([r] + group) + v, u + (group + [r]) + v);
    GroupMustSurvive(lines, u, r, group, v);
  }

  lemma InReversed<T>(s: seq<T>)
    ensures forall x :: x in Reversed(s) ==> x in s
  {
  }

  lemma ReversedTwice<T>(s: seq<T>)
    ensures Reversed(Reversed(s)) == s
  {
  }

  // ---- the main results ----

  /** The exact condition, for every edit list that LSP allows: the result is LSP's for
      every outcome of the unstable sort if and only if insertions at one position
      commute and no replacement swallows what is inserted at its start. */
  lemma {:induction false} LSPExactlyWhen(lines: seq<string>, es: seq<Edit>)
    requires |lines| > 0 && AllValid(lines, es) && NonOverlapping(es) && InsertionsFirst(es)
    ensures AlwaysMeansLSP(lines, es) <==> InsertionsCommute(es) && NothingSwallowed(lines, es)
  {
    if InsertionsCommute(es) && NothingSwallowed(lines, es) {
      forall out | SortOutcome(es, out)
        ensures AllValid(lines, out) && Join(AppliedAll(lines, out)) == Meaning(lines, es)
      {
        SurvivingTiesMeanLSP(lines, es, out);
      }
    }
    if AlwaysMeansLSP(lines, es) {
      forall i, j | 0 <= i < j < |es| && IsInsertion(es[i]) && IsInsertion(es[j]) && es[i].start == es[j].start
        ensures Commute(es[i].newText, es[j].newText)
      {
        TieMustCommute(lines, es, i, j);
      }
      forall j | 0 <= j < |es| && !IsInsertion(es[j])
        ensures SwallowFree(lines, Texts(InsertionsAt(es, es[j].start)), es[j])
      {
        ReplacementMustSurvive(lines, es, j);
      }
    }
  }

  /** Where only insertions share a start, they must commute and need do no more. */
  lemma {:induction false} LSPExactlyWhenTiesCommute(lines: seq<string>, es: seq<Edit>)
    requires |lines| > 0 && AllValid(lines, es) && NonOverlapping(es) && TiesAreInsertions(es)
    ensures AlwaysMeansLSP(lines, es) <==> TiesCommute(es)
  {
    LSPExactlyWhen(lines, es);
    assert InsertionsCommute(es) <==> TiesCommute(es);
    forall k | 0 <= k < |es| && !IsInsertion(es[k])
      ensures SwallowFree(lines, Texts(InsertionsAt(es, es[k].start)), es[k])
    {
      NoneTies(es, k);
      SwallowFreeMeans(lines, "", es[k]);
    }
  }

  lemma NoneTies(es: seq<Edit>, k: nat)
    requires TiesAreInsertions(es) && k < |es| && !IsInsertion(es[k])
    ensures Texts(InsertionsAt(es, es[k].start)) == ""
  {
    InsertionsAtHolds(es, es[k].start);
    assert InsertionsAt(es, es[k].start) == [];
  }

  lemma TwoEdits(lines: seq<string>, a: Edit, b: Edit)
    requires Unsigned(a) && Unsigned(b)
    ensures AppliedAll(lines, [a, b]) == Applied(Applied(lines, a), b)
  {
    assert [a, b][1..] == [b] && [b][1..] == [];
    assert AppliedAll(Applied(lines, a), [b]) == AppliedAll(Applied(Applied(lines, a), b), []);
  }

  /** An insertion and a replacement at one start: the sort may put the insertion
      first, and then the replacement swallows inserted text instead of its range. */
  lemma TieWithReplacement()
    ensures var insertion := Edit(Position(0, 0), Position(0, 0), "I");
            var replacement := Edit(Position(0, 0), Position(0, 1), "R");
            var es := [insertion, replacement];
            && SortOutcome(es, [replacement, insertion]) && SortOutcome(es, [insertion, replacement])
            && AppliedAll(["ab"], [replacement, insertion]) == ["IRb"]
            && AppliedAll(["ab"], [insertion, replacement]) == ["Rab"]
  {
    var i := Edit(Position(0, 0), Position(0, 0), "I");
    var r := Edit(Position(0, 0), Position(0, 1), "R");
    assert "ab"[..0] + "R" + "ab"[1..] == "Rb" && "Rb"[..0] + "I" + "Rb"[0..] == "IRb";
    assert "ab"[..0] + "I" + "ab"[0..] == "Iab" && "Iab"[..0] + "R" + "Iab"[1..] == "Rab";
    assert Applied(["ab"], r) == ["Rb"] && Applied(["Rb"], i) == ["IRb"];
    assert Applied(["ab"], i) == ["Iab"] && Applied(["Iab"], r) == ["Rab"];
    TwoEdits(["ab"], r, i);
    TwoEdits(["ab"], i, r);
  }
}
