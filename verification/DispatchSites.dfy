/** dispatchSites of internal/fnptr/fnptr.go: the calls through a pointer in the
    stripped text of a file, each on the raw line that holds its arrow, with the receiver
    in front of it. */
module DispatchSites {
  import opened Text
  import Brackets
  import Strip

  /** dispatchSite */
  datatype Site = Site(line: nat, recv: string, cast: string, field: string)

  /** A match of the arrow pattern: where it starts and the field it captures. */
  datatype Arrow = Arrow(at: nat, field: string)

  /** The pattern starts at an arrow or a dot of the text. */
  ghost predicate IsArrow(s: string, a: Arrow) {
    a.at < |s| && (s[a.at] == '-' || s[a.at] == '.')
  }

  /** What parseReceiver answers for the receiver in front of an arrow. */
  ghost predicate ReceiverIs(s: string, at: nat, inner: string -> (string, string), recv: string, cast: string)
    requires at <= |s|
  {
    exists j :: Brackets.ReceiverEnd(s, at, j) && Brackets.Receives(s, j, inner, recv, cast)
  }

  /** The byte at `at` of the stripped text is a surviving byte of raw line n. */
  ghost predicate OnRawLine(lines: seq<string>, at: nat, n: nat)
    requires at < |Join(Strip.CodeLines(lines))|
  {
    n < |lines| && exists column :: Strip.SurvivesFrom(lines, at, n, column)
  }

  /** The site made from an arrow. */
  ghost predicate MadeFrom(lines: seq<string>, inner: string -> (string, string), a: Arrow, site: Site)
    requires a.at < |Join(Strip.CodeLines(lines))|
  {
    && site.field == a.field && site.recv != ""
    && ReceiverIs(Join(Strip.CodeLines(lines)), a.at, inner, site.recv, site.cast)
    && OnRawLine(lines, a.at, site.line)
  }

  /** No receiver in front of the arrow. */
  ghost predicate Bare(lines: seq<string>, inner: string -> (string, string), a: Arrow)
    requires a.at < |Join(Strip.CodeLines(lines))|
  {
    exists cast :: ReceiverIs(Join(Strip.CodeLines(lines)), a.at, inner, "", cast)
  }

  ghost predicate AllArrows(s: string, arrows: seq<Arrow>) {
    forall k :: 0 <= k < |arrows| ==> IsArrow(s, arrows[k])
  }

  ghost predicate FromSome(lines: seq<string>, inner: string -> (string, string), arrows: seq<Arrow>, site: Site)
    requires AllArrows(Join(Strip.CodeLines(lines)), arrows)
  {
    exists i :: 0 <= i < |arrows| && MadeFrom(lines, inner, arrows[i], site)
  }

  ghost predicate IntoSome(lines: seq<string>, inner: string -> (string, string), a: Arrow, sites: seq<Site>)
    requires a.at < |Join(Strip.CodeLines(lines))|
  {
    exists k :: 0 <= k < |sites| && MadeFrom(lines, inner, a, sites[k])
  }

  /** `made[k]` is the arrow of the k-th site: in order, and every arrow before `n` that
      is missing has no receiver. */
  ghost predicate SitesOf(lines: seq<string>, inner: string -> (string, string), arrows: seq<Arrow>, n: nat,
                          made: seq<nat>, sites: seq<Site>)
    requires n <= |arrows| && AllArrows(Join(Strip.CodeLines(lines)), arrows)
  {
    && |made| == |sites|
    && (forall k :: 0 <= k < |made| ==> made[k] < n && MadeFrom(lines, inner, arrows[made[k]], sites[k]))
    && (forall j, k :: 0 <= j < k < |made| ==> made[j] < made[k])
    && (forall i :: 0 <= i < n && i !in made ==> Bare(lines, inner, arrows[i]))
  }

  /** `arrows` stands for the pattern's matches in the joined, stripped text, `inner` for
      parseInner. */
  method DispatchSites(lines: seq<string>, arrows: seq<Arrow>, inner: string -> (string, string))
    returns (sites: seq<Site>, ghost made: seq<nat>)
    requires AllNewlineFree(lines)
    requires AllArrows(Join(Strip.CodeLines(lines)), arrows)
    ensures SitesOf(lines, inner, arrows, |arrows|, made, sites)
    ensures forall k :: 0 <= k < |sites| ==> FromSome(lines, inner, arrows, sites[k])
    ensures forall i :: 0 <= i < |arrows| ==>
              Bare(lines, inner, arrows[i]) || IntoSome(lines, inner, arrows[i], sites)
  {
    hide SitesOf, Brackets.Receives, OnRawLine, Newlines;
    NoSites(lines, inner, arrows);
    var stripped := StripLines(lines);
    var joined := Join(stripped);
    sites, made := [], [];
    var i := 0;
    while i < |arrows|
      invariant 0 <= i <= |arrows|
      invariant SitesOf(lines, inner, arrows, i, made, sites)
    {
      var a := arrows[i];
      assert IsArrow(joined, a);
      var recv, cast := Brackets.ParseReceiver(joined, a.at, inner);
      assert ReceiverIs(joined, a.at, inner, recv, cast);
      if recv != "" {
        var site := Site(Newlines(joined[..a.at]), recv, cast, a.field);
        SiteIsMade(lines, inner, a, site);
        OneMoreSite(lines, inner, arrows, i, made, sites, site);
        sites, made := sites + [site], made + [i];
      } else {
        assert Bare(lines, inner, a);
        OneMoreBare(lines, inner, arrows, i, made, sites);
      }
      i := i + 1;
    }
    EveryArrow(lines, inner, arrows, made, sites);
  }

  lemma {:induction false} EveryArrow(lines: seq<string>, inner: string -> (string, string), arrows: seq<Arrow>,
                                      made: seq<nat>, sites: seq<Site>)
    requires AllArrows(Join(Strip.CodeLines(lines)), arrows)
    requires SitesOf(lines, inner, arrows, |arrows|, made, sites)
    ensures forall k :: 0 <= k < |sites| ==> FromSome(lines, inner, arrows, sites[k])
    ensures forall i :: 0 <= i < |arrows| ==>
              Bare(lines, inner, arrows[i]) || IntoSome(lines, inner, arrows[i], sites)
  {
    hide MadeFrom, Bare;
    forall k | 0 <= k < |sites| ensures FromSome(lines, inner, arrows, sites[k]) {
      assert MadeFrom(lines, inner, arrows[made[k]], sites[k]);
    }
    forall i | 0 <= i < |arrows| && !Bare(lines, inner, arrows[i])
      ensures IntoSome(lines, inner, arrows[i], sites)
    {
      var k :| 0 <= k < |made| && made[k] == i;
      assert MadeFrom(lines, inner, arrows[i], sites[k]);
    }
  }

  lemma {:induction false} NoSites(lines: seq<string>, inner: string -> (string, string), arrows: seq<Arrow>)
    requires AllArrows(Join(Strip.CodeLines(lines)), arrows)
    ensures SitesOf(lines, inner, arrows, 0, [], [])
  {
  }

  /** The newline count in front of the arrow is the line of the site. */
  lemma {:induction false} SiteIsMade(lines: seq<string>, inner: string -> (string, string), a: Arrow, site: Site)
    requires AllNewlineFree(lines) && IsArrow(Join(Strip.CodeLines(lines)), a)
    requires ReceiverIs(Join(Strip.CodeLines(lines)), a.at, inner, site.recv, site.cast)
    requires site.line == Newlines(Join(Strip.CodeLines(lines))[..a.at]) && site.field == a.field && site.recv != ""
    ensures MadeFrom(lines, inner, a, site)
  {
    Strip.DispatchLineIsRawLine(lines, a.at);
  }

  lemma {:induction false} OneMoreBare(lines: seq<string>, inner: string -> (string, string), arrows: seq<Arrow>,
                                       i: nat,
                    made: seq<nat>, sites: seq<Site>)
    requires i < |arrows| && AllArrows(Join(Strip.CodeLines(lines)), arrows)
    requires SitesOf(lines, inner, arrows, i, made, sites) && Bare(lines, inner, arrows[i])
    ensures SitesOf(lines, inner, arrows, i + 1, made, sites)
  {
    hide MadeFrom, Bare;
  }

  lemma {:induction false} OneMoreSite(lines: seq<string>, inner: string -> (string, string), arrows: seq<Arrow>,
                                       i: nat,
                    made: seq<nat>, sites: seq<Site>, site: Site)
    requires i < |arrows| && AllArrows(Join(Strip.CodeLines(lines)), arrows)
    requires SitesOf(lines, inner, arrows, i, made, sites) && MadeFrom(lines, inner, arrows[i], site)
    ensures SitesOf(lines, inner, arrows, i + 1, made + [i], sites + [site])
  {
    hide MadeFrom, Bare;
    assert forall j :: j in made || j == i ==> j in made + [i];
  }

  method StripLines(lines: seq<string>) returns (stripped: seq<string>)
    ensures stripped == Strip.CodeLines(lines)
  {
    stripped := [];
    var i := 0;
    while i < |lines|
      invariant 0 <= i <= |lines| && stripped == Strip.CodeLines(lines)[..i]
    {
      var b := Strip.StripCodeLine(lines[i]);
      stripped := stripped + [b];
      i := i + 1;
    }
  }
}
