/** Rearrangements of a list, stated with multisets, and lists of lists: what edits in
    another order, the passes over the assignments and the index built file by file have
    in common. */
module Rearrangement {
  /** Concatenation is associative. */
  lemma Associative<T>(a: seq<T>, b: seq<T>, c: seq<T>)
    ensures a + (b + c) == (a + b) + c
  {
  }

  predicate NoDuplicates<T(==)>(s: seq<T>) {
    forall i, j :: 0 <= i < j < |s| ==> s[i] != s[j]
  }

  function Without<T>(s: seq<T>, k: nat): seq<T>
    requires k < |s|
  {
    s[..k] + s[k + 1..]
  }

  function Reversed<T>(s: seq<T>): (r: seq<T>)
    ensures |r| == |s|
    ensures forall k :: 0 <= k < |s| ==> r[k] == s[|s| - 1 - k]
  {
    if s == [] then [] else Reversed(s[1..]) + [s[0]]
  }

  lemma {:induction false} ReversedIsRearranged<T>(s: seq<T>)
    ensures multiset(Reversed(s)) == multiset(s)
  {
    if s != [] {
      ReversedIsRearranged(s[1..]);
      assert s == [s[0]] + s[1..];
    }
  }

  lemma MultisetWithout<T>(t: seq<T>, k: nat)
    requires k < |t|
    ensures multiset(t) == multiset(Without(t, k)) + multiset{t[k]}
  {
    assert t == (t[..k] + [t[k]]) + t[k + 1..];
  }

  lemma MultisetInsert<T>(u: seq<T>, x: T, v: seq<T>)
    ensures multiset(u + [x] + v) == multiset(u + v) + multiset{x}
  {
  }

  lemma MultisetPair<T>(u: seq<T>, a: T, b: T, v: seq<T>)
    ensures multiset(u + [a, b] + v) == multiset(u + v) + multiset{a} + multiset{b}
  {
    assert u + [a, b] + v == (u + [a]) + [b] + v;
    MultisetInsert(u + [a], b, v);
    MultisetInsert(u, a, v);
  }

  lemma MultisetIndex<T>(s: seq<T>, x: T) returns (k: nat)
    requires x in multiset(s)
    ensures k < |s| && s[k] == x
  {
    k :| 0 <= k < |s| && s[k] == x;
  }

  lemma SameWithout<T>(s: seq<T>, i: nat, t: seq<T>, k: nat)
    requires i < |s| && k < |t| && s[i] == t[k] && multiset(s) == multiset(t)
    ensures multiset(Without(s, i)) == multiset(Without(t, k))
  {
    MultisetWithout(s, i);
    MultisetWithout(t, k);
    assert multiset(Without(s, i)) == multiset(s) - multiset{s[i]};
    assert multiset(Without(t, k)) == multiset(t) - multiset{s[i]};
  }

  lemma FindAndRemove<T>(s: seq<T>, t: seq<T>) returns (k: nat)
    requires s != [] && multiset(s) == multiset(t)
    ensures k < |t| && t[k] == s[0]
    ensures multiset(s[1..]) == multiset(Without(t, k))
  {
    assert s[0] in multiset(s);
    k := MultisetIndex(t, s[0]);
    SameWithout(s, 0, t, k);
    assert Without(s, 0) == s[1..];
  }

  lemma InsertRearranges<T>(s: seq<T>, rest: seq<T>, k: nat)
    requires s != [] && multiset(rest) == multiset(s[1..]) && k <= |rest|
    ensures multiset(rest[..k] + [s[0]] + rest[k..]) == multiset(s)
  {
    MultisetInsert(rest[..k], s[0], rest[k..]);
    assert rest == rest[..k] + rest[k..];
    MultisetWithout(s, 0);
    assert Without(s, 0) == s[1..];
  }

  /** Two places of a rearrangement come from two places of the list. */
  lemma TwoPlaces<T>(s: seq<T>, t: seq<T>, i: nat, j: nat) returns (a: nat, b: nat)
    requires multiset(s) == multiset(t) && i < |t| && j < |t| && i != j
    ensures a < |s| && b < |s| && a != b && s[a] == t[i] && s[b] == t[j]
  {
    assert t[i] in multiset(t);
    a := MultisetIndex(s, t[i]);
    SameWithout(s, a, t, i);
    var rest := Without(t, i);
    assert rest[if j < i then j else j - 1] == t[j];
    assert t[j] in multiset(rest);
    var k := MultisetIndex(Without(s, a), t[j]);
    b := if k < a then k else k + 1;
  }

  lemma FindPart<T>(whole: seq<T>, part: seq<T>) returns (k: nat)
    requires part != [] && multiset(part) <= multiset(whole)
    ensures k < |whole| && whole[k] == part[0]
    ensures multiset(part[1..]) <= multiset(Without(whole, k))
  {
    assert part[0] in multiset(part);
    k := MultisetIndex(whole, part[0]);
    MultisetWithout(whole, k);
    MultisetWithout(part, 0);
    assert Without(part, 0) == part[1..];
    LessOne(multiset(part[1..]), multiset(Without(whole, k)), part[0]);
  }

  lemma LessOne<T>(a: multiset<T>, b: multiset<T>, x: T)
    requires a + multiset{x} <= b + multiset{x}
    ensures a <= b
  {
    assert a == (a + multiset{x}) - multiset{x};
    assert b == (b + multiset{x}) - multiset{x};
  }

  /** What `whole` holds besides `part`. */
  lemma {:induction false} Others<T>(whole: seq<T>, part: seq<T>) returns (others: seq<T>)
    requires multiset(part) <= multiset(whole)
    ensures multiset(whole) == multiset(part + others)
    decreases |part|
  {
    if part == [] {
      others := whole;
      assert part + others == whole;
    } else {
      var k := FindPart(whole, part);
      others := Others(Without(whole, k), part[1..]);
      MultisetWithout(whole, k);
      assert part + others == [part[0]] + (part[1..] + others);
      assert multiset([part[0]]) == multiset{part[0]};
    }
  }

  // ---- lists of lists ----

  function Flatten<T>(parts: seq<seq<T>>): seq<T> {
    if parts == [] then [] else Flatten(parts[..|parts| - 1]) + parts[|parts| - 1]
  }

  lemma FlattenEnds<T>(parts: seq<seq<T>>)
    ensures Flatten(parts[..0]) == [] && Flatten(parts[..|parts|]) == Flatten(parts)
  {
    assert parts[..|parts|] == parts;
  }

  lemma FlattenOneMore<T>(parts: seq<seq<T>>, i: nat)
    requires i < |parts|
    ensures Flatten(parts[..i + 1]) == Flatten(parts[..i]) + parts[i]
  {
    assert parts[..i + 1][..i] == parts[..i];
  }

  /** Every element of the whole is an element of a part. */
  lemma {:induction false} FlattenFrom<T>(parts: seq<seq<T>>, k: nat) returns (i: nat, j: nat)
    requires k < |Flatten(parts)|
    ensures i < |parts| && j < |parts[i]| && Flatten(parts)[k] == parts[i][j]
  {
    var n := |parts| - 1;
    if k < |Flatten(parts[..n])| {
      i, j := FlattenFrom(parts[..n], k);
    } else {
      i, j := n, k - |Flatten(parts[..n])|;
    }
  }

  /** Every element of a part is an element of the whole. */
  lemma {:induction false} FlattenTo<T>(parts: seq<seq<T>>, i: nat, j: nat) returns (k: nat)
    requires i < |parts| && j < |parts[i]|
    ensures k < |Flatten(parts)| && Flatten(parts)[k] == parts[i][j]
  {
    var n := |parts| - 1;
    if i < n {
      k := FlattenTo(parts[..n], i, j);
    } else {
      k := |Flatten(parts[..n])| + j;
    }
  }
}
