/**
  The order in which a card lists its participants.

  The client sorts a copy of the roster with a case-insensitive comparison.
  Here that comparison is the lexicographic order of the ASCII-lower-cased
  strings (`FoldedLeq`), a total preorder: two addresses that differ only in
  letter case are equivalent. The sort is an insertion sort on sequences,
  specified by its result being ordered and a permutation of its input.
 */
module Collation {
  import opened Text

  /** The first `i` characters of `a` and `b` are equal up to letter case. */
  predicate AgreeUpTo(a: string, b: string, i: nat)
    requires i <= |a| && i <= |b|
  {
    forall j :: 0 <= j < i ==> LowerChar(a[j]) == LowerChar(b[j])
  }

  /**
    Case-insensitive "not after": lexicographic order of the lower-cased
    strings. The first position where they differ up to case decides; when
    one is a prefix of the other up to case, the shorter comes first.
   */
  function FoldedLeq(a: string, b: string): (r: bool)
    ensures forall i {:trigger AgreeUpTo(a, b, i)} :: (0 <= i < |a| && i < |b| && AgreeUpTo(a, b, i) && LowerChar(a[i]) != LowerChar(b[i]))
                          ==> (r <==> LowerChar(a[i]) < LowerChar(b[i]))
    ensures |a| <= |b| && AgreeUpTo(a, b, |a|) ==> r
    ensures |b| < |a| && AgreeUpTo(a, b, |b|) ==> !r
  {
    if a == [] then true
    else if b == [] then false
    else if LowerChar(a[0]) != LowerChar(b[0]) then
      assert forall i :: 0 < i < |a| && i < |b| ==> !AgreeUpTo(a, b, i);
      LowerChar(a[0]) < LowerChar(b[0])
    else
      assert forall i :: 0 < i <= |a| && i <= |b| ==> (AgreeUpTo(a, b, i) <==> AgreeUpTo(a[1..], b[1..], i - 1));
      FoldedLeq(a[1..], b[1..])
  }

  lemma {:induction false} FoldedLeqReflexive(a: string)
    ensures FoldedLeq(a, a)
  {
    if a != [] {
      FoldedLeqReflexive(a[1..]);
    }
  }

  lemma {:induction false} FoldedLeqTotal(a: string, b: string)
    ensures FoldedLeq(a, b) || FoldedLeq(b, a)
  {
    if a != [] && b != [] && LowerChar(a[0]) == LowerChar(b[0]) {
      FoldedLeqTotal(a[1..], b[1..]);
    }
  }

  lemma {:induction false} FoldedLeqTransitive(a: string, b: string, c: string)
    requires FoldedLeq(a, b) && FoldedLeq(b, c)
    ensures FoldedLeq(a, c)
  {
    if a != [] && b != [] && c != []
      && LowerChar(a[0]) == LowerChar(b[0]) && LowerChar(b[0]) == LowerChar(c[0]) {
      FoldedLeqTransitive(a[1..], b[1..], c[1..]);
    }
  }

  /** Addresses that differ only in the case of ASCII letters are equivalent. */
  lemma {:induction false} FoldedLeqIgnoresCase(a: string, b: string)
    requires |a| == |b|
    requires forall i :: 0 <= i < |a| ==> LowerChar(a[i]) == LowerChar(b[i])
    ensures FoldedLeq(a, b) && FoldedLeq(b, a)
  {
    if a != [] {
      FoldedLeqIgnoresCase(a[1..], b[1..]);
    }
  }

  /** Every earlier element is not after any later one. */
  predicate Sorted(s: seq<string>) {
    forall i, j :: 0 <= i < j < |s| ==> FoldedLeq(s[i], s[j])
  }

  lemma InsertFront(x: string, s: seq<string>)
    requires Sorted(s)
    requires s != [] ==> FoldedLeq(x, s[0])
    ensures Sorted([x] + s)
  {
    var r := [x] + s;
    forall i, j | 0 <= i < j < |r|
      ensures FoldedLeq(r[i], r[j])
    {
      assert r[j] == s[j - 1];
      if i == 0 {
        assert r[0] == x;
        if j > 1 {
          FoldedLeqTransitive(x, s[0], s[j - 1]);
        }
      } else {
        assert r[i] == s[i - 1];
      }
    }
  }

  lemma InsertBehind(x: string, s: seq<string>, t: seq<string>)
    requires Sorted(s) && s != [] && !FoldedLeq(x, s[0])
    requires Sorted(t) && multiset(t) == multiset(s[1..]) + multiset{x}
    ensures Sorted([s[0]] + t)
  {
    FoldedLeqTotal(x, s[0]);
    var r := [s[0]] + t;
    forall i, j | 0 <= i < j < |r|
      ensures FoldedLeq(r[i], r[j])
    {
      if i == 0 {
        var e := t[j - 1];
        assert e in multiset(t);
        if e != x {
          assert e in multiset(s[1..]);
          var k :| 0 <= k < |s[1..]| && s[1..][k] == e;
          assert s[k + 1] == e;
        }
      } else {
        assert r[i] == t[i - 1] && r[j] == t[j - 1];
      }
    }
  }

  /** Put `x` into a sorted list, in front of the first element it is not after. */
  function Insert(x: string, s: seq<string>): (r: seq<string>)
    requires Sorted(s)
    ensures Sorted(r)
    ensures multiset(r) == multiset(s) + multiset{x}
  {
    if s == [] then [x]
    else if FoldedLeq(x, s[0]) then
      InsertFront(x, s);
      [x] + s
    else
      var t := Insert(x, s[1..]);
      InsertBehind(x, s, t);
      assert s == [s[0]] + s[1..];
      [s[0]] + t
  }

  /**
    `participants.slice().sort(...)`: a case-insensitively ordered
    rearrangement of the roster; the roster value itself is untouched.
   */
  function SortParticipants(s: seq<string>): (r: seq<string>)
    ensures Sorted(r)
    ensures multiset(r) == multiset(s)
  {
    if s == [] then []
    else
      assert s == [s[0]] + s[1..];
      Insert(s[0], SortParticipants(s[1..]))
  }

  /** A two-element roster whose second address comes first case-insensitively is swapped. */
  lemma SortTwo(a: string, b: string)
    requires !FoldedLeq(a, b)
    ensures SortParticipants([a, b]) == [b, a]
  {
  }

  lemma ExampleCaseInsensitive()
    ensures !FoldedLeq("Bob@x.com", "alice@x.com")
  {
  }
}
