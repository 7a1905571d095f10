/**
  The avatar badge derived from a participant's email (`getInitials`).

  The local part (text before the first `@`) is split on runs of `.`, `-`
  and `_` exactly as `split(/[.\-_]+/)` does, empty pieces are dropped, and
  the first characters of the first two remaining pieces are upper-cased and
  cut to two characters. With no piece left the local part's first character
  is used instead, so a local part made only of separators gives that
  separator back.

  The independent description is `WordHeads`: the first character of every
  word, read left to right, where a word is a maximal run of
  non-separators. `SegmentHeads` connects the two.
 */
module Initials {
  import opened Text

  predicate Separator(c: char) {
    c == '.' || c == '-' || c == '_'
  }

  /** The text before the first `@`, or the whole string when there is none. */
  function LocalPart(email: string): (l: string)
    ensures l <= email
    ensures forall i :: 0 <= i < |l| ==> l[i] != '@'
    ensures |l| < |email| ==> email[|l|] == '@'
  {
    if email == [] || email[0] == '@' then [] else [email[0]] + LocalPart(email[1..])
  }

  /** Position of the first separator, or `|s|` when there is none. */
  function SepIndex(s: string): (i: nat)
    ensures i <= |s|
    ensures forall k :: 0 <= k < i ==> !Separator(s[k])
    ensures i < |s| ==> Separator(s[i])
  {
    if s == [] then 0
    else if Separator(s[0]) then 0
    else 1 + SepIndex(s[1..])
  }

  /** End of the run of separators starting at `i`. */
  function RunEnd(s: string, i: nat): (j: nat)
    requires i <= |s|
    ensures i <= j <= |s|
    ensures forall k :: i <= k < j ==> Separator(s[k])
    ensures j < |s| ==> !Separator(s[j])
    decreases |s| - i
  {
    if i == |s| || !Separator(s[i]) then i else RunEnd(s, i + 1)
  }

  /**
    `s.split(/[.\-_]+/)`: the pieces between maximal runs of separators.
    The first piece is empty exactly when `s` is empty or opens with a
    separator, and only the first and the last piece can be empty.
    `SplitScan` pins the pieces against a character-by-character scan.
   */
  function Split(s: string): (pieces: seq<string>)
    ensures |pieces| >= 1
    ensures forall k, m :: 0 <= k < |pieces| && 0 <= m < |pieces[k]| ==> !Separator(pieces[k][m])
    ensures |pieces[0]| > 0 <==> |s| > 0 && !Separator(s[0])
    ensures forall k :: 0 < k < |pieces| - 1 ==> |pieces[k]| > 0
    decreases |s|
  {
    var i := SepIndex(s);
    if i == |s| then [s]
    else
      var j := RunEnd(s, i);
      var rest := Split(s[j..]);
      assert |rest| > 1 ==> |s[j..]| > 0;
      [s[..i]] + rest
  }

  /**
    Reference for `Split`: read `s` left to right, growing the current
    piece on every non-separator and closing it at the first separator of
    each run; the piece open at the end is the last one.
   */
  function Scan(s: string, current: string, inRun: bool): seq<string> {
    if s == [] then [current]
    else if Separator(s[0]) then
      if inRun then Scan(s[1..], current, true)
      else [current] + Scan(s[1..], [], true)
    else Scan(s[1..], current + [s[0]], false)
  }

  lemma {:induction false} ScanWord(s: string, current: string, i: nat)
    requires i <= |s|
    requires forall k :: 0 <= k < i ==> !Separator(s[k])
    ensures Scan(s, current, false) == Scan(s[i..], current + s[..i], false)
  {
    if i > 0 {
      ScanWord(s[1..], current + [s[0]], i - 1);
      assert s[1..][i - 1..] == s[i..];
      assert current + [s[0]] + s[1..][..i - 1] == current + s[..i];
    } else {
      assert current + s[..0] == current;
    }
  }

  lemma {:induction false} ScanRun(s: string, m: nat)
    requires m <= |s|
    requires forall k :: 0 <= k < m ==> Separator(s[k])
    ensures Scan(s, [], true) == Scan(s[m..], [], true)
  {
    if m > 0 {
      ScanRun(s[1..], m - 1);
      assert s[1..][m - 1..] == s[m..];
    }
  }

  lemma ScanAfterRun(t: string)
    requires t == [] || !Separator(t[0])
    ensures Scan(t, [], true) == Scan(t, [], false)
  {
  }

  /** The pieces of `Split` are those of the scan, for every input. */
  lemma {:induction false} SplitScan(s: string, current: string)
    ensures Scan(s, current, false) == [current + Split(s)[0]] + Split(s)[1..]
    decreases |s|
  {
    var i := SepIndex(s);
    ScanWord(s, current, i);
    if i == |s| {
      assert s[i..] == [] && s[..i] == s;
      assert Split(s) == [s];
    } else {
      var j := RunEnd(s, i);
      var rest := Split(s[j..]);
      assert Split(s) == [s[..i]] + rest;
      var t := s[i..];
      assert t[0] == s[i] && t[1..] == s[i + 1..];
      assert Scan(t, current + s[..i], false) == [current + s[..i]] + Scan(s[i + 1..], [], true);
      ScanRun(s[i + 1..], j - i - 1);
      assert s[i + 1..][j - i - 1..] == s[j..];
      ScanAfterRun(s[j..]);
      SplitScan(s[j..], []);
      assert [] + rest[0] == rest[0];
      assert [rest[0]] + rest[1..] == rest;
      assert Scan(s[j..], [], false) == rest;
    }
  }

  /** The regular-expression split is exactly the scan started with an empty piece. */
  lemma SplitIsScan(s: string)
    ensures Split(s) == Scan(s, [], false)
  {
    var ps := Split(s);
    SplitScan(s, []);
    assert [] + ps[0] == ps[0];
    assert [ps[0]] + ps[1..] == ps;
  }

  /** `filter(Boolean)` on strings: keep the non-empty ones, in order. */
  function NonEmpty(ps: seq<string>): (qs: seq<string>)
    ensures |qs| <= |ps|
    ensures forall k :: 0 <= k < |qs| ==> |qs[k]| > 0 && qs[k] in ps
    ensures forall k :: 0 <= k < |ps| && |ps[k]| > 0 ==> ps[k] in qs
  {
    if ps == [] then []
    else
      assert forall k :: 1 <= k < |ps| ==> ps[k] == ps[1..][k - 1];
      (if |ps[0]| > 0 then [ps[0]] else []) + NonEmpty(ps[1..])
  }

  /** Filtering works piece by piece, so the kept pieces stay in their order. */
  lemma {:induction false} NonEmptyConcat(a: seq<string>, b: seq<string>)
    ensures NonEmpty(a + b) == NonEmpty(a) + NonEmpty(b)
  {
    if a == [] {
      assert a + b == b;
    } else {
      assert (a + b)[0] == a[0] && (a + b)[1..] == a[1..] + b;
      NonEmptyConcat(a[1..], b);
    }
  }

  /** The non-empty separator-free pieces of a local part. */
  function Segments(l: string): seq<string> {
    NonEmpty(Split(l))
  }

  /** First character of each of a list of non-empty strings. */
  function Firsts(ps: seq<string>): (fs: seq<char>)
    requires forall k :: 0 <= k < |ps| ==> |ps[k]| > 0
    ensures |fs| == |ps|
    ensures forall k :: 0 <= k < |ps| ==> fs[k] == ps[k][0]
  {
    if ps == [] then [] else [ps[0][0]] + Firsts(ps[1..])
  }

  /**
    Left-to-right scan: a character is a word head when it is not a
    separator and the character before it is a separator (or, when
    `afterSep` holds, when it is the first character scanned).
   */
  function HeadsFrom(s: string, afterSep: bool): seq<char> {
    if s == [] then []
    else (if afterSep && !Separator(s[0]) then [s[0]] else []) + HeadsFrom(s[1..], Separator(s[0]))
  }

  /** The first character of every word of `s`, in order. */
  function WordHeads(s: string): seq<char> {
    HeadsFrom(s, true)
  }

  /**
    The characters chosen for the badge, before upper-casing: the heads of
    the first two words of the local part, or its first character when it
    has no word at all.
   */
  function RawInitials(l: string): (r: string)
    ensures var h := WordHeads(l);
      && (|h| >= 2 ==> r == h[..2])
      && (|h| == 1 ==> r == h)
      && (|h| == 0 ==> r == Take(l, 1))
  {
    SegmentHeads(l);
    var parts := Segments(l);
    if |parts| > 0 then
      [parts[0][0]] + (if |parts| > 1 then [parts[1][0]] else [])
    else if |l| > 0 then [l[0]]
    else []
  }

  /** `getInitials`: the avatar badge for an email; never longer than two characters. */
  function GetInitials(email: string): (r: string)
    ensures |r| <= 2
  {
    Take(Upper(RawInitials(LocalPart(email))), 2)
  }

  lemma {:induction false} SkipWord(t: string, i: nat)
    requires i <= |t|
    requires forall k :: 0 <= k < i ==> !Separator(t[k])
    ensures HeadsFrom(t, false) == HeadsFrom(t[i..], false)
  {
    if i > 0 {
      SkipWord(t[1..], i - 1);
      assert t[1..][i - 1..] == t[i..];
    }
  }

  lemma {:induction false} SkipSeparators(t: string, m: nat, afterSep: bool)
    requires 1 <= m <= |t|
    requires forall k :: 0 <= k < m ==> Separator(t[k])
    ensures HeadsFrom(t, afterSep) == HeadsFrom(t[m..], true)
  {
    if m > 1 {
      SkipSeparators(t[1..], m - 1, true);
      assert t[1..][m - 1..] == t[m..];
    }
  }

  lemma {:induction false} FirstsConcat(a: seq<string>, b: seq<string>)
    requires forall k :: 0 <= k < |a| ==> |a[k]| > 0
    requires forall k :: 0 <= k < |b| ==> |b[k]| > 0
    ensures Firsts(a + b) == Firsts(a) + Firsts(b)
  {
    assert |Firsts(a + b)| == |Firsts(a) + Firsts(b)|;
    forall k | 0 <= k < |a| + |b|
      ensures Firsts(a + b)[k] == (Firsts(a) + Firsts(b))[k]
    {
      if k < |a| { assert (a + b)[k] == a[k]; } else { assert (a + b)[k] == b[k - |a|]; }
    }
  }

  lemma SegmentsStep(s: string, i: nat, j: nat)
    requires i == SepIndex(s) < |s| && j == RunEnd(s, i)
    ensures Segments(s) == (if i > 0 then [s[..i]] else []) + Segments(s[j..])
  {
    var rest := Split(s[j..]);
    assert Split(s) == [s[..i]] + rest;
    NonEmptyConcat([s[..i]], rest);
    assert [s[..i]][1..] == [];
  }

  lemma HeadsStep(s: string, i: nat, j: nat)
    requires i == SepIndex(s) < |s| && j == RunEnd(s, i)
    ensures WordHeads(s) == (if i > 0 then [s[0]] else []) + WordHeads(s[j..])
  {
    if i > 0 {
      SkipWord(s[1..], i - 1);
      assert s[1..][i - 1..] == s[i..];
      SkipSeparators(s[i..], j - i, false);
      assert s[i..][j - i..] == s[j..];
    } else {
      SkipSeparators(s, j, true);
    }
  }

  /**
    The pieces kept by split-and-filter begin exactly at the word heads:
    their first characters, in order, are `WordHeads(s)`.
   */
  lemma {:induction false} SegmentHeads(s: string)
    ensures Firsts(Segments(s)) == WordHeads(s)
    decreases |s|
  {
    var i := SepIndex(s);
    if i == |s| {
      assert Split(s) == [s];
      if s != [] {
        SkipWord(s[1..], |s| - 1);
        assert s[1..][|s| - 1..] == [];
      }
    } else {
      var j := RunEnd(s, i);
      var head: seq<string> := if i > 0 then [s[..i]] else [];
      SegmentsStep(s, i, j);
      HeadsStep(s, i, j);
      SegmentHeads(s[j..]);
      FirstsConcat(head, Segments(s[j..]));
    }
  }

  /** A string has no word head exactly when it consists of separators only. */
  lemma {:induction false} NoHeads(s: string)
    ensures WordHeads(s) == [] <==> forall k :: 0 <= k < |s| ==> Separator(s[k])
  {
    if s != [] && Separator(s[0]) {
      NoHeads(s[1..]);
      assert forall k :: 1 <= k < |s| ==> s[k] == s[1..][k - 1];
    }
  }

  /**
    The badge described through words instead of split pieces: the
    upper-cased heads of the first two words, else the local part's first
    character upper-cased, else nothing.
   */
  lemma InitialsByWords(email: string)
    ensures var l := LocalPart(email); var h := WordHeads(l); var r := GetInitials(email);
      && (|h| >= 2 ==> r == [UpperChar(h[0]), UpperChar(h[1])])
      && (|h| == 1 ==> r == [UpperChar(h[0])])
      && (|h| == 0 && |l| > 0 ==> r == [UpperChar(l[0])])
      && (l == [] ==> r == [])
  {
    var l := LocalPart(email);
    SegmentHeads(l);
    var parts := Segments(l);
    assert Firsts(parts) == WordHeads(l);
    if l == [] {
      assert Split(l) == [[]];
      assert NonEmpty([[]]) == [];
    }
  }

  /** A local part of separators only yields its first character, a separator. */
  lemma SeparatorsOnly(email: string)
    requires |LocalPart(email)| > 0
    requires forall k :: 0 <= k < |LocalPart(email)| ==> Separator(LocalPart(email)[k])
    ensures GetInitials(email) == [LocalPart(email)[0]]
    ensures Separator(GetInitials(email)[0])
  {
    var l := LocalPart(email);
    NoHeads(l);
    InitialsByWords(email);
  }

  /** The badge is empty exactly when the local part is. */
  lemma InitialsEmpty(email: string)
    ensures GetInitials(email) == [] <==> LocalPart(email) == []
  {
  }

  /** Text without `@` is its own local part. */
  lemma LocalPartWithoutAt(p: string)
    requires forall i :: 0 <= i < |p| ==> p[i] != '@'
    ensures LocalPart(p) == p
  {
  }

  lemma {:induction false} LocalPartBeforeAt(p: string, t: string)
    requires forall i :: 0 <= i < |p| ==> p[i] != '@'
    ensures LocalPart(p + "@" + t) == p
  {
    if p != [] {
      assert (p + "@" + t)[1..] == p[1..] + "@" + t;
      LocalPartBeforeAt(p[1..], t);
      assert p == [p[0]] + p[1..];
    } else {
      assert (p + "@" + t)[0] == '@';
    }
  }

  lemma SameLocalPart(e: string, f: string)
    requires LocalPart(e) == LocalPart(f)
    ensures GetInitials(e) == GetInitials(f)
  {
  }

  /** Whatever follows the first `@` is ignored. */
  lemma LocalPartOfAddress(p: string, t: string)
    requires forall i :: 0 <= i < |p| ==> p[i] != '@'
    ensures LocalPart(p + "@" + t) == p
    ensures GetInitials(p + "@" + t) == GetInitials(p)
  {
    LocalPartBeforeAt(p, t);
    LocalPartWithoutAt(p);
    SameLocalPart(p + "@" + t, p);
  }

  /** The badge depends on the local part alone. */
  lemma InitialsOfLocalPart(email: string)
    ensures GetInitials(email) == GetInitials(LocalPart(email))
  {
    LocalPartWithoutAt(LocalPart(email));
    SameLocalPart(email, LocalPart(email));
  }

  /** Any address whose local part is `jane.doe` gets the badge `JD`. */
  lemma ExampleTwoWords(email: string)
    requires LocalPart(email) == "jane.doe"
    ensures GetInitials(email) == "JD"
  {
    InitialsByWords(email);
    HeadsOfJaneDoe();
  }

  lemma HeadsOfJaneDoe()
    ensures WordHeads("jane.doe") == ['j', 'd']
  {
    assert "jane.doe"[1..] == "ane.doe";
    SkipWord("ane.doe", 3);
    assert "ane.doe"[3..] == ".doe";
    SkipSeparators(".doe", 1, false);
    assert ".doe"[1..] == "doe";
    assert "doe"[1..] == "oe";
    SkipWord("oe", 2);
    assert "oe"[2..] == [];
  }

  /** Any address whose local part is `bob` gets the badge `B`. */
  lemma ExampleOneWord(email: string)
    requires LocalPart(email) == "bob"
    ensures GetInitials(email) == "B"
  {
    InitialsByWords(email);
    assert "bob"[1..] == "ob";
    SkipWord("ob", 2);
    assert "ob"[2..] == [];
  }

  /** Any address whose local part is `...` gets the badge `.`, not an empty one. */
  lemma ExampleSeparatorsOnly(email: string)
    requires LocalPart(email) == "..."
    ensures GetInitials(email) == "."
  {
    var l := LocalPart(email);
    assert forall k :: 0 <= k < |l| ==> Separator(l[k]);
    SeparatorsOnly(email);
  }
}
