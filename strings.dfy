/** Python string operations used by the modelled code: substring tests,
    `rfind`, `split` and `join`, and the ordering `sorted` uses. */
module Strings {

  predicate IsPrefix(p: string, s: string) {
    |p| <= |s| && s[..|p|] == p
  }

  predicate IsSuffix(p: string, s: string) {
    |p| <= |s| && s[|s| - |p|..] == p
  }

  /** What ends a string's ending ends the string. */
  lemma SuffixTransitive(a: string, b: string, c: string)
    requires IsSuffix(a, b) && IsSuffix(b, c)
    ensures IsSuffix(a, c)
  {
    assert c[|c| - |a|..] == b[|b| - |a|..];
  }

  /** A string ends with what was appended to it. */
  lemma AppendedSuffix(p: string, s: string)
    ensures IsSuffix(s, p + s)
  {
    assert (p + s)[|p|..] == s;
  }

  /** `t` occurs in `s` starting at position `i`. */
  predicate OccursAt(s: string, t: string, i: int) {
    0 <= i && i + |t| <= |s| && s[i..i + |t|] == t
  }

  /** Python's `t in s` for two strings. */
  predicate Contains(s: string, t: string)
    decreases |s|
  {
    IsPrefix(t, s) || (|s| > 0 && Contains(s[1..], t))
  }

  /** `Contains` is the substring relation: some position holds `t`. */
  lemma {:induction false} ContainsIffOccurs(s: string, t: string)
    ensures Contains(s, t) <==> exists i :: OccursAt(s, t, i)
    decreases |s|
  {
    assert OccursAt(s, t, 0) <==> IsPrefix(t, s);
    if IsPrefix(t, s) {
    } else if |s| > 0 {
      ContainsIffOccurs(s[1..], t);
      forall i | OccursAt(s, t, i)
        ensures i == 0 || OccursAt(s[1..], t, i - 1)
      {
      }
      if Contains(s[1..], t) {
        var i :| OccursAt(s[1..], t, i);
        assert OccursAt(s, t, i + 1);
      }
    }
  }

  /** A string contains whatever is spliced into it. */
  lemma ContainsInfix(a: string, t: string, b: string)
    ensures Contains(a + t + b, t)
  {
    assert OccursAt(a + t + b, t, |a|);
    ContainsIffOccurs(a + t + b, t);
  }

  /** Every character of a contained string occurs in the container. */
  lemma {:induction false} ContainedCharsOccur(s: string, t: string, c: char)
    requires c in t
    ensures Contains(s, t) ==> c in s
    decreases |s|
  {
    if IsPrefix(t, s) {
      var k :| 0 <= k < |t| && t[k] == c;
      assert s[..|t|][k] == c;
    }
    if |s| > 0 {
      ContainedCharsOccur(s[1..], t, c);
    }
  }

  /** `s.rfind(c)`: the last position holding `c`, or -1. */
  function RFind(s: string, c: char): (r: int)
    ensures -1 <= r < |s|
    ensures r >= 0 ==> s[r] == c
    ensures forall j :: r < j < |s| ==> s[j] != c
  {
    if |s| == 0 then -1
    else if s[|s| - 1] == c then |s| - 1
    else RFind(s[..|s| - 1], c)
  }

  /** Nothing follows the last `c` exactly when the string is empty or
      ends in `c`. */
  lemma NothingAfterLast(s: string, c: char)
    ensures |s[RFind(s, c) + 1..]| == 0 <==> |s| == 0 || s[|s| - 1] == c
  {
  }

  /** Nothing after the last `c` is a `c`. */
  lemma AfterLastOccurrence(s: string, c: char)
    ensures c !in s[RFind(s, c) + 1..]
  {
    var k := RFind(s, c);
    var tail := s[k + 1..];
    forall j | 0 <= j < |tail| ensures tail[j] != c {
      assert tail[j] == s[k + 1 + j];
    }
  }

  /** `s.split(c)` for a one-character separator. */
  function Split(s: string, c: char): (r: seq<string>)
    ensures |r| >= 1
    decreases |s|
  {
    var k := RFind(s, c);
    if k < 0 then [s] else Split(s[..k], c) + [s[k + 1..]]
  }

  /** No piece of a split holds the separator. */
  lemma {:induction false} SplitPiecesWithout(s: string, c: char)
    ensures forall i :: 0 <= i < |Split(s, c)| ==> c !in Split(s, c)[i]
    decreases |s|
  {
    var k := RFind(s, c);
    var r := Split(s, c);
    var last := s[k + 1..];
    AfterLastOccurrence(s, c);
    if k < 0 {
      assert r == [last];
    } else {
      var front := Split(s[..k], c);
      SplitPiecesWithout(s[..k], c);
      assert r == front + [last];
      forall i | 0 <= i < |r|
        ensures c !in r[i]
      {
        if i < |front| {
          assert r[i] == front[i];
        } else {
          assert r[i] == last;
        }
      }
    }
  }

  /** The last piece of a split is what follows the last separator. */
  lemma SplitLast(s: string, c: char)
    ensures Split(s, c)[|Split(s, c)| - 1] == s[RFind(s, c) + 1..]
  {
  }

  /** `sep.join(parts)`. */
  function Join(parts: seq<string>, sep: string): string
  {
    if |parts| == 0 then []
    else if |parts| == 1 then parts[0]
    else Join(parts[..|parts| - 1], sep) + sep + parts[|parts| - 1]
  }

  /** Joining the pieces of a split with the same separator gives the
      string back. */
  lemma {:induction false} SplitJoin(s: string, c: char)
    ensures Join(Split(s, c), [c]) == s
    decreases |s|
  {
    var k := RFind(s, c);
    if k >= 0 {
      var front := Split(s[..k], c);
      SplitJoin(s[..k], c);
      var all := front + [s[k + 1..]];
      assert all[..|all| - 1] == front;
      assert s == s[..k] + [c] + s[k + 1..];
    }
  }

  /** Python's `a <= b` on strings: lexicographic by code point, a proper
      prefix first. */
  predicate LexLe(a: string, b: string)
  {
    if a == [] then true
    else if b == [] then false
    else if a[0] != b[0] then a[0] < b[0]
    else LexLe(a[1..], b[1..])
  }

  lemma LexLeTotal(a: string, b: string)
    ensures LexLe(a, b) || LexLe(b, a)
  {
  }

  lemma LexLeTransitive(a: string, b: string, c: string)
    requires LexLe(a, b) && LexLe(b, c)
    ensures LexLe(a, c)
  {
  }

  predicate SortedStrings(s: seq<string>) {
    forall i, j :: 0 <= i < j < |s| ==> LexLe(s[i], s[j])
  }

  /** Every string of `rest`, which holds the tail of `s` and `x`, comes no
      earlier than the head of `s`. */
  lemma HeadBelow(x: string, s: seq<string>, rest: seq<string>)
    requires SortedStrings(s) && |s| > 0 && !LexLe(x, s[0])
    requires multiset(rest) == multiset(s[1..]) + multiset{x}
    ensures forall j :: 0 <= j < |rest| ==> LexLe(s[0], rest[j])
  {
    LexLeTotal(x, s[0]);
    forall j | 0 <= j < |rest|
      ensures LexLe(s[0], rest[j])
    {
      assert rest[j] in multiset(rest);
      if rest[j] != x {
        assert rest[j] in multiset(s[1..]);
        var m :| 0 <= m < |s[1..]| && s[1..][m] == rest[j];
        assert s[m + 1] == rest[j];
      }
    }
  }

  /** A string placed before the head of a sorted sequence comes before all
      of it. */
  lemma BelowHead(x: string, s: seq<string>)
    requires SortedStrings(s) && |s| > 0 && LexLe(x, s[0])
    ensures forall j :: 0 <= j < |s| ==> LexLe(x, s[j])
  {
    forall j | 0 <= j < |s| ensures LexLe(x, s[j]) {
      if j > 0 { LexLeTransitive(x, s[0], s[j]); }
    }
  }

  /** A string that comes no later than any string of a sorted sequence
      can go in front of it. */
  lemma ConsSorted(h: string, s: seq<string>)
    requires SortedStrings(s)
    requires forall j :: 0 <= j < |s| ==> LexLe(h, s[j])
    ensures SortedStrings([h] + s)
  {
    var r := [h] + s;
    forall i, j | 0 <= i < j < |r| ensures LexLe(r[i], r[j]) {
      if i > 0 {
        assert r[i] == s[i - 1] && r[j] == s[j - 1];
      } else {
        assert r[j] == s[j - 1];
      }
    }
  }

  /** Puts `x` into its place in an already sorted sequence. */
  function InsertSorted(x: string, s: seq<string>): (r: seq<string>)
    requires SortedStrings(s)
    ensures SortedStrings(r)
    ensures multiset(r) == multiset(s) + multiset{x}
  {
    if s == [] then [x]
    else if LexLe(x, s[0]) then
      BelowHead(x, s);
      ConsSorted(x, s);
      [x] + s
    else
      var rest := InsertSorted(x, s[1..]);
      assert s == [s[0]] + s[1..];
      HeadBelow(x, s, rest);
      ConsSorted(s[0], rest);
      [s[0]] + rest
  }

  /** `sorted(s)` for a sequence of strings. */
  function SortStrings(s: seq<string>): (r: seq<string>)
    ensures SortedStrings(r)
    ensures multiset(r) == multiset(s)
  {
    if s == [] then []
    else
      assert s == [s[0]] + s[1..];
      InsertSorted(s[0], SortStrings(s[1..]))
  }
}
