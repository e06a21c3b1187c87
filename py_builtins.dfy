/** The Python sequence built-ins the modelled code relies on: `range` with a
    positive step, slices with clamped bounds, indexing with negative
    indices, and a few facts about sequences of sequences. */
module PyBuiltins {
  import opened Wrappers

  function Min(a: int, b: int): int { if a <= b then a else b }

  /** `list(range(start, stop, step))` for a positive `step`. */
  function Range(start: int, stop: int, step: nat): (r: seq<int>)
    requires step >= 1
    ensures forall k :: 0 <= k < |r| ==> r[k] == start + k * step && r[k] < stop
    ensures start + |r| * step >= stop
    ensures |r| > 0 <==> start < stop
    decreases stop - start
  {
    if start >= stop then []
    else
      var rest := Range(start + step, stop, step);
      assert forall k :: 1 <= k <= |rest| ==> start + step + (k - 1) * step == start + k * step;
      assert start + step + |rest| * step == start + (|rest| + 1) * step;
      [start] + rest
  }

  /** Where a slice bound `k` lands in a sequence of length `n`
      (a negative bound counts from the end). */
  function ClampIndex(k: int, n: nat): (r: nat)
    ensures r <= n
    ensures 0 <= k <= n ==> r == k
    ensures k > n ==> r == n
  {
    if k < 0 then (if n + k < 0 then 0 else n + k)
    else if k > n then n
    else k
  }

  /** `s[lo:hi]`. */
  function Slice<T>(s: seq<T>, lo: int, hi: int): seq<T>
  {
    var a, b := ClampIndex(lo, |s|), ClampIndex(hi, |s|);
    if a <= b then s[a..b] else []
  }

  /** `s[lo:]`. */
  function SliceFrom<T>(s: seq<T>, lo: int): seq<T>
  {
    s[ClampIndex(lo, |s|)..]
  }

  /** The position `s[k]` reads in a sequence of length `n`; `None` is
      Python's IndexError. */
  function PyIndex(k: int, n: nat): (r: Option<nat>)
    ensures r.Some? <==> -(n as int) <= k < n
    ensures r.Some? ==> r.value < n
  {
    if 0 <= k < n then Some(k)
    else if -(n as int) <= k < 0 then Some(k + n)
    else None
  }

  /** The list comprehension `[f(x) for x in s]`. */
  function MapSeq<A, B>(f: A -> B, s: seq<A>): (r: seq<B>)
    ensures |r| == |s|
    ensures forall i :: 0 <= i < |s| ==> r[i] == f(s[i])
  {
    seq(|s|, i requires 0 <= i < |s| => f(s[i]))
  }

  /** The concatenation of a sequence of sequences. */
  function Concat<T>(ss: seq<seq<T>>): seq<T>
  {
    if ss == [] then [] else Concat(ss[..|ss| - 1]) + ss[|ss| - 1]
  }

  /** The `count` consecutive slices `s[k*width : k*width + width]`. */
  function Chunks<T>(s: seq<T>, count: nat, width: nat): (r: seq<seq<T>>)
    ensures |r| == count
  {
    seq(count, k requires 0 <= k < count => Slice(s, k * width, k * width + width))
  }

  /** A slice whose bounds are not negative stops at the end of `s`. */
  lemma SliceClamped<T>(s: seq<T>, lo: nat, hi: nat)
    requires lo <= hi
    ensures Slice(s, lo, hi) == s[Min(lo, |s|)..Min(hi, |s|)]
  {
  }

  /** One more piece after a concatenation that spells a prefix of `s`
      extends it to a longer prefix. */
  lemma ConcatExtends<T>(ss: seq<seq<T>>, s: seq<T>, a: nat, b: nat)
    requires |ss| > 0 && a <= b <= |s|
    requires Concat(ss[..|ss| - 1]) == s[..a]
    requires ss[|ss| - 1] == s[a..b]
    ensures Concat(ss) == s[..b]
  {
    assert Concat(ss) == Concat(ss[..|ss| - 1]) + ss[|ss| - 1];
    PrefixSplit(s, a, b);
  }

  /** Two adjacent pieces of a prefix make the longer prefix. */
  lemma PrefixSplit<T>(s: seq<T>, a: nat, b: nat)
    requires a <= b <= |s|
    ensures s[..a] + s[a..b] == s[..b]
  {
  }

  /** Dropping the last of `count` slices leaves the first `count - 1`. */
  lemma ChunksPrefix<T>(s: seq<T>, count: nat, width: nat)
    requires count > 0
    ensures Chunks(s, count, width)[..count - 1] == Chunks(s, count - 1, width)
  {
  }

  /** Consecutive slices of one width leave no gap and do not overlap: they
      concatenate back to a prefix of `s`. */
  lemma {:induction false} ConcatChunks<T>(s: seq<T>, count: nat, width: nat)
    ensures Concat(Chunks(s, count, width)) == s[..Min(count * width, |s|)]
  {
    if count > 0 {
      var lo: nat := (count - 1) * width;
      var hi: nat := count * width;
      assert lo <= hi by {
        assert hi == lo + width;
      }
      ChunksPrefix(s, count, width);
      ConcatChunks(s, count - 1, width);
      SliceClamped(s, lo, hi);
      ConcatExtends(Chunks(s, count, width), s, Min(lo, |s|), Min(hi, |s|));
    }
  }

  /** Concatenation distributes over appending one more sequence. */
  lemma ConcatSnoc<T>(ss: seq<seq<T>>, t: seq<T>)
    ensures Concat(ss + [t]) == Concat(ss) + t
  {
    assert (ss + [t])[..|ss|] == ss;
  }

  /** Removing the element at position `k`. */
  lemma RemoveAt<A>(b: seq<A>, k: nat)
    requires k < |b|
    ensures multiset(b[..k] + b[k + 1..]) == multiset(b) - multiset{b[k]}
  {
    assert b == b[..k] + [b[k]] + b[k + 1..];
  }

  /** Mapping over a sequence with one element taken out. */
  lemma MapSeqRemoveAt<A, B>(f: A -> B, b: seq<A>, k: nat)
    requires k < |b|
    ensures multiset(MapSeq(f, b)) == multiset{f(b[k])} + multiset(MapSeq(f, b[..k] + b[k + 1..]))
  {
    var m := MapSeq(f, b);
    assert m == m[..k] + [f(b[k])] + m[k + 1..];
    assert MapSeq(f, b[..k] + b[k + 1..]) == m[..k] + m[k + 1..];
  }

  /** Where the first element of `a` sits in a rearrangement `b` of it. */
  lemma IndexInPermutation<A>(a: seq<A>, b: seq<A>) returns (k: nat)
    requires multiset(a) == multiset(b)
    requires |a| > 0
    ensures k < |b| && b[k] == a[0]
  {
    assert a[0] in multiset(a);
    assert a[0] in b;
    k :| 0 <= k < |b| && b[k] == a[0];
  }

  /** Mapping over a non-empty sequence: its head, then the rest. */
  lemma MapSeqCons<A, B>(f: A -> B, a: seq<A>)
    requires |a| > 0
    ensures multiset(MapSeq(f, a)) == multiset{f(a[0])} + multiset(MapSeq(f, a[1..]))
  {
    assert MapSeq(f, a) == [f(a[0])] + MapSeq(f, a[1..]);
  }

  /** Reordering the elements of a sequence reorders their images: the
      multiset of `[f(x) for x in a]` depends only on the multiset of `a`. */
  lemma {:induction false} MapSeqMultiset<A, B>(f: A -> B, a: seq<A>, b: seq<A>)
    requires multiset(a) == multiset(b)
    ensures multiset(MapSeq(f, a)) == multiset(MapSeq(f, b))
    decreases |a|
  {
    if |a| == 0 {
      assert |multiset(b)| == 0;
    } else {
      var k := IndexInPermutation(a, b);
      var rest := b[..k] + b[k + 1..];
      RemoveAt(b, k);
      assert multiset(a[1..]) == multiset(rest) by {
        assert a == [a[0]] + a[1..];
      }
      MapSeqMultiset(f, a[1..], rest);
      MapSeqRemoveAt(f, b, k);
      MapSeqCons(f, a);
    }
  }

  /** Pairs in ascending order of their first component, as
      `sort(key=lambda i: i[0])` leaves them. */
  predicate SortedByKey<V>(s: seq<(int, V)>)
  {
    forall i, j :: 0 <= i < j < |s| ==> s[i].0 <= s[j].0
  }

  /** Every pair of `rest`, which holds the tail of `s` and `x`, has a key
      no smaller than the head of `s`. */
  lemma HeadKeyBelow<V>(x: (int, V), s: seq<(int, V)>, rest: seq<(int, V)>)
    requires SortedByKey(s) && |s| > 0 && s[0].0 < x.0
    requires multiset(rest) == multiset(s[1..]) + multiset{x}
    ensures forall j :: 0 <= j < |rest| ==> s[0].0 <= rest[j].0
  {
    forall j | 0 <= j < |rest|
      ensures s[0].0 <= rest[j].0
    {
      assert rest[j] in multiset(rest);
      if rest[j] != x {
        assert rest[j] in multiset(s[1..]);
        var m :| 0 <= m < |s[1..]| && s[1..][m] == rest[j];
        assert s[m + 1] == rest[j];
      }
    }
  }

  /** A pair whose key is no larger than any key of a sorted list can go
      in front of it. */
  lemma ConsSortedByKey<V>(h: (int, V), s: seq<(int, V)>)
    requires SortedByKey(s)
    requires forall j :: 0 <= j < |s| ==> h.0 <= s[j].0
    ensures SortedByKey([h] + s)
  {
    var r := [h] + s;
    forall i, j | 0 <= i < j < |r| ensures r[i].0 <= r[j].0 {
      if i > 0 {
        assert r[i] == s[i - 1] && r[j] == s[j - 1];
      } else {
        assert r[j] == s[j - 1];
      }
    }
  }

  /** Puts `x` into a list sorted by key, ahead of the entries with an
      equal or larger key. */
  function InsertByKey<V>(x: (int, V), s: seq<(int, V)>): (r: seq<(int, V)>)
    requires SortedByKey(s)
    ensures SortedByKey(r)
    ensures multiset(r) == multiset(s) + multiset{x}
  {
    if s == [] then [x]
    else if x.0 <= s[0].0 then
      ConsSortedByKey(x, s);
      [x] + s
    else
      var rest := InsertByKey(x, s[1..]);
      assert s == [s[0]] + s[1..];
      HeadKeyBelow(x, s, rest);
      ConsSortedByKey(s[0], rest);
      [s[0]] + rest
  }

  /** `list.sort(key=lambda i: i[0])`: the same pairs, in ascending order
      of their keys. */
  function SortByKey<V>(s: seq<(int, V)>): (r: seq<(int, V)>)
    ensures SortedByKey(r)
    ensures multiset(r) == multiset(s)
  {
    if s == [] then []
    else
      assert s == [s[0]] + s[1..];
      InsertByKey(s[0], SortByKey(s[1..]))
  }

  /** Two lists holding the same pairs, one sorted by key and the other
      with keys `lo, lo + 1, ...`, start with the same pair. */
  lemma SameHead<V>(xs: seq<(int, V)>, es: seq<(int, V)>, lo: int)
    requires SortedByKey(xs) && |xs| > 0 && |es| > 0
    requires forall i :: 0 <= i < |es| ==> es[i].0 == lo + i
    requires multiset(xs) == multiset(es)
    ensures xs[0] == es[0]
  {
    var j := IndexInPermutation(xs, es);
    var m := IndexInPermutation(es, xs);
    assert xs[0].0 <= xs[m].0 == lo;
    assert xs[0].0 == es[j].0 == lo + j;
    assert j == 0;
  }

  /** Taking the same first pair off two lists with equal contents leaves
      lists with equal contents. */
  lemma DropSameHead<V>(xs: seq<V>, es: seq<V>)
    requires |xs| > 0 && |es| > 0 && xs[0] == es[0]
    requires multiset(xs) == multiset(es)
    ensures multiset(xs[1..]) == multiset(es[1..])
  {
    assert xs == [xs[0]] + xs[1..];
    assert es == [es[0]] + es[1..];
    assert multiset(xs[1..]) == multiset(xs) - multiset{xs[0]};
    assert multiset(es[1..]) == multiset(es) - multiset{es[0]};
  }

  /** A list sorted by key that holds the same pairs as one whose keys are
      `lo, lo + 1, ...` is that list: when the keys are consecutive there
      is only one way to sort. */
  lemma {:induction false} SortedByKeyUnique<V>(xs: seq<(int, V)>, es: seq<(int, V)>, lo: int)
    requires SortedByKey(xs)
    requires forall i :: 0 <= i < |es| ==> es[i].0 == lo + i
    requires multiset(xs) == multiset(es)
    ensures xs == es
    decreases |xs|
  {
    assert |xs| == |multiset(xs)| == |multiset(es)| == |es|;
    if |xs| > 0 {
      SameHead(xs, es, lo);
      DropSameHead(xs, es);
      SortedByKeyUnique(xs[1..], es[1..], lo + 1);
      assert xs == [xs[0]] + xs[1..];
      assert es == [es[0]] + es[1..];
    }
  }
}
