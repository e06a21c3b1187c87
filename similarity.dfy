/** `FindTextSources.source_score`: both texts are cut into patches of
    `patch_size` characters, and the score is the best `duplicate_score`
    over all pairs of patches. `duplicate_score` is difflib's
    `SequenceMatcher.ratio()`, a float-valued library call; here it is the
    parameter `dup`, about which nothing is assumed unless a lemma says so. */
module Similarity {
  import opened Wrappers
  import opened PyBuiltins

  /** The default `patch_size`. */
  const PatchSize: nat := 380

  /** The default `minimum_comparison_patch`. */
  const MinimumComparisonPatch: nat := 140

  /** The similarity of two strings, as `duplicate_score` computes it. */
  type Scorer = (string, string) -> real

  /** `range(0, n - minimum, size)`: where the patches of a text of length
      `n` start. */
  function PatchOffsets(n: nat, size: nat, minimum: int): seq<int>
    requires size >= 1
  {
    Range(0, n - minimum, size)
  }

  /** `[s[i : i + size] for i in range(0, len(s) - minimum, size)]`. */
  function Patches(s: string, size: nat, minimum: int): seq<string>
    requires size >= 1
  {
    var offsets := PatchOffsets(|s|, size, minimum);
    seq(|offsets|, k requires 0 <= k < |offsets| => Slice(s, offsets[k], offsets[k] + size))
  }

  /** The scores the generator in `source_score` yields: for each patch of
      the first text, against each patch of the second. */
  function PairScores(dup: Scorer, ps: seq<string>, qs: seq<string>): (r: seq<real>)
    ensures |r| > 0 <==> |ps| > 0 && |qs| > 0
  {
    if ps == [] then []
    else MapSeq(q => dup(ps[0], q), qs) + PairScores(dup, ps[1..], qs)
  }

  /** `x` is the score of some pair of patches. */
  predicate IsPairScore(dup: Scorer, ps: seq<string>, qs: seq<string>, x: real)
  {
    exists i, j :: 0 <= i < |ps| && 0 <= j < |qs| && x == dup(ps[i], qs[j])
  }

  /** Every pair of patches is scored. */
  lemma {:induction false} PairScored(dup: Scorer, ps: seq<string>, qs: seq<string>, i: nat, j: nat)
    requires i < |ps| && j < |qs|
    ensures dup(ps[i], qs[j]) in PairScores(dup, ps, qs)
  {
    var row := MapSeq(q => dup(ps[0], q), qs);
    if i == 0 {
      assert row[j] == dup(ps[0], qs[j]);
    } else {
      PairScored(dup, ps[1..], qs, i - 1, j);
      assert ps[1..][i - 1] == ps[i];
    }
  }

  /** Nothing but pairs of patches is scored. */
  lemma {:induction false} OnlyPairsScored(dup: Scorer, ps: seq<string>, qs: seq<string>, x: real)
    requires x in PairScores(dup, ps, qs)
    ensures IsPairScore(dup, ps, qs, x)
  {
    var row := MapSeq(q => dup(ps[0], q), qs);
    if x in row {
      var j :| 0 <= j < |row| && row[j] == x;
      assert x == dup(ps[0], qs[j]);
    } else {
      OnlyPairsScored(dup, ps[1..], qs, x);
      var i, j :| 0 <= i < |ps[1..]| && 0 <= j < |qs| && x == dup(ps[1..][i], qs[j]);
      assert x == dup(ps[i + 1], qs[j]);
    }
  }

  /** Python's `max` over a sequence of numbers; `None` is the ValueError
      it raises on an empty one. */
  function MaxOf(xs: seq<real>): (r: Option<real>)
    ensures r.None? <==> |xs| == 0
    ensures r.Some? ==> r.value in xs && forall i :: 0 <= i < |xs| ==> xs[i] <= r.value
  {
    if |xs| == 0 then None
    else if |xs| == 1 then Some(xs[0])
    else
      var m := MaxOf(xs[1..]).value;
      assert forall i :: 1 <= i < |xs| ==> xs[i] == xs[1..][i - 1];
      if xs[0] >= m then Some(xs[0]) else Some(m)
  }

  /** `source_score(searched, website, size, minimum)`; `None` is the
      ValueError from `max` when either text yields no patch. */
  function SourceScore(dup: Scorer, searched: string, website: string, size: nat, minimum: int): (r: Option<real>)
    requires size >= 1
    ensures r.Some? <==> |searched| > minimum && |website| > minimum
  {
    PatchesExist(searched, size, minimum);
    PatchesExist(website, size, minimum);
    MaxOf(PairScores(dup, Patches(searched, size, minimum), Patches(website, size, minimum)))
  }

  /** A text yields a patch exactly when it is longer than `minimum`. */
  lemma PatchesExist(s: string, size: nat, minimum: int)
    requires size >= 1
    ensures |Patches(s, size, minimum)| > 0 <==> |s| > minimum
  {
  }

  /** The score is at least the score of every pair of patches and is the
      score of one of them; there is none when either text is not longer
      than `minimum`. */
  lemma SourceScoreIsBestPair(dup: Scorer, searched: string, website: string, size: nat, minimum: int)
    requires size >= 1
    ensures var ps, qs := Patches(searched, size, minimum), Patches(website, size, minimum);
      var r := SourceScore(dup, searched, website, size, minimum);
      && (r.Some? <==> |searched| > minimum && |website| > minimum)
      && (r.Some? ==> forall i, j :: 0 <= i < |ps| && 0 <= j < |qs| ==> dup(ps[i], qs[j]) <= r.value)
      && (r.Some? ==> IsPairScore(dup, ps, qs, r.value))
  {
    var ps, qs := Patches(searched, size, minimum), Patches(website, size, minimum);
    var xs := PairScores(dup, ps, qs);
    PatchesExist(searched, size, minimum);
    PatchesExist(website, size, minimum);
    var r := MaxOf(xs);
    if r.Some? {
      forall i, j | 0 <= i < |ps| && 0 <= j < |qs|
        ensures dup(ps[i], qs[j]) <= r.value
      {
        PairScored(dup, ps, qs, i, j);
      }
      OnlyPairsScored(dup, ps, qs, r.value);
    }
  }

  /** Patch `k` starts at `k * size`: the patches are the consecutive
      `size`-wide slices of the text. */
  lemma PatchesAreChunks(s: string, size: nat, minimum: int)
    requires size >= 1
    ensures Patches(s, size, minimum) == Chunks(s, |PatchOffsets(|s|, size, minimum)|, size)
  {
  }

  /** Patch `k` of a text: the `size` characters from `k * size`, cut short
      by the end of the text. */
  lemma PatchAt(s: string, size: nat, minimum: nat, k: nat)
    requires size >= 1 && k < |Patches(s, size, minimum)|
    ensures var o := PatchOffsets(|s|, size, minimum)[k];
      && 0 <= o < |s| - minimum
      && Patches(s, size, minimum)[k] == s[o..Min(o + size, |s|)]
  {
  }

  /** The lengths of the patches when `minimum < size` (140 and 380 by
      default): every patch is longer than `minimum` and at most `size`
      long, and each one but the last is exactly `size` long. */
  lemma PatchLengths(s: string, size: nat, minimum: nat)
    requires 1 <= size && minimum < size
    ensures var ps := Patches(s, size, minimum);
      && (forall k :: 0 <= k < |ps| ==> minimum < |ps[k]| <= size)
      && (forall k :: 0 <= k < |ps| - 1 ==> |ps[k]| == size)
  {
    var offsets := PatchOffsets(|s|, size, minimum);
    var ps := Patches(s, size, minimum);
    forall k | 0 <= k < |ps|
      ensures minimum < |ps[k]| <= size
      ensures k < |ps| - 1 ==> |ps[k]| == size
    {
      PatchAt(s, size, minimum, k);
      if k < |ps| - 1 {
        PatchAt(s, size, minimum, k + 1);
        assert offsets[k + 1] == offsets[k] + size;
      }
    }
  }

  /** The patches follow one another without gap or overlap, and at most
      `minimum` trailing characters are left out. */
  lemma PatchCoverage(s: string, size: nat, minimum: nat)
    requires size >= 1
    ensures exists covered ::
      0 <= covered <= |s| && |s| - minimum <= covered && Concat(Patches(s, size, minimum)) == s[..covered]
  {
    var offsets := PatchOffsets(|s|, size, minimum);
    PatchesAreChunks(s, size, minimum);
    ConcatChunks(s, |offsets|, size);
    assert 0 + |offsets| * size >= |s| - minimum;
    var covered := Min(|offsets| * size, |s|);
    assert Concat(Patches(s, size, minimum)) == s[..covered];
  }

  /** With the default sizes: 141 to 380 characters per patch, and at most
      140 characters left uncovered at the end. */
  lemma DefaultPatchShape(s: string)
    ensures var ps := Patches(s, PatchSize, MinimumComparisonPatch);
      && (forall k :: 0 <= k < |ps| ==> 141 <= |ps[k]| <= 380)
      && exists covered :: 0 <= covered <= |s| && |s| - 140 <= covered && Concat(ps) == s[..covered]
  {
    PatchLengths(s, PatchSize, MinimumComparisonPatch);
    PatchCoverage(s, PatchSize, MinimumComparisonPatch);
  }

  /** A ratio in [0, 1] for every pair gives a score in [0, 1]. */
  lemma ScoreInUnitInterval(dup: Scorer, searched: string, website: string, size: nat, minimum: int)
    requires size >= 1
    requires forall a, b :: 0.0 <= dup(a, b) <= 1.0
    requires SourceScore(dup, searched, website, size, minimum).Some?
    ensures 0.0 <= SourceScore(dup, searched, website, size, minimum).value <= 1.0
  {
    SourceScoreIsBestPair(dup, searched, website, size, minimum);
  }

  /** A text compared with itself scores 1 when the ratio of identical
      strings is 1 and no ratio exceeds 1. */
  lemma SelfScoreIsOne(dup: Scorer, text: string, size: nat, minimum: int)
    requires size >= 1 && |text| > minimum
    requires forall a :: dup(a, a) == 1.0
    requires forall a, b :: dup(a, b) <= 1.0
    ensures SourceScore(dup, text, text, size, minimum) == Some(1.0)
  {
    var ps := Patches(text, size, minimum);
    SourceScoreIsBestPair(dup, text, text, size, minimum);
    assert dup(ps[0], ps[0]) == 1.0;
  }
}
