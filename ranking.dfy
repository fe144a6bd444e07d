/** Ranking of scored sentences: the descending sort on (score, index), the
    cut to the first N, and the re-sort of those by index. */
module Ranking {

  /** One scored sentence: its score, its position among the sentences and
      its text; the source's tuple (score, idx, s). */
  datatype Entry = Entry(score: real, idx: nat, text: string)

  /** Strict rank: a higher score, or an equal score and a later position. */
  predicate Outranks(x: Entry, y: Entry) {
    x.score > y.score || (x.score == y.score && x.idx > y.idx)
  }

  /** The descending order of a sort on (score, idx). */
  predicate RankedAtLeast(x: Entry, y: Entry) {
    x.score > y.score || (x.score == y.score && x.idx >= y.idx)
  }

  predicate ByIndex(x: Entry, y: Entry) {
    x.idx <= y.idx
  }

  ghost predicate TotalPreorder(le: (Entry, Entry) -> bool) {
    && (forall x, y :: le(x, y) || le(y, x))
    && (forall x, y, z :: le(x, y) && le(y, z) ==> le(x, z))
  }

  predicate SortedBy(s: seq<Entry>, le: (Entry, Entry) -> bool) {
    forall p, q :: 0 <= p < q < |s| ==> le(s[p], s[q])
  }

  predicate Distinct(s: seq<Entry>) {
    forall p, q :: 0 <= p < q < |s| ==> s[p] != s[q]
  }

  /** Entry i sits at position i, as enumerate produces it. */
  predicate WellIndexed(entries: seq<Entry>) {
    forall i :: 0 <= i < |entries| ==> entries[i].idx == i
  }

  function Min(a: nat, b: nat): nat {
    if a <= b then a else b
  }

  /** `picked` is a top-n selection of `entries`: min(n, |entries|) distinct
      positions, in ascending order, each entry picked outranking each entry
      left out. */
  predicate IsTopSelection(entries: seq<Entry>, n: nat, picked: seq<nat>) {
    && |picked| == Min(n, |entries|)
    && (forall k :: 0 <= k < |picked| ==> picked[k] < |entries|)
    && (forall k, l :: 0 <= k < l < |picked| ==> picked[k] < picked[l])
    && (forall i, j :: i in picked && 0 <= j < |entries| && j !in picked ==> Outranks(entries[i], entries[j]))
  }

  function Indices(s: seq<Entry>): (r: seq<nat>)
    ensures |r| == |s|
    ensures forall k :: 0 <= k < |s| ==> r[k] == s[k].idx
  {
    seq(|s|, k requires 0 <= k < |s| => s[k].idx)
  }

  lemma RankedAtLeastIsTotalPreorder()
    ensures TotalPreorder(RankedAtLeast)
  {
  }

  lemma ByIndexIsTotalPreorder()
    ensures TotalPreorder(ByIndex)
  {
  }

  /** list.sort: an in-place insertion sort of `a` by the total preorder `le`. */
  method SortInPlace(a: array<Entry>, le: (Entry, Entry) -> bool)
    requires TotalPreorder(le)
    modifies a
    ensures SortedBy(a[..], le)
    ensures multiset(a[..]) == multiset(old(a[..]))
  {
    var i := 0;
    while i < a.Length
      invariant 0 <= i <= a.Length
      invariant forall p, q :: 0 <= p < q < i ==> le(a[p], a[q])
      invariant multiset(a[..]) == multiset(old(a[..]))
    {
      var j := i;
      while j > 0 && !le(a[j - 1], a[j])
        invariant 0 <= j <= i
        invariant SortedExcept(a[..], i, j, le)
        invariant forall q :: j < q <= i ==> le(a[j], a[q])
        invariant multiset(a[..]) == multiset(old(a[..]))
      {
        a[j - 1], a[j] := a[j], a[j - 1];
        j := j - 1;
      }
      InsertionDone(a[..], i, j, le);
      i := i + 1;
    }
  }

  /** Positions 0..i are in order except that position j may be out of place. */
  predicate SortedExcept(s: seq<Entry>, i: nat, j: nat, le: (Entry, Entry) -> bool)
    requires i < |s|
  {
    forall p, q :: 0 <= p < q <= i && p != j && q != j ==> le(s[p], s[q])
  }

  /** Once the element at j is in place, positions 0..i are in order. */
  lemma InsertionDone(s: seq<Entry>, i: nat, j: nat, le: (Entry, Entry) -> bool)
    requires TotalPreorder(le)
    requires j <= i < |s|
    requires SortedExcept(s, i, j, le)
    requires forall q :: j < q <= i ==> le(s[j], s[q])
    requires j == 0 || le(s[j - 1], s[j])
    ensures forall p, q :: 0 <= p < q <= i ==> le(s[p], s[q])
  {
    forall p, q | 0 <= p < q <= i
      ensures le(s[p], s[q])
    {
      if q == j && p < j - 1 {
        assert le(s[p], s[j - 1]);
      }
    }
  }

  /** Position-wise uniqueness survives a permutation. */
  lemma DistinctPermutation(s: seq<Entry>, t: seq<Entry>)
    requires multiset(s) == multiset(t)
    requires Distinct(t)
    ensures Distinct(s)
  {
    forall p, q | 0 <= p < q < |s|
      ensures s[p] != s[q]
    {
      if s[p] == s[q] {
        TwoOccurrences(s, p, q);
        AtMostOnce(t, s[p]);
        assert false;
      }
    }
  }

  lemma TwoOccurrences(s: seq<Entry>, p: nat, q: nat)
    requires p < q < |s| && s[p] == s[q]
    ensures multiset(s)[s[p]] >= 2
  {
    assert s == s[..p] + [s[p]] + s[p + 1..q] + [s[q]] + s[q + 1..];
  }

  lemma {:induction false} AtMostOnce(t: seq<Entry>, x: Entry)
    requires Distinct(t)
    ensures multiset(t)[x] <= 1
  {
    if t != [] {
      assert t == [t[0]] + t[1..];
      AtMostOnce(t[1..], x);
      if t[0] == x {
        assert x !in t[1..];
      }
    }
  }

  /** Every entry of a permutation of well-indexed entries is the entry at
      its own index. */
  lemma FromEntries(entries: seq<Entry>, s: seq<Entry>, k: nat)
    requires WellIndexed(entries)
    requires multiset(s) <= multiset(entries)
    requires k < |s|
    ensures s[k].idx < |entries| && entries[s[k].idx] == s[k]
  {
    assert s[k] in multiset(s);
    assert s[k] in entries;
  }

  /** The first n entries of a descending sort of well-indexed entries,
      re-sorted by index, form the top-n selection; the source's
      `sorted(scores[:n], key=idx)` after `scores.sort(reverse=True)`. */
  method RankAndSelect(entries: seq<Entry>, n: nat) returns (top: seq<Entry>)
    requires WellIndexed(entries)
    ensures IsTopSelection(entries, n, Indices(top))
    ensures forall k :: 0 <= k < |top| ==> top[k] == entries[top[k].idx]
  {
    var a := new Entry[|entries|](i requires 0 <= i < |entries| => entries[i]);
    assert a[..] == entries;
    RankedAtLeastIsTotalPreorder();
    SortInPlace(a, RankedAtLeast);
    var m := Min(n, a.Length);
    var b := new Entry[m](i requires 0 <= i < m reads a => a[i]);
    assert b[..] == a[..m];
    ByIndexIsTotalPreorder();
    SortInPlace(b, ByIndex);
    top := b[..];
    SelectionIsTop(entries, a[..], n, m, top);
  }

  lemma EntriesDistinct(entries: seq<Entry>)
    requires WellIndexed(entries)
    ensures Distinct(entries)
  {
  }

  /** The proof obligation of RankAndSelect, on values: `ranked` is a
      descending permutation of the entries, `top` a by-index permutation of
      its first m. */
  lemma SelectionIsTop(entries: seq<Entry>, ranked: seq<Entry>, n: nat, m: nat, top: seq<Entry>)
    requires WellIndexed(entries)
    requires multiset(ranked) == multiset(entries)
    requires SortedBy(ranked, RankedAtLeast)
    requires m == Min(n, |ranked|)
    requires multiset(top) == multiset(ranked[..m])
    requires SortedBy(top, ByIndex)
    ensures IsTopSelection(entries, n, Indices(top))
    ensures forall k :: 0 <= k < |top| ==> top[k] == entries[top[k].idx]
  {
    var picked := Indices(top);
    assert ranked == ranked[..m] + ranked[m..];
    assert multiset(ranked[..m]) <= multiset(entries);
    assert |top| == m by {
      assert |multiset(top)| == |multiset(ranked[..m])|;
    }
    forall k | 0 <= k < |top|
      ensures top[k].idx < |entries| && entries[top[k].idx] == top[k]
    {
      FromEntries(entries, top, k);
    }
    EntriesDistinct(entries);
    DistinctPermutation(ranked, entries);
    assert Distinct(ranked[..m]);
    DistinctPermutation(top, ranked[..m]);
    forall k, l | 0 <= k < l < |picked|
      ensures picked[k] < picked[l]
    {
      assert top[k] != top[l];
    }
    forall i, j | i in picked && 0 <= j < |entries| && j !in picked
      ensures Outranks(entries[i], entries[j])
    {
      assert i < |entries|;
      Separated(entries, ranked, m, top, i, j);
    }
  }

  /** A picked entry sits in the first m of the ranking, an unpicked one
      after them, so the picked one ranks at least as high; being different
      entries, it ranks strictly higher. */
  lemma Separated(entries: seq<Entry>, ranked: seq<Entry>, m: nat, top: seq<Entry>, i: nat, j: nat)
    requires WellIndexed(entries)
    requires multiset(ranked) == multiset(entries)
    requires SortedBy(ranked, RankedAtLeast)
    requires m <= |ranked|
    requires multiset(top) == multiset(ranked[..m])
    requires i < |entries| && i in Indices(top) && j < |entries| && j !in Indices(top)
    ensures Outranks(entries[i], entries[j])
  {
    var q := PickedInFront(entries, ranked, m, top, i);
    var p := UnpickedBehind(entries, ranked, m, top, j);
    assert RankedAtLeast(ranked[q], ranked[p]);
    assert i != j && entries[i].idx == i && entries[j].idx == j;
  }

  /** A picked entry sits among the first m of the ranking. */
  lemma PickedInFront(entries: seq<Entry>, ranked: seq<Entry>, m: nat, top: seq<Entry>, i: nat)
      returns (q: nat)
    requires WellIndexed(entries)
    requires multiset(ranked) == multiset(entries)
    requires m <= |ranked|
    requires multiset(top) == multiset(ranked[..m])
    requires i < |entries| && i in Indices(top)
    ensures q < m && ranked[q] == entries[i]
  {
    var k :| 0 <= k < |top| && top[k].idx == i;
    assert multiset(ranked[..m]) <= multiset(entries) by {
      assert ranked == ranked[..m] + ranked[m..];
    }
    FromEntries(entries, top, k);
    assert top[k] in multiset(ranked[..m]);
    q :| 0 <= q < m && ranked[..m][q] == top[k];
  }

  /** An entry left out sits after the first m of the ranking. */
  lemma UnpickedBehind(entries: seq<Entry>, ranked: seq<Entry>, m: nat, top: seq<Entry>, j: nat)
      returns (p: nat)
    requires WellIndexed(entries)
    requires multiset(ranked) == multiset(entries)
    requires m <= |ranked|
    requires multiset(top) == multiset(ranked[..m])
    requires j < |entries| && j !in Indices(top)
    ensures m <= p < |ranked| && ranked[p] == entries[j]
  {
    assert entries[j] in multiset(ranked);
    p :| 0 <= p < |ranked| && ranked[p] == entries[j];
    assert p < m ==> entries[j] in multiset(top) by {
      if p < m {
        assert ranked[..m][p] == entries[j];
      }
    }
    PickedIfInTop(top, entries[j]);
    assert entries[j].idx == j;
  }

  lemma PickedIfInTop(top: seq<Entry>, x: Entry)
    ensures x in multiset(top) ==> x.idx in Indices(top)
  {
    if x in multiset(top) {
      var l :| 0 <= l < |top| && top[l] == x;
      assert Indices(top)[l] == x.idx;
    }
  }

  /** Top selections are unique: the ranking is strict, so there is only one
      set of min(n, |entries|) entries each of which outranks every other. */
  lemma TopSelectionUnique(entries: seq<Entry>, n: nat, p1: seq<nat>, p2: seq<nat>)
    requires IsTopSelection(entries, n, p1)
    requires IsTopSelection(entries, n, p2)
    ensures p1 == p2
  {
    var s1 := Elements(p1);
    var s2 := Elements(p2);
    IncreasingCard(p1);
    IncreasingCard(p2);
    NoCrossing(entries, n, p1, p2);
    EitherDifferenceEmpty(entries, s1 - s2, s2 - s1);
    SubsetSameCard(s1, s2);
    IncreasingSameSet(p1, p2);
  }

  /** An entry picked only by the first selection and one picked only by the
      second would each outrank the other. */
  lemma NoCrossing(entries: seq<Entry>, n: nat, p1: seq<nat>, p2: seq<nat>)
    requires IsTopSelection(entries, n, p1)
    requires IsTopSelection(entries, n, p2)
    ensures forall i, j :: i in Elements(p1) - Elements(p2) && j in Elements(p2) - Elements(p1) ==>
      i < |entries| && j < |entries| && Outranks(entries[i], entries[j]) && Outranks(entries[j], entries[i])
  {
    forall i, j | i in Elements(p1) - Elements(p2) && j in Elements(p2) - Elements(p1)
      ensures i < |entries| && j < |entries|
      ensures Outranks(entries[i], entries[j]) && Outranks(entries[j], entries[i])
    {
      assert i in p1 && i !in p2 && j in p2 && j !in p1;
    }
  }

  lemma EitherDifferenceEmpty(entries: seq<Entry>, d1: set<nat>, d2: set<nat>)
    requires forall i, j :: i in d1 && j in d2 ==>
      i < |entries| && j < |entries| && Outranks(entries[i], entries[j]) && Outranks(entries[j], entries[i])
    ensures d1 == {} || d2 == {}
  {
    if d1 != {} {
      var i :| i in d1;
      assert forall j :: j in d2 ==> Outranks(entries[i], entries[j]) && Outranks(entries[j], entries[i]);
    }
  }

  /** Of two sets of one size, one without anything the other lacks, or the
      other way round, are equal. */
  lemma SubsetSameCard(a: set<nat>, b: set<nat>)
    requires a - b == {} || b - a == {}
    requires |a| == |b|
    ensures a == b
  {
    assert a == (a - b) + (a * b) && (a - b) * (a * b) == {};
    assert b == (b - a) + (a * b) && (b - a) * (a * b) == {};
    assert |a - b| == |b - a|;
    assert a - b == {} && b - a == {};
  }

  function Elements(p: seq<nat>): (r: set<nat>)
    ensures forall i :: i in r <==> i in p
  {
    if p == [] then {} else {p[0]} + Elements(p[1..])
  }

  lemma {:induction false} IncreasingCard(p: seq<nat>)
    requires forall k, l :: 0 <= k < l < |p| ==> p[k] < p[l]
    ensures |Elements(p)| == |p|
  {
    if p != [] {
      IncreasingCard(p[1..]);
      assert p[0] !in Elements(p[1..]);
    }
  }

  /** Two strictly increasing sequences holding the same values are equal. */
  lemma {:induction false} IncreasingSameSet(p1: seq<nat>, p2: seq<nat>)
    requires forall k, l :: 0 <= k < l < |p1| ==> p1[k] < p1[l]
    requires forall k, l :: 0 <= k < l < |p2| ==> p2[k] < p2[l]
    requires forall i :: i in p1 <==> i in p2
    ensures p1 == p2
    decreases |p1|
  {
    assert p2 != [] ==> p2[0] in p1;
    if p1 != [] {
      assert p2 != [] by {
        assert p1[0] in p1;
      }
      assert p1[0] == p2[0] by {
        assert p1[0] in p2 && p2[0] in p1;
      }
      forall i
        ensures i in p1[1..] <==> i in p2[1..]
      {
        if i in p1[1..] {
          assert i in p2 && i != p2[0];
        }
        if i in p2[1..] {
          assert i in p1 && i != p1[0];
        }
      }
      IncreasingSameSet(p1[1..], p2[1..]);
      assert p1 == [p1[0]] + p1[1..] && p2 == [p2[0]] + p2[1..];
    }
  }

  /** Ties go to the later sentence: of two equally scored entries, the
      earlier is picked only if the later is too. */
  lemma LaterWinsTies(entries: seq<Entry>, n: nat, picked: seq<nat>, i: nat, j: nat)
    requires WellIndexed(entries)
    requires IsTopSelection(entries, n, picked)
    requires i < j < |entries| && entries[i].score == entries[j].score
    requires i in picked
    ensures j in picked
  {
    assert j !in picked ==> Outranks(entries[i], entries[j]);
  }

  /** A higher score is always preferred: a picked entry never scores below
      one left out. */
  lemma HigherScoresPicked(entries: seq<Entry>, n: nat, picked: seq<nat>, i: nat, j: nat)
    requires IsTopSelection(entries, n, picked)
    requires i < |entries| && j < |entries| && entries[j].score > entries[i].score
    requires i in picked
    ensures j in picked
  {
    assert j !in picked ==> Outranks(entries[i], entries[j]);
  }
}
