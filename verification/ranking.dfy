/**
 * The order `sort_by!` puts a city list in, and the number each photo receives from it.
 *
 * The sort key is the two-element array `[date, time]`; Ruby compares such arrays element by
 * element and the strings by character codes, which is `StampLess`. The number a photo gets is
 * its position in the sorted list plus one. `Rank` states that number independently of any
 * sorting: one more than the count of photos of the same city taken strictly earlier. The
 * lemmas below show that the sorted list numbers the photos exactly by `Rank`, and that `Rank`
 * numbers the photos of a city with 1 to k, each once, in chronological order.
 */
module Ranking {
  import opened Text
  import opened Grammar
  import opened Grouping

  /** `[p.date, p.time] < [q.date, q.time]` under Ruby's array comparison. */
  predicate StampLess(p: Photo, q: Photo) {
    LexLess(p.date, q.date) || (p.date == q.date && LexLess(p.time, q.time))
  }

  predicate SameStamp(p: Photo, q: Photo) {
    p.date == q.date && p.time == q.time
  }

  lemma StampLessIrreflexive(p: Photo)
    ensures !StampLess(p, p)
  {
    LexLessIrreflexive(p.date);
    LexLessIrreflexive(p.time);
  }

  lemma StampLessTransitive(p: Photo, q: Photo, r: Photo)
    requires StampLess(p, q) && StampLess(q, r)
    ensures StampLess(p, r)
  {
    if LexLess(p.date, q.date) && LexLess(q.date, r.date) {
      LexLessTransitive(p.date, q.date, r.date);
    } else if p.date == q.date && q.date == r.date {
      LexLessTransitive(p.time, q.time, r.time);
    }
  }

  lemma StampLessAsymmetric(p: Photo, q: Photo)
    requires StampLess(p, q)
    ensures !StampLess(q, p)
  {
    if StampLess(q, p) {
      StampLessTransitive(p, q, p);
      StampLessIrreflexive(p);
    }
  }

  /** Two different stamps are ordered one way or the other. */
  lemma StampLessTotal(p: Photo, q: Photo)
    requires !SameStamp(p, q)
    ensures StampLess(p, q) || StampLess(q, p)
  {
    if p.date != q.date {
      LexLessTotal(p.date, q.date);
    } else {
      LexLessTotal(p.time, q.time);
    }
  }

  /** "Not later than" is transitive. */
  lemma StampLeTransitive(p: Photo, q: Photo, r: Photo)
    requires !StampLess(q, p) && !StampLess(r, q)
    ensures !StampLess(r, p)
  {
    if !SameStamp(p, q) {
      StampLessTotal(p, q);
      if StampLess(r, p) {
        StampLessTransitive(r, p, q);
      }
    }
  }

  /** Non-decreasing in `[date, time]`. */
  predicate Sorted(s: seq<Entry>) {
    forall j, k :: 0 <= j < k < |s| ==> !StampLess(s[k].photo, s[j].photo)
  }

  /** No two entries of the list share a date and time. */
  predicate StampsDistinct(s: seq<Entry>) {
    forall j, k :: 0 <= j < |s| && 0 <= k < |s| && SameStamp(s[j].photo, s[k].photo) ==> j == k
  }

  /** The input promise that no two photos of one city share a date and time. */
  predicate DistinctStamps(ps: seq<Photo>) {
    forall i, j {:trigger SameStamp(ps[i], ps[j])} :: 0 <= i < |ps| && 0 <= j < |ps| && ps[i].city == ps[j].city && SameStamp(ps[i], ps[j]) ==> i == j
  }

  // ---------------------------------------------------------------------------
  // Sorting a city list in place
  // ---------------------------------------------------------------------------

  /** The first `n` entries are non-decreasing in `[date, time]`. */
  predicate SortedUpTo(s: seq<Entry>, n: nat) {
    forall x, y :: 0 <= x < y < n && y < |s| ==> !StampLess(s[y].photo, s[x].photo)
  }

  /**
   * The inner loop of the insertion sort carries the entry now at `j` leftwards: the first
   * `i + 1` entries are in order apart from it, and it is not later than any of them to its right.
   */
  predicate Inserting(s: seq<Entry>, i: nat, j: nat) {
    && j <= i < |s|
    && (forall x, y :: 0 <= x < y <= i && y != j && x != j ==> !StampLess(s[y].photo, s[x].photo))
    && (forall y :: j < y <= i ==> !StampLess(s[y].photo, s[j].photo))
  }

  /** Swapping the carried entry with a later left neighbour moves it one step left. */
  lemma InsertionStep(s: seq<Entry>, i: nat, j: nat)
    requires Inserting(s, i, j) && 0 < j && StampLess(s[j].photo, s[j - 1].photo)
    ensures Inserting(s[j - 1 := s[j]][j := s[j - 1]], i, j - 1)
  {
    StampLessAsymmetric(s[j].photo, s[j - 1].photo);
  }

  /**
   * Where the inner loop stops, the carried entry is not earlier than its left neighbour, so
   * the first `i + 1` entries are in order.
   */
  lemma InsertionDone(s: seq<Entry>, i: nat, j: nat)
    requires Inserting(s, i, j)
    requires j > 0 ==> !StampLess(s[j].photo, s[j - 1].photo)
    ensures SortedUpTo(s, i + 1)
  {
    forall x | 0 <= x < j ensures !StampLess(s[j].photo, s[x].photo) {
      if x < j - 1 {
        StampLeTransitive(s[x].photo, s[j - 1].photo, s[j].photo);
      }
    }
  }

  /**
   * `sort_by!` on one city list, as an insertion sort: the list ends up non-decreasing in
   * `[date, time]` and holds the same entries as before.
   */
  method SortByStamp(a: array<Entry>)
    modifies a
    ensures Sorted(a[..])
    ensures multiset(a[..]) == multiset(old(a[..]))
  {
    var i := 0;
    while i < a.Length
      invariant i <= a.Length
      invariant SortedUpTo(a[..], i)
      invariant multiset(a[..]) == multiset(old(a[..]))
    {
      var j := i;
      while j > 0 && StampLess(a[j].photo, a[j - 1].photo)
        invariant Inserting(a[..], i, j)
        invariant multiset(a[..]) == multiset(old(a[..]))
      {
        ghost var s := a[..];
        InsertionStep(s, i, j);
        a[j], a[j - 1] := a[j - 1], a[j];
        assert a[..] == s[j - 1 := s[j]][j := s[j - 1]];
        j := j - 1;
      }
      InsertionDone(a[..], i, j);
      i := i + 1;
    }
  }

  // ---------------------------------------------------------------------------
  // Counting earlier photos
  // ---------------------------------------------------------------------------

  /** How many entries of `l` were taken strictly before `p`. */
  function CountEarlier(l: seq<Entry>, p: Photo): (n: nat)
    ensures n <= |l|
  {
    if |l| == 0 then 0
    else (if StampLess(l[0].photo, p) then 1 else 0) + CountEarlier(l[1..], p)
  }

  lemma {:induction false} CountEarlierAppend(l: seq<Entry>, m: seq<Entry>, p: Photo)
    ensures CountEarlier(l + m, p) == CountEarlier(l, p) + CountEarlier(m, p)
  {
    if |l| > 0 {
      assert (l + m)[1..] == l[1..] + m;
      CountEarlierAppend(l[1..], m, p);
    } else {
      assert l + m == m;
    }
  }

  /** Taking out the entry at position `k` removes its contribution to the count. */
  lemma CountEarlierRemove(m: seq<Entry>, k: nat, p: Photo)
    requires k < |m|
    ensures CountEarlier(m, p) == CountEarlier(m[..k] + m[k + 1..], p) + (if StampLess(m[k].photo, p) then 1 else 0)
  {
    assert m == m[..k] + [m[k]] + m[k + 1..];
    CountEarlierAppend(m[..k] + [m[k]], m[k + 1..], p);
    CountEarlierAppend(m[..k], [m[k]], p);
    CountEarlierAppend(m[..k], m[k + 1..], p);
  }

  /** Taking out the entry at position `k` takes one copy of it out of the multiset. */
  lemma MultisetRemove(m: seq<Entry>, k: nat)
    requires k < |m|
    ensures multiset(m[..k] + m[k + 1..]) == multiset(m) - multiset{m[k]}
  {
    assert m == m[..k] + [m[k]] + m[k + 1..];
  }

  /** Taking the first entry of `l` and its copy at `k` out of a permutation `m` leaves permutations. */
  lemma PermutationRest(l: seq<Entry>, m: seq<Entry>, k: nat)
    requires multiset(l) == multiset(m) && 0 < |l| && k < |m| && m[k] == l[0]
    ensures multiset(l[1..]) == multiset(m[..k] + m[k + 1..])
  {
    assert l == [l[0]] + l[1..];
    MultisetRemove(m, k);
  }

  /** The count does not depend on the order of the list. */
  lemma {:induction false} CountEarlierPermutation(l: seq<Entry>, m: seq<Entry>, p: Photo)
    requires multiset(l) == multiset(m)
    ensures CountEarlier(l, p) == CountEarlier(m, p)
    decreases |l|
  {
    if |l| == 0 {
      assert |m| == |multiset(m)| == 0;
    } else {
      assert l[0] in multiset(m);
      var k :| 0 <= k < |m| && m[k] == l[0];
      var rest := m[..k] + m[k + 1..];
      PermutationRest(l, m, k);
      CountEarlierPermutation(l[1..], rest, p);
      CountEarlierRemove(m, k, p);
    }
  }

  /** An entry of the list that is not earlier than `p` keeps the count below the length. */
  lemma {:induction false} CountEarlierMissing(l: seq<Entry>, p: Photo, k: nat)
    requires k < |l| && !StampLess(l[k].photo, p)
    ensures CountEarlier(l, p) < |l|
  {
    if k > 0 {
      CountEarlierMissing(l[1..], p, k - 1);
    }
  }

  lemma {:induction false} CountEarlierMonotone(l: seq<Entry>, p: Photo, q: Photo)
    requires StampLess(p, q)
    ensures CountEarlier(l, p) <= CountEarlier(l, q)
  {
    if |l| > 0 {
      if StampLess(l[0].photo, p) {
        StampLessTransitive(l[0].photo, p, q);
      }
      CountEarlierMonotone(l[1..], p, q);
    }
  }

  /** An entry of the list between `p` (inclusive) and `q` makes the count for `q` larger. */
  lemma {:induction false} CountEarlierStrict(l: seq<Entry>, p: Photo, q: Photo, k: nat)
    requires StampLess(p, q)
    requires k < |l| && !StampLess(l[k].photo, p) && StampLess(l[k].photo, q)
    ensures CountEarlier(l, p) < CountEarlier(l, q)
  {
    if k == 0 {
      CountEarlierMonotone(l[1..], p, q);
    } else {
      if StampLess(l[0].photo, p) {
        StampLessTransitive(l[0].photo, p, q);
      }
      CountEarlierStrict(l[1..], p, q, k - 1);
    }
  }

  /** For a photo `x` of the list and a different stamp `y`, `x` is earlier exactly when its count is smaller. */
  lemma CountEarlierOrder(l: seq<Entry>, k: nat, y: Photo)
    requires k < |l| && !SameStamp(l[k].photo, y)
    ensures StampLess(l[k].photo, y) <==> CountEarlier(l, l[k].photo) < CountEarlier(l, y)
  {
    var x := l[k].photo;
    StampLessIrreflexive(x);
    StampLessTotal(x, y);
    if StampLess(x, y) {
      CountEarlierStrict(l, x, y, k);
    } else {
      CountEarlierMonotone(l, y, x);
    }
  }

  lemma {:induction false} CountEarlierNone(l: seq<Entry>, p: Photo)
    requires forall k :: 0 <= k < |l| ==> !StampLess(l[k].photo, p)
    ensures CountEarlier(l, p) == 0
  {
    if |l| > 0 {
      CountEarlierNone(l[1..], p);
    }
  }

  /** When exactly the first `k` entries are earlier than `p`, the count is `k`. */
  lemma {:induction false} CountEarlierThreshold(l: seq<Entry>, k: nat, p: Photo)
    requires k <= |l|
    requires forall j :: 0 <= j < k ==> StampLess(l[j].photo, p)
    requires forall j :: k <= j < |l| ==> !StampLess(l[j].photo, p)
    ensures CountEarlier(l, p) == k
  {
    if k == 0 {
      CountEarlierNone(l, p);
    } else {
      assert StampLess(l[0].photo, p);
      CountEarlierThreshold(l[1..], k - 1, p);
    }
  }

  /** In a sorted list without shared stamps, every entry before position `k` is strictly earlier. */
  lemma SortedBefore(l: seq<Entry>, k: nat)
    requires Sorted(l) && StampsDistinct(l) && k < |l|
    ensures forall j :: 0 <= j < k ==> StampLess(l[j].photo, l[k].photo)
  {
    forall j | 0 <= j < k ensures StampLess(l[j].photo, l[k].photo) {
      assert !StampLess(l[k].photo, l[j].photo);
      assert !SameStamp(l[j].photo, l[k].photo);
      StampLessTotal(l[j].photo, l[k].photo);
    }
  }

  /** In a sorted list without shared stamps, the entry at position `k` has exactly `k` earlier entries. */
  lemma SortedPosition(l: seq<Entry>, k: nat)
    requires Sorted(l) && StampsDistinct(l) && k < |l|
    ensures CountEarlier(l, l[k].photo) == k
  {
    SortedBefore(l, k);
    StampLessIrreflexive(l[k].photo);
    CountEarlierThreshold(l, k, l[k].photo);
  }

  /**
   * In a list without shared stamps the counts take every value below the length: each
   * position of the sorted order is occupied.
   */
  lemma {:induction false} CountEarlierOnto(l: seq<Entry>, r: nat)
    requires StampsDistinct(l) && r < |l|
    ensures exists k :: 0 <= k < |l| && CountEarlier(l, l[k].photo) == r
    decreases |l|
  {
    var n := |l| - 1;
    var init := l[..n];
    var y := l[n].photo;
    assert l == init + [l[n]];
    var ry := CountEarlier(init, y);
    StampLessIrreflexive(y);
    CountEarlierAppend(init, [l[n]], y);
    assert CountEarlier(l, l[n].photo) == ry;
    if r != ry {
      assert StampsDistinct(init);
      var r' := if r < ry then r else r - 1;
      CountEarlierOnto(init, r');
      var k :| 0 <= k < n && CountEarlier(init, init[k].photo) == r';
      var x := init[k].photo;
      assert !SameStamp(l[k].photo, l[n].photo);
      CountEarlierOrder(init, k, y);
      CountEarlierAppend(init, [l[n]], x);
      if r < ry {
        StampLessAsymmetric(x, y);
      } else {
        StampLessTotal(x, y);
      }
      assert CountEarlier(l, l[k].photo) == r;
    }
  }

  // ---------------------------------------------------------------------------
  // Distinct stamps across a permutation
  // ---------------------------------------------------------------------------

  lemma {:induction false} DistinctMultiplicity(l: seq<Entry>)
    requires StampsDistinct(l)
    ensures forall e :: multiset(l)[e] <= 1
  {
    if |l| > 0 {
      var rest := l[1..];
      assert l == [l[0]] + rest;
      assert StampsDistinct(rest) by {
        forall j, k | 0 <= j < |rest| && 0 <= k < |rest| && SameStamp(rest[j].photo, rest[k].photo)
          ensures j == k
        {
          assert SameStamp(l[j + 1].photo, l[k + 1].photo);
        }
      }
      DistinctMultiplicity(rest);
      forall j | 0 <= j < |rest| ensures rest[j] != l[0] {
        assert !SameStamp(l[j + 1].photo, l[0].photo);
      }
      assert l[0] !in multiset(rest);
    }
  }

  lemma RepeatedEntry(l: seq<Entry>, j: nat, k: nat)
    requires j < |l| && k < |l| && l[j] == l[k]
    ensures j != k ==> multiset(l)[l[j]] >= 2
  {
    if j != k {
      var lo := if j < k then j else k;
      var hi := if j < k then k else j;
      assert l == l[..hi] + l[hi..];
      assert l[lo] in multiset(l[..hi]);
      assert l[hi] in multiset(l[hi..]);
    }
  }

  lemma PermutationDistinct(l: seq<Entry>, m: seq<Entry>)
    requires StampsDistinct(l) && multiset(l) == multiset(m)
    ensures StampsDistinct(m)
  {
    DistinctMultiplicity(l);
    forall j, k | 0 <= j < |m| && 0 <= k < |m| && SameStamp(m[j].photo, m[k].photo) ensures j == k {
      assert m[j] in multiset(l) && m[k] in multiset(l);
      var j' :| 0 <= j' < |l| && l[j'] == m[j];
      var k' :| 0 <= k' < |l| && l[k'] == m[k];
      assert j' == k';
      RepeatedEntry(m, j, k);
    }
  }

  // ---------------------------------------------------------------------------
  // The number each photo receives
  // ---------------------------------------------------------------------------

  /** One more than the number of photos of the same city taken strictly earlier. */
  function Rank(ps: seq<Photo>, i: nat): nat
    requires i < |ps|
  {
    1 + CountEarlier(CityList(ps, ps[i].city), ps[i])
  }

  /** The position of photo `i` in its city list. */
  lemma CityListPosition(ps: seq<Photo>, i: nat) returns (k: nat)
    requires i < |ps|
    ensures k < |CityList(ps, ps[i].city)| && CityList(ps, ps[i].city)[k] == Entry(i, ps[i])
  {
    var l := CityList(ps, ps[i].city);
    CityListFacts(ps, ps[i].city);
    assert Entry(i, ps[i]) in l;
    k :| 0 <= k < |l| && l[k] == Entry(i, ps[i]);
  }

  lemma CityListDistinct(ps: seq<Photo>, city: string)
    requires DistinctStamps(ps)
    ensures StampsDistinct(CityList(ps, city))
  {
    var l := CityList(ps, city);
    CityListFacts(ps, city);
    forall j, k | 0 <= j < |l| && 0 <= k < |l| && SameStamp(l[j].photo, l[k].photo) ensures j == k {
      assert l[j].index == l[k].index;
    }
  }

  /** In a city with k photos, every number lies in 1..k. */
  lemma RankBounds(ps: seq<Photo>, i: nat)
    requires i < |ps|
    ensures 1 <= Rank(ps, i) <= |CityList(ps, ps[i].city)|
  {
    var k := CityListPosition(ps, i);
    StampLessIrreflexive(ps[i]);
    CountEarlierMissing(CityList(ps, ps[i].city), ps[i], k);
  }

  /** A photo taken strictly earlier than another of the same city gets a strictly smaller number. */
  lemma RankChronological(ps: seq<Photo>, i: nat, j: nat)
    requires i < |ps| && j < |ps| && ps[i].city == ps[j].city
    requires StampLess(ps[i], ps[j])
    ensures Rank(ps, i) < Rank(ps, j)
  {
    var k := CityListPosition(ps, i);
    StampLessIrreflexive(ps[i]);
    CountEarlierStrict(CityList(ps, ps[i].city), ps[i], ps[j], k);
  }

  /** No two photos of a city get the same number. */
  lemma RankInjective(ps: seq<Photo>, i: nat, j: nat)
    requires DistinctStamps(ps)
    requires i < |ps| && j < |ps| && ps[i].city == ps[j].city
    requires Rank(ps, i) == Rank(ps, j)
    ensures i == j
  {
    if i != j {
      StampLessTotal(ps[i], ps[j]);
      if StampLess(ps[i], ps[j]) {
        RankChronological(ps, i, j);
      } else {
        RankChronological(ps, j, i);
      }
    }
  }

  /** Every number from 1 to the city's photo count is given to some photo of that city. */
  lemma RankOnto(ps: seq<Photo>, city: string, r: nat)
    requires DistinctStamps(ps)
    requires 1 <= r <= |CityList(ps, city)|
    ensures exists i :: 0 <= i < |ps| && ps[i].city == city && Rank(ps, i) == r
  {
    var l := CityList(ps, city);
    CityListFacts(ps, city);
    CityListDistinct(ps, city);
    CountEarlierOnto(l, r - 1);
    var k :| 0 <= k < |l| && CountEarlier(l, l[k].photo) == r - 1;
    var i := l[k].index;
    assert ps[i].city == city && Rank(ps, i) == r;
  }

  /**
   * After sorting a city's list, the entry at position `k` is a photo of that city whose
   * number is `k + 1`.
   */
  lemma RankInSorted(ps: seq<Photo>, city: string, s: seq<Entry>, k: nat)
    requires DistinctStamps(ps)
    requires multiset(s) == multiset(CityList(ps, city)) && Sorted(s) && k < |s|
    ensures s[k].index < |ps| && ps[s[k].index] == s[k].photo && s[k].photo.city == city
    ensures Rank(ps, s[k].index) == k + 1
  {
    var l := CityList(ps, city);
    CityListFacts(ps, city);
    assert s[k] in multiset(l);
    CityListDistinct(ps, city);
    PermutationDistinct(l, s);
    CountEarlierPermutation(l, s, s[k].photo);
    SortedPosition(s, k);
  }
}
