/**
 * Choosing among keyed candidates, the three ways the source does it:
 *  - a left-to-right scan keeping the best so far under a strict `<`
 *    (the `earliest` loops), which keeps the first candidate of least key;
 *  - a stable ascending sort (`List.sort` with a three-way comparator) whose
 *    head is taken;
 *  - an inverse-CDF walk over running totals (`sample_regions`).
 * Keys are the source's `float` values, modelled as exact reals.
 */
module Ranking {
  import opened Basics

  datatype Keyed<T> = Keyed(item: T, key: real)

  /** Position `i` holds the least key among the first `n` entries, and no earlier entry ties it. */
  ghost predicate FirstMinWithin<T>(xs: seq<Keyed<T>>, n: int, i: int)
    requires 0 <= n <= |xs|
  {
    && 0 <= i < n
    && (forall j :: 0 <= j < n ==> xs[i].key <= xs[j].key)
    && (forall j :: 0 <= j < i ==> xs[i].key < xs[j].key)
  }

  /** Position `i` is the first entry of least key in `xs`. */
  ghost predicate IsFirstMin<T>(xs: seq<Keyed<T>>, i: int) {
    FirstMinWithin(xs, |xs|, i)
  }

  lemma FirstMinUnique<T>(xs: seq<Keyed<T>>, i: int, j: int)
    requires IsFirstMin(xs, i) && IsFirstMin(xs, j)
    ensures i == j
  {
    ghost var ki, kj := xs[i].key, xs[j].key;
  }

  /**
   * The `if (key < earliest) { best = x; earliest = key; }` loop, resumed at
   * position `k` with `best` the winner among the first `k` entries.
   */
  function ScanFrom<T>(xs: seq<Keyed<T>>, k: nat, best: nat): (r: nat)
    requires best < k <= |xs|
    requires FirstMinWithin(xs, k, best)
    ensures IsFirstMin(xs, r)
    decreases |xs| - k
  {
    if k == |xs| then best
    else if xs[k].key < xs[best].key then ScanFrom(xs, k + 1, k)
    else ScanFrom(xs, k + 1, best)
  }

  /** The strict-`<` scan over a non-empty sequence: the first entry of least key. */
  function ArgMin<T>(xs: seq<Keyed<T>>): (r: nat)
    requires |xs| > 0
    ensures IsFirstMin(xs, r)
  {
    ScanFrom(xs, 1, 0)
  }

  /** Adjacent keys never decrease. */
  ghost predicate Sorted<T>(s: seq<Keyed<T>>) {
    forall i :: 0 < i < |s| ==> s[i - 1].key <= s[i].key
  }

  /** Places `x` before the first entry whose key is not smaller than its own. */
  function InsertByKey<T>(x: Keyed<T>, s: seq<Keyed<T>>): (r: seq<Keyed<T>>)
    ensures |r| == |s| + 1
    ensures multiset(r) == multiset(s) + multiset{x}
    ensures |s| > 0 ==> r[0] == (if x.key <= s[0].key then x else s[0])
    ensures Sorted(s) ==> Sorted(r)
  {
    if |s| == 0 || x.key <= s[0].key then
      ConsSorted(x, s);
      [x] + s
    else
      assert s == [s[0]] + s[1..];
      var t := InsertByKey(x, s[1..]);
      ConsSorted(s[0], t);
      TailSorted(s);
      [s[0]] + t
  }

  /** An entry no larger than the head may go in front of a sorted sequence. */
  lemma ConsSorted<T>(h: Keyed<T>, t: seq<Keyed<T>>)
    ensures Sorted(t) && (|t| > 0 ==> h.key <= t[0].key) ==> Sorted([h] + t)
  {
    var r := [h] + t;
    if Sorted(t) && (|t| > 0 ==> h.key <= t[0].key) {
      forall i | 0 < i < |r|
        ensures r[i - 1].key <= r[i].key
      {
        if i > 1 {
          assert r[i - 1] == t[i - 2] && r[i] == t[i - 1];
        }
      }
    }
  }

  /** The tail of a sorted sequence is sorted and starts no lower than the head. */
  lemma TailSorted<T>(s: seq<Keyed<T>>)
    requires |s| > 0
    ensures Sorted(s) ==> Sorted(s[1..]) && (|s| > 1 ==> s[0].key <= s[1].key)
  {
    if Sorted(s) {
      forall i | 0 < i < |s| - 1
        ensures s[1..][i - 1].key <= s[1..][i].key
      {
        assert s[1..][i - 1] == s[i] && s[1..][i] == s[i + 1];
      }
    }
  }

  /**
   * Stable ascending sort by key. An entry is inserted ahead of the equal
   * keys that follow it in the input, so equal keys keep their input order,
   * which is what Java's `List.sort` guarantees; a stable sort's output is
   * unique, so this is the source's sort exactly.
   */
  function Sort<T>(xs: seq<Keyed<T>>): (r: seq<Keyed<T>>)
    ensures |r| == |xs|
    ensures multiset(r) == multiset(xs)
    ensures Sorted(r)
  {
    if |xs| == 0 then []
    else
      assert xs == [xs[0]] + xs[1..];
      InsertByKey(xs[0], Sort(xs[1..]))
  }

  /** The entries of key `k`, in their order in `s`. */
  function OfKey<T>(s: seq<Keyed<T>>, k: real): seq<Keyed<T>> {
    if |s| == 0 then []
    else (if s[0].key == k then [s[0]] else []) + OfKey(s[1..], k)
  }

  lemma OfKeyCons<T>(h: Keyed<T>, t: seq<Keyed<T>>, k: real)
    ensures OfKey([h] + t, k) == (if h.key == k then [h] else []) + OfKey(t, k)
  {
    assert ([h] + t)[1..] == t;
  }

  /**
   * Insertion puts `x` after the entries of smaller key only, so among the
   * entries of its own key it comes first.
   */
  lemma {:induction false} InsertOfKey<T>(x: Keyed<T>, s: seq<Keyed<T>>, k: real)
    ensures OfKey(InsertByKey(x, s), k) == (if x.key == k then [x] else []) + OfKey(s, k)
  {
    if |s| == 0 || x.key <= s[0].key {
      OfKeyCons(x, s, k);
    } else {
      InsertOfKey(x, s[1..], k);
      OfKeyCons(s[0], InsertByKey(x, s[1..]), k);
      assert s == [s[0]] + s[1..];
      OfKeyCons(s[0], s[1..], k);
    }
  }

  /** The sort is stable: the entries of every key keep their input order. */
  lemma {:induction false} SortStable<T>(xs: seq<Keyed<T>>, k: real)
    ensures OfKey(Sort(xs), k) == OfKey(xs, k)
  {
    if |xs| > 0 {
      SortStable(xs[1..], k);
      InsertOfKey(xs[0], Sort(xs[1..]), k);
    }
  }

  /** The head of the stable sort is the first entry of least key. */
  lemma {:induction false} SortHead<T>(xs: seq<Keyed<T>>)
    requires |xs| > 0
    ensures Sort(xs)[0] == xs[ArgMin(xs)]
  {
    if |xs| > 1 {
      var rest := xs[1..];
      SortHead(rest);
      var m := ArgMin(rest);
      FirstMinCons(xs, m);
      if xs[0].key <= rest[m].key {
        FirstMinUnique(xs, 0, ArgMin(xs));
      } else {
        FirstMinUnique(xs, m + 1, ArgMin(xs));
      }
    }
  }

  /** The first least entry of `xs` is its head, or the tail's first least entry, whichever key is smaller. */
  lemma FirstMinCons<T>(xs: seq<Keyed<T>>, m: int)
    requires |xs| > 1 && IsFirstMin(xs[1..], m)
    ensures xs[0].key <= xs[1..][m].key ==> IsFirstMin(xs, 0)
    ensures xs[0].key > xs[1..][m].key ==> IsFirstMin(xs, m + 1)
  {
    var rest := xs[1..];
    assert forall j :: 1 <= j < |xs| ==> xs[j] == rest[j - 1];
    assert forall j :: 0 <= j < |rest| ==> rest[m].key <= rest[j].key;
    assert forall j :: 0 <= j < m ==> rest[m].key < rest[j].key;
  }

  /** Sum of the keys. */
  function Total<T>(xs: seq<Keyed<T>>): real {
    if |xs| == 0 then 0.0 else xs[0].key + Total(xs[1..])
  }

  lemma {:induction false} TotalAppend<T>(a: seq<Keyed<T>>, b: seq<Keyed<T>>)
    ensures Total(a + b) == Total(a) + Total(b)
  {
    if |a| > 0 {
      assert (a + b)[0] == a[0];
      assert (a + b)[1..] == a[1..] + b;
      TotalAppend(a[1..], b);
    } else {
      assert a + b == b;
    }
  }

  /** Extending a prefix by one entry adds that entry's key. */
  lemma TotalPrefixStep<T>(xs: seq<Keyed<T>>, k: nat)
    requires k < |xs|
    ensures Total(xs[..k + 1]) == Total(xs[..k]) + xs[k].key
  {
    assert xs[..k + 1] == xs[..k] + [xs[k]];
    TotalAppend(xs[..k], [xs[k]]);
  }

  lemma {:induction false} TotalInsert<T>(x: Keyed<T>, s: seq<Keyed<T>>)
    ensures Total(InsertByKey(x, s)) == x.key + Total(s)
  {
    if |s| > 0 && x.key > s[0].key {
      TotalInsert(x, s[1..]);
    }
  }

  /** Sorting keeps the total, so sorted probabilities still sum to one. */
  lemma {:induction false} TotalSort<T>(xs: seq<Keyed<T>>)
    ensures Total(Sort(xs)) == Total(xs)
  {
    if |xs| > 0 {
      TotalSort(xs[1..]);
      TotalInsert(xs[0], Sort(xs[1..]));
    }
  }

  /** No running total over the first `k` entries reaches `draw`. */
  ghost predicate NoneReachesWithin<T>(xs: seq<Keyed<T>>, k: int, draw: real)
    requires 0 <= k <= |xs|
  {
    forall n :: 0 < n <= k ==> Total(xs[..n]) < draw
  }

  /**
   * The walk `sum += t.val; if (sum >= draw) return t.key;` resumed at
   * position `k` with running total `acc`: the first position whose running
   * total reaches the draw, or None when none does.
   */
  function WalkFrom<T>(xs: seq<Keyed<T>>, draw: real, k: nat, acc: real): (r: Option<nat>)
    requires k <= |xs|
    requires acc == Total(xs[..k])
    requires NoneReachesWithin(xs, k, draw)
    ensures r.None? <==> NoneReachesWithin(xs, |xs|, draw)
    ensures r.Some? ==> r.value < |xs| && Total(xs[..r.value + 1]) >= draw
    ensures r.Some? ==> NoneReachesWithin(xs, r.value, draw)
    decreases |xs| - k
  {
    if k == |xs| then None
    else
      TotalPrefixStep(xs, k);
      if acc + xs[k].key >= draw then Some(k)
      else WalkFrom(xs, draw, k + 1, acc + xs[k].key)
  }

  /** All keys are non-negative. */
  ghost predicate NonNegative<T>(xs: seq<Keyed<T>>) {
    forall i :: 0 <= i < |xs| ==> xs[i].key >= 0.0
  }

  /** All keys are positive. */
  ghost predicate Positive<T>(xs: seq<Keyed<T>>) {
    forall i :: 0 <= i < |xs| ==> xs[i].key > 0.0
  }

  /** With non-negative keys a longer prefix never has a smaller total. */
  lemma {:induction false} PrefixMonotone<T>(xs: seq<Keyed<T>>, n: nat, m: nat)
    requires NonNegative(xs)
    requires n <= m <= |xs|
    ensures Total(xs[..n]) <= Total(xs[..m])
    decreases m - n
  {
    if n < m {
      TotalPrefixStep(xs, n);
      PrefixMonotone(xs, n + 1, m);
    }
  }
}
