/**
 * Picking the best member of an id-ordered set: the dispatcher's agent
 * search and its waiting-resource rescan both walk a TreeSet in ascending
 * id, keep the members that pass a test, score them, and take the first of
 * least score. The declarative meaning is `FirstBest`: a kept member whose
 * score is no larger than any other kept member's, and strictly smaller
 * than that of every kept member of lower id.
 */
module Selection {
  import opened Basics
  import opened OrderedSets
  import opened Ranking

  /** The members that pass `keep`, in order, each keyed by its score. */
  function Filter<T>(xs: seq<T>, keep: T -> bool, score: T -> real): (r: seq<Keyed<T>>)
    ensures |r| <= |xs|
    ensures forall j :: 0 <= j < |r| ==> keep(r[j].item) && r[j].key == score(r[j].item)
  {
    if |xs| == 0 then []
    else if keep(xs[0]) then [Keyed(xs[0], score(xs[0]))] + Filter(xs[1..], keep, score)
    else Filter(xs[1..], keep, score)
  }

  /** The items of a keyed sequence, in order. */
  function Items<T>(r: seq<Keyed<T>>): (s: seq<T>)
    ensures |s| == |r| && forall j :: 0 <= j < |r| ==> s[j] == r[j].item
  {
    seq(|r|, j requires 0 <= j < |r| => r[j].item)
  }

  /** The filtered items are exactly the kept members. */
  lemma {:induction false} FilterMembers<T>(xs: seq<T>, keep: T -> bool, score: T -> real)
    ensures forall x :: x in Items(Filter(xs, keep, score)) <==> x in xs && keep(x)
  {
    if |xs| > 0 {
      FilterMembers(xs[1..], keep, score);
      var rest := Filter(xs[1..], keep, score);
      assert forall x :: x in xs <==> x == xs[0] || x in xs[1..];
      if keep(xs[0]) {
        assert Items(Filter(xs, keep, score)) == [xs[0]] + Items(rest);
      } else {
        assert Items(Filter(xs, keep, score)) == Items(rest);
      }
    }
  }

  /** The kept members of an ascending set come out in ascending order. */
  lemma {:induction false} FilterAscending<T>(xs: seq<T>, keep: T -> bool, score: T -> real, key: T -> int)
    requires Ascending(xs, key)
    ensures Ascending(Items(Filter(xs, keep, score)), key)
  {
    if |xs| > 0 {
      FilterAscending(xs[1..], keep, score, key);
      FilterMembers(xs[1..], keep, score);
      TailAscending(xs, key);
      var rest := Items(Filter(xs[1..], keep, score));
      if keep(xs[0]) {
        assert Items(Filter(xs, keep, score)) == [xs[0]] + rest;
        ConsAscending(xs[0], rest, key);
      } else {
        assert Items(Filter(xs, keep, score)) == rest;
      }
    }
  }

  /** `x` is the first kept member of least score in id order. */
  ghost predicate FirstBest<T(!new)>(xs: seq<T>, keep: T -> bool, score: T -> real, key: T -> int, x: T) {
    && x in xs && keep(x)
    && (forall y :: y in xs && keep(y) ==> score(x) <= score(y))
    && (forall y :: y in xs && keep(y) && key(y) < key(x) ==> score(x) < score(y))
  }

  /** In an ascending set at most one member is the first best. */
  lemma FirstBestUnique<T(!new)>(xs: seq<T>, keep: T -> bool, score: T -> real, key: T -> int, x: T, y: T)
    requires Ascending(xs, key)
    requires FirstBest(xs, keep, score, key, x) && FirstBest(xs, keep, score, key, y)
    ensures x == y
  {
    var i :| 0 <= i < |xs| && xs[i] == x;
    var j :| 0 <= j < |xs| && xs[j] == y;
  }

  /** Scores that agree everywhere pick the same first best. */
  lemma FirstBestSameScores<T(!new)>(xs: seq<T>, keep: T -> bool, s1: T -> real, s2: T -> real, key: T -> int, x: T)
    requires forall y :: s1(y) == s2(y)
    requires FirstBest(xs, keep, s1, key, x)
    ensures FirstBest(xs, keep, s2, key, x)
  {
  }

  /** The scan's winner among the filtered members is the first best. */
  lemma {:induction false} FirstMinIsFirstBest<T(!new)>(xs: seq<T>, keep: T -> bool, score: T -> real, key: T -> int, m: nat)
    requires Ascending(xs, key)
    requires IsFirstMin(Filter(xs, keep, score), m)
    ensures FirstBest(xs, keep, score, key, Filter(xs, keep, score)[m].item)
  {
    var c := Filter(xs, keep, score);
    var items := Items(c);
    FilterAscending(xs, keep, score, key);
    FilterMembers(xs, keep, score);
    assert items[m] in items;
    forall y | y in xs && keep(y)
      ensures score(c[m].item) <= score(y)
      ensures key(y) < key(c[m].item) ==> score(c[m].item) < score(y)
    {
      assert y in items;
      var j :| 0 <= j < |items| && items[j] == y;
      if key(y) < key(c[m].item) {
        assert j < m;
      }
    }
  }

  /**
   * The strict-`<` scan over the kept members: None exactly when no member
   * is kept, otherwise the first best.
   */
  function PickFirstBest<T(!new)>(xs: seq<T>, keep: T -> bool, score: T -> real, key: T -> int): (r: Option<T>)
    requires Ascending(xs, key)
    ensures r.None? <==> forall y :: y in xs ==> !keep(y)
    ensures r.Some? ==> FirstBest(xs, keep, score, key, r.value)
  {
    var c := Filter(xs, keep, score);
    FilterMembers(xs, keep, score);
    if |c| == 0 then
      assert forall y :: y in xs ==> !keep(y) by {
        assert Items(c) == [];
      }
      None
    else
      assert Items(c)[0] in Items(c);
      FirstMinIsFirstBest(xs, keep, score, key, ArgMin(c));
      Some(c[ArgMin(c)].item)
  }

  /**
   * Taking the head of the stable ascending sort of the kept members gives
   * the same member as the scan.
   */
  function SortedHead<T(!new)>(xs: seq<T>, keep: T -> bool, score: T -> real): (r: Option<T>)
    ensures r.None? <==> forall y :: y in xs ==> !keep(y)
    ensures r.Some? ==> exists y :: y in xs && keep(y) && r.value == y
  {
    var c := Filter(xs, keep, score);
    FilterMembers(xs, keep, score);
    if |c| == 0 then
      assert forall y :: y in xs ==> !keep(y) by {
        assert Items(c) == [];
      }
      None
    else
      assert Sort(c)[0].item in Items(c) by {
        assert Sort(c)[0] in multiset(c);
        var j :| 0 <= j < |c| && c[j] == Sort(c)[0];
        assert Items(c)[j] == Sort(c)[0].item;
      }
      Some(Sort(c)[0].item)
  }

  lemma SortedHeadIsFirstBest<T(!new)>(xs: seq<T>, keep: T -> bool, score: T -> real, key: T -> int)
    requires Ascending(xs, key)
    ensures SortedHead(xs, keep, score) == PickFirstBest(xs, keep, score, key)
  {
    var c := Filter(xs, keep, score);
    if |c| > 0 {
      SortHead(c);
    }
  }
}
