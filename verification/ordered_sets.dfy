/**
 * The fleet managers keep idle agents and waiting resources in
 * `TreeSet`s whose comparator looks only at the id. Such a set is modelled
 * here as a sequence strictly increasing in that id: iteration order is
 * ascending id, `add` of an element whose id is already present leaves the
 * set unchanged, and `remove` drops the element with the given id.
 */
module OrderedSets {

  /** Strictly increasing in `key`: the iteration order of the TreeSet. */
  ghost predicate Ascending<T>(s: seq<T>, key: T -> int) {
    forall i, j :: 0 <= i < j < |s| ==> key(s[i]) < key(s[j])
  }

  /** Some element of `s` has id `k` (the TreeSet's `contains`). */
  predicate HasKey<T>(s: seq<T>, key: T -> int, k: int) {
    exists i :: 0 <= i < |s| && key(s[i]) == k
  }

  /** TreeSet.add: insert `x` in id order unless its id is already present. */
  function Add<T(==,!new)>(s: seq<T>, x: T, key: T -> int): (r: seq<T>)
    requires Ascending(s, key)
    ensures Ascending(r, key)
    ensures HasKey(s, key, key(x)) ==> r == s
    ensures !HasKey(s, key, key(x)) ==> forall y :: y in r <==> y in s || y == x
    ensures !HasKey(s, key, key(x)) ==> |r| == |s| + 1
  {
    if HasKey(s, key, key(x)) then s else Insert(s, x, key)
  }

  /** Places `x`, whose id is absent, at its position in id order. */
  function Insert<T(==,!new)>(s: seq<T>, x: T, key: T -> int): (r: seq<T>)
    requires Ascending(s, key)
    requires forall i :: 0 <= i < |s| ==> key(s[i]) != key(x)
    ensures Ascending(r, key)
    ensures forall y :: y in r <==> y in s || y == x
    ensures |r| == |s| + 1
  {
    if |s| == 0 || key(x) < key(s[0]) then
      ConsAscending(x, s, key);
      [x] + s
    else
      TailAscending(s, key);
      var t := Insert(s[1..], x, key);
      ConsAscending(s[0], t, key);
      [s[0]] + t
  }

  /** TreeSet.remove: drop the element whose id is `k`, if any. */
  function Remove<T(==,!new)>(s: seq<T>, k: int, key: T -> int): (r: seq<T>)
    requires Ascending(s, key)
    ensures Ascending(r, key)
    ensures forall y :: y in r <==> y in s && key(y) != k
    ensures !HasKey(r, key, k)
    ensures |r| == if HasKey(s, key, k) then |s| - 1 else |s|
  {
    if |s| == 0 then []
    else
      TailAscending(s, key);
      HasKeyCons(s, key, k);
      if key(s[0]) == k then
        NoKey(s[1..], key, k);
        s[1..]
      else
        var t := Remove(s[1..], k, key);
        ConsAscending(s[0], t, key);
        HasKeyCons([s[0]] + t, key, k);
        [s[0]] + t
  }

  /** The tail of an ascending sequence is ascending and lies above its head. */
  lemma TailAscending<T>(s: seq<T>, key: T -> int)
    requires |s| > 0 && Ascending(s, key)
    ensures Ascending(s[1..], key)
    ensures forall y :: y in s[1..] ==> key(s[0]) < key(y)
  {
    forall y | y in s[1..]
      ensures key(s[0]) < key(y)
    {
      var j :| 0 <= j < |s[1..]| && s[1..][j] == y;
      assert s[j + 1] == y;
    }
  }

  /** An element below every member of an ascending sequence may go in front. */
  lemma ConsAscending<T>(x: T, t: seq<T>, key: T -> int)
    requires Ascending(t, key)
    requires forall y :: y in t ==> key(x) < key(y)
    ensures Ascending([x] + t, key)
  {
    var r := [x] + t;
    forall i, j | 0 <= i < j < |r|
      ensures key(r[i]) < key(r[j])
    {
      assert r[j] == t[j - 1] && r[j] in t;
      if i > 0 {
        assert r[i] == t[i - 1];
      }
    }
  }

  /** An id is present in a non-empty sequence iff it is the head's or the tail holds it. */
  lemma HasKeyCons<T>(s: seq<T>, key: T -> int, k: int)
    requires |s| > 0
    ensures HasKey(s, key, k) <==> key(s[0]) == k || HasKey(s[1..], key, k)
  {
    if HasKey(s[1..], key, k) {
      var i :| 0 <= i < |s[1..]| && key(s[1..][i]) == k;
      assert key(s[i + 1]) == k;
    }
    if HasKey(s, key, k) && key(s[0]) != k {
      var i :| 0 <= i < |s| && key(s[i]) == k;
      assert key(s[1..][i - 1]) == k;
    }
  }

  /** An id no member carries is absent. */
  lemma NoKey<T>(s: seq<T>, key: T -> int, k: int)
    requires forall y :: y in s ==> key(y) != k
    ensures !HasKey(s, key, k)
  {
    forall i | 0 <= i < |s|
      ensures key(s[i]) != k
    {
      assert s[i] in s;
    }
  }

  /** The identity key, ordering agent ids by themselves. */
  function Id(a: int): int { a }

  /** Under the identity key, adding an id makes it a member and keeps all others. */
  lemma AddId(s: seq<int>, a: int)
    requires Ascending(s, Id)
    ensures forall b :: b in Add(s, a, Id) <==> b in s || b == a
  {
    if HasKey(s, Id, a) {
      var i :| 0 <= i < |s| && Id(s[i]) == a;
      assert s[i] == a;
    }
  }
}
