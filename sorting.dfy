/** Ordering by a descending integer key. The controllers sort with PHP's usort
    (suggestions by mutual-friend count) and with SQL `orderBy(..., 'desc')` (feed
    posts by date). SortDesc is an insertion sort that puts each element ahead of the
    later ones with an equal key, so it is stable, as usort is since PHP 8.0; it is
    proved sorted and a permutation. SQL leaves the order of equal dates open, and
    the feed takes this stable order. */
module Sorting {

  /** Non-increasing by key. */
  predicate SortedDesc<T>(s: seq<T>, key: T -> int) {
    forall i, j | 0 <= i < j < |s| :: key(s[i]) >= key(s[j])
  }

  /** Puts x in front of the first element whose key does not exceed x's. */
  function Insert<T>(x: T, s: seq<T>, key: T -> int): (r: seq<T>)
    requires SortedDesc(s, key)
    ensures SortedDesc(r, key)
    ensures |r| == |s| + 1
    ensures r[0] == x || (s != [] && r[0] == s[0])
  {
    if s == [] || key(x) >= key(s[0]) then
      [x] + s
    else
      var rest := Insert(x, s[1..], key);
      assert key(s[0]) >= key(rest[0]);
      assert forall j | 0 <= j < |rest| :: key(rest[0]) >= key(rest[j]);
      [s[0]] + rest
  }

  /** Insert adds exactly x. */
  lemma {:induction false} InsertPermutes<T>(x: T, s: seq<T>, key: T -> int)
    requires SortedDesc(s, key)
    ensures multiset(Insert(x, s, key)) == multiset(s) + multiset{x}
  {
    if s != [] && key(x) < key(s[0]) {
      InsertPermutes(x, s[1..], key);
      assert s == [s[0]] + s[1..];
      assert multiset(s) == multiset{s[0]} + multiset(s[1..]);
    }
  }

  /** Insertion sort, descending by key. */
  function SortDesc<T>(s: seq<T>, key: T -> int): (r: seq<T>)
    ensures SortedDesc(r, key)
    ensures multiset(r) == multiset(s)
    ensures |r| == |s|
  {
    if s == [] then []
    else
      var rest := SortDesc(s[1..], key);
      InsertPermutes(s[0], rest, key);
      assert multiset(s) == multiset(s[1..]) + multiset{s[0]} by {
        assert s == [s[0]] + s[1..];
      }
      Insert(s[0], rest, key)
  }

  /** The first n elements by descending key (all of them when there are fewer). */
  function Top<T>(s: seq<T>, key: T -> int, n: nat): (r: seq<T>)
    ensures |r| <= n && |r| <= |s|
    ensures SortedDesc(r, key)
    ensures forall x | x in r :: x in multiset(s)
  {
    var sorted := SortDesc(s, key);
    assert forall x | x in sorted :: x in multiset(sorted);
    if |sorted| <= n then sorted else sorted[..n]
  }

  /** Everything left out of a sorted prefix ranks no higher than the prefix's last
      element. */
  lemma PrefixDominates<T>(s: seq<T>, key: T -> int, n: nat, m: nat)
    requires SortedDesc(s, key)
    requires 0 < n <= m < |s|
    ensures key(s[m]) <= key(s[..n][n - 1])
  {
  }

  /** An element that Top leaves out lost to a full list: Top holds n elements and
      the last of them has at least x's key. */
  lemma TopOmitsOnlyDominated<T>(s: seq<T>, key: T -> int, n: nat, x: T)
    requires n > 0 && x in s && x !in Top(s, key, n)
    ensures |Top(s, key, n)| == n && key(x) <= key(Top(s, key, n)[n - 1])
  {
    var sorted := SortDesc(s, key);
    assert x in multiset(s);
    assert x in multiset(sorted);
    var m :| 0 <= m < |sorted| && sorted[m] == x;
    if |sorted| <= n {
      assert false;
    } else {
      assert Top(s, key, n) == sorted[..n];
      forall i | 0 <= i < n ensures sorted[i] != x {
        assert sorted[..n][i] == sorted[i];
      }
      PrefixDominates(sorted, key, n, m);
    }
  }
}
