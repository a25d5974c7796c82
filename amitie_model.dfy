/** The Amitie table (one row per friendship or friend request) and the query scopes
    and predicates of the Amitie model. Rows are kept in table order as a sequence. */
module AmitieModel {
  import opened Common

  /** The `statut` column: 'en attente' (a request not yet answered) or 'ami'. */
  datatype Status = Pending | Ami

  /** A row (id_1, id_2, statut); id_1 sent the request, id_2 received it. */
  datatype Edge = Edge(id1: int, id2: int, statut: Status)

  predicate Touches(e: Edge, u: int) {
    e.id1 == u || e.id2 == u
  }

  /** The endpoint of e that is not u, read the way the controllers read it:
      id_2 when id_1 is u, id_1 otherwise. */
  function Other(e: Edge, u: int): int {
    if e.id1 == u then e.id2 else e.id1
  }

  /** Both rows concern the same unordered pair of users. */
  predicate SamePair(e: Edge, f: Edge) {
    (e.id1 == f.id1 && e.id2 == f.id2) || (e.id1 == f.id2 && e.id2 == f.id1)
  }

  /** Both rows have the same primary key (id_1, id_2). */
  predicate SameKey(e: Edge, f: Edge) {
    e.id1 == f.id1 && e.id2 == f.id2
  }

  /** What the composite primary key guarantees: no ordered pair twice. */
  predicate KeyUnique(t: seq<Edge>) {
    forall i, j | 0 <= i < j < |t| :: !SameKey(t[i], t[j])
  }

  /** The invariant the controller maintains: at most one row per unordered pair. */
  predicate OnePerPair(t: seq<Edge>) {
    forall i, j | 0 <= i < j < |t| :: !SamePair(t[i], t[j])
  }

  /** A row (a, b) exists, whatever its status. */
  predicate HasRow(t: seq<Edge>, a: int, b: int) {
    Edge(a, b, Pending) in t || Edge(a, b, Ami) in t
  }

  /** A row exists between a and b in either orientation. */
  predicate Between(t: seq<Edge>, a: int, b: int) {
    HasRow(t, a, b) || HasRow(t, b, a)
  }

  /** An accepted row joins u and x, in either orientation. */
  predicate Friends(t: seq<Edge>, u: int, x: int) {
    Edge(u, x, Ami) in t || Edge(x, u, Ami) in t
  }

  /** scopeFriendsOfUser: the 'ami' rows with u as id_1 or id_2, in table order. */
  function FriendsOfUser(t: seq<Edge>, u: int): (r: seq<Edge>)
    ensures forall e | e in r :: e in t && e.statut == Ami && Touches(e, u)
    ensures forall e | e in t && e.statut == Ami && Touches(e, u) :: e in r
    ensures |r| <= |t|
  {
    if t == [] then []
    else (if t[0].statut == Ami && Touches(t[0], u) then [t[0]] else []) + FriendsOfUser(t[1..], u)
  }

  /** scopePendingForUser: the 'en attente' rows whose recipient id_2 is u. */
  function PendingForUser(t: seq<Edge>, u: int): (r: seq<Edge>)
    ensures forall e | e in r :: e in t && e.statut == Pending && e.id2 == u
    ensures forall e | e in t && e.statut == Pending && e.id2 == u :: e in r
    ensures |r| <= |t|
  {
    if t == [] then []
    else (if t[0].statut == Pending && t[0].id2 == u then [t[0]] else []) + PendingForUser(t[1..], u)
  }

  /** The other endpoint of each row, seen from u. */
  function Others(es: seq<Edge>, u: int): (r: seq<int>)
    ensures |r| == |es|
    ensures forall k | 0 <= k < |es| :: r[k] == Other(es[k], u)
  {
    seq(|es|, k requires 0 <= k < |es| => Other(es[k], u))
  }

  /** The ids of u's accepted friends, one per accepted row touching u, which is what
      every controller computes from FriendsOfUser. */
  function FriendIds(t: seq<Edge>, u: int): seq<int> {
    Others(FriendsOfUser(t, u), u)
  }

  /** x is listed among u's friends exactly when an accepted row joins them. */
  lemma FriendIdsMembership(t: seq<Edge>, u: int, x: int)
    ensures x in FriendIds(t, u) <==> Friends(t, u, x)
  {
    var fs := FriendsOfUser(t, u);
    if x in FriendIds(t, u) {
      var k :| 0 <= k < |fs| && FriendIds(t, u)[k] == x;
      assert fs[k] in fs;
      if fs[k].id1 == u {
        assert fs[k] == Edge(u, x, Ami);
      } else {
        assert fs[k] == Edge(x, u, Ami);
      }
    }
    if Edge(u, x, Ami) in t {
      var e := Edge(u, x, Ami);
      assert e in fs;
      var k :| 0 <= k < |fs| && fs[k] == e;
      assert FriendIds(t, u)[k] == x;
    } else if Edge(x, u, Ami) in t {
      var e := Edge(x, u, Ami);
      assert e in fs;
      var k :| 0 <= k < |fs| && fs[k] == e;
      assert FriendIds(t, u)[k] == x;
    }
  }

  /** Accepted friendship is symmetric whatever the table holds. */
  lemma FriendIdsSymmetric(t: seq<Edge>, u: int, x: int)
    ensures x in FriendIds(t, u) <==> u in FriendIds(t, x)
  {
    FriendIdsMembership(t, u, x);
    FriendIdsMembership(t, x, u);
  }

  /** Nothing keeps a user out of their own friend list: an accepted row (u, u)
      puts u there. */
  lemma SelfFriendship(t: seq<Edge>, u: int)
    ensures u in FriendIds(t, u) <==> Edge(u, u, Ami) in t
  {
    FriendIdsMembership(t, u, u);
  }

  /** FriendIds unfolds one row at a time. */
  lemma FriendIdsCons(t: seq<Edge>, u: int)
    requires t != []
    ensures FriendIds(t, u)
         == (if t[0].statut == Ami && Touches(t[0], u) then [Other(t[0], u)] else []) + FriendIds(t[1..], u)
  {
  }

  /** Under the one-row-per-pair invariant the rows after the first keep the
      invariant and share no pair with the first. */
  lemma TailOnePerPair(t: seq<Edge>)
    requires OnePerPair(t) && t != []
    ensures OnePerPair(t[1..]) && forall x | x in t[1..] :: !SamePair(t[0], x)
  {
    var rest := t[1..];
    forall i, j | 0 <= i < j < |rest| ensures !SamePair(rest[i], rest[j]) {
      assert rest[i] == t[i + 1] && rest[j] == t[j + 1];
    }
    forall x | x in rest ensures !SamePair(t[0], x) {
      var m :| 0 <= m < |rest| && rest[m] == x;
      assert t[m + 1] == x;
    }
  }
  /** Under the invariant the friend the first row gives is not given again by the
      rows after it. */
  lemma FirstFriendFresh(t: seq<Edge>, u: int)
    requires OnePerPair(t) && t != [] && t[0].statut == Ami && Touches(t[0], u)
    ensures Other(t[0], u) !in FriendIds(t[1..], u)
  {
    var rest, x := t[1..], Other(t[0], u);
    TailOnePerPair(t);
    assert Edge(u, x, Ami) !in rest && Edge(x, u, Ami) !in rest by {
      assert SamePair(t[0], Edge(u, x, Ami)) && SamePair(t[0], Edge(x, u, Ami));
    }
    FriendIdsMembership(rest, u, x);
  }

  /** Under the one-row-per-pair invariant no friend is listed twice. */
  lemma {:induction false} FriendIdsNoDup(t: seq<Edge>, u: int)
    requires OnePerPair(t)
    ensures NoDup(FriendIds(t, u))
  {
    if t != [] {
      TailOnePerPair(t);
      FriendIdsNoDup(t[1..], u);
      FriendIdsCons(t, u);
      if t[0].statut == Ami && Touches(t[0], u) {
        FirstFriendFresh(t, u);
        NoDupCons(Other(t[0], u), FriendIds(t[1..], u));
      }
    }
  }

  /** areFriends AS WRITTEN. The builder chain where(A)->orWhere(B)->where(ami) is
      the SQL condition `A OR B AND statut = 'ami'`, and AND binds tighter: a row
      (u1, u2) of any status counts, a row (u2, u1) only when accepted. */
  predicate AreFriends(t: seq<Edge>, u1: int, u2: int): (r: bool)
    ensures r <==> HasPendingRequest(t, u1, u2) || Friends(t, u1, u2)
  {
    HasRow(t, u1, u2) || Edge(u2, u1, Ami) in t
  }

  /** areFriends as its name and its callers mean it: an accepted row in either
      orientation. */
  predicate AreFriendsIntended(t: seq<Edge>, u1: int, u2: int) {
    Friends(t, u1, u2)
  }

  /** The written predicate accepts a pending request as a friendship and is not
      symmetric: with only the request (1, 2) pending, areFriends(1, 2) holds and
      areFriends(2, 1) does not, and 2 is not among 1's friends. */
  lemma AreFriendsPendingCounterexample()
    ensures AreFriends([Edge(1, 2, Pending)], 1, 2)
    ensures !AreFriends([Edge(1, 2, Pending)], 2, 1)
    ensures 2 !in FriendIds([Edge(1, 2, Pending)], 1)
  {
    FriendIdsMembership([Edge(1, 2, Pending)], 1, 2);
  }

  /** The intended predicate is symmetric and agrees with the friend lists. */
  lemma AreFriendsIntendedCorrect(t: seq<Edge>, u1: int, u2: int)
    ensures AreFriendsIntended(t, u1, u2) <==> AreFriendsIntended(t, u2, u1)
    ensures AreFriendsIntended(t, u1, u2) <==> u2 in FriendIds(t, u1)
  {
    FriendIdsMembership(t, u1, u2);
  }

  /** The written predicate is weaker than the intended one, and the two agree
      whenever no request from u1 to u2 is pending. */
  lemma AreFriendsVersusIntended(t: seq<Edge>, u1: int, u2: int)
    ensures AreFriendsIntended(t, u1, u2) ==> AreFriends(t, u1, u2)
    ensures Edge(u1, u2, Pending) !in t ==> (AreFriends(t, u1, u2) <==> AreFriendsIntended(t, u1, u2))
  {
  }

  /** hasPendingRequest: a stored row (from, to) still 'en attente'. */
  predicate HasPendingRequest(t: seq<Edge>, from: int, to: int): (r: bool)
    ensures r <==> exists e | e in PendingForUser(t, to) :: e.id1 == from
  {
    assert Edge(from, to, Pending) in t ==> Edge(from, to, Pending) in PendingForUser(t, to);
    Edge(from, to, Pending) in t
  }

  /** Under the invariant a pending request between two different users points one
      way only. */
  lemma PendingIsDirectional(t: seq<Edge>, a: int, b: int)
    requires OnePerPair(t)
    requires a != b
    ensures !(HasPendingRequest(t, a, b) && HasPendingRequest(t, b, a))
  {
    if HasPendingRequest(t, a, b) {
      var i :| 0 <= i < |t| && t[i] == Edge(a, b, Pending);
      forall j | 0 <= j < |t| ensures t[j] != Edge(b, a, Pending) {
        if j < i { assert !SamePair(t[j], t[i]); } else if i < j { assert !SamePair(t[i], t[j]); }
      }
    }
  }

  /** The invariant is strictly stronger than the key: the reverse pair (a, b),
      (b, a) is admissible at the key level. */
  lemma KeyAdmitsReversePair(a: int, b: int)
    requires a != b
    ensures KeyUnique([Edge(a, b, Pending), Edge(b, a, Ami)])
    ensures !OnePerPair([Edge(a, b, Pending), Edge(b, a, Ami)])
  {
    var t := [Edge(a, b, Pending), Edge(b, a, Ami)];
    assert SamePair(t[0], t[1]);
  }

  lemma OnePerPairIsKeyUnique(t: seq<Edge>)
    requires OnePerPair(t)
    ensures KeyUnique(t)
  {
    forall i, j | 0 <= i < j < |t| ensures !SameKey(t[i], t[j]) {
      assert !SamePair(t[i], t[j]);
    }
  }

  /** A row that is in the table is seen by HasRow. */
  lemma RowIsPresent(t: seq<Edge>, e: Edge)
    requires e in t
    ensures HasRow(t, e.id1, e.id2)
  {
    if e.statut == Pending {
      assert e == Edge(e.id1, e.id2, Pending);
    } else {
      assert e == Edge(e.id1, e.id2, Ami);
    }
  }

  /** The first row, in table order, between a and b in either orientation: what
      `where(a,b)->orWhere(b,a)->first()` returns. */
  function FindBetween(t: seq<Edge>, a: int, b: int): (r: Option<Edge>)
    ensures r.None? <==> !Between(t, a, b)
    ensures r.Some? ==> r.value in t && SamePair(r.value, Edge(a, b, Pending))
  {
    if t == [] then None
    else if (t[0].id1 == a && t[0].id2 == b) || (t[0].id1 == b && t[0].id2 == a) then
      RowIsPresent(t, t[0]);
      Some(t[0])
    else
      assert t == [t[0]] + t[1..];
      FindBetween(t[1..], a, b)
  }

  /** Under the invariant the row found between a and b is the only one there is. */
  lemma FindBetweenUnique(t: seq<Edge>, a: int, b: int, e: Edge)
    requires OnePerPair(t)
    requires e in t && SamePair(e, Edge(a, b, Pending))
    ensures FindBetween(t, a, b) == Some(e)
  {
    RowIsPresent(t, e);
    var f := FindBetween(t, a, b).value;
    var i :| 0 <= i < |t| && t[i] == e;
    forall k | 0 <= k < |t| && k != i ensures !SamePair(t[k], e) {
      if k < i { assert !SamePair(t[k], t[i]); } else { assert !SamePair(t[i], t[k]); }
    }
  }
}
