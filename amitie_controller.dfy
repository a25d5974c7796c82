/** The friendship endpoints: friend list, suggestions, search, the three state
    transitions of the Amitie table, pending requests and the mutual-friend helpers.
    The Utilisateur table is passed in as a sequence of users in table order; the
    authenticated caller is the parameter `me`. */
module AmitieController {
  import opened Common
  import opened AmitieModel
  import opened Sorting

  /** The columns of Utilisateur the friendship code reads (image and role are
      not modelled). A null prenom is "". */
  datatype User = User(id: int, nom: string, prenom: string, email: string)

  /** Utilisateur::find(id): the user with that id, if any. */
  function Lookup(users: seq<User>, id: int): (r: Option<User>)
    ensures r.Some? ==> r.value in users && r.value.id == id
    ensures r.None? ==> forall u | u in users :: u.id != id
  {
    if users == [] then None
    else if users[0].id == id then Some(users[0])
    else Lookup(users[1..], id)
  }

  // ---------------------------------------------------------------------------
  // Mutual friends

  /** countMutualFriends: the size of array_intersect of the two friend-id lists. */
  function CountMutualFriends(t: seq<Edge>, a: int, b: int): (r: nat)
    ensures r <= |FriendIds(t, a)|
    ensures r == 0 <==> forall x | x in FriendIds(t, a) :: x !in FriendIds(t, b)
  {
    var common := Intersect(FriendIds(t, a), FriendIds(t, b));
    assert common != [] ==> common[0] in common;
    |common|
  }

  /** Under the one-row-per-pair invariant the count is the size of the intersection
      of the two friend sets, and so does not depend on the argument order. */
  lemma MutualCountSymmetric(t: seq<Edge>, a: int, b: int)
    requires OnePerPair(t)
    ensures CountMutualFriends(t, a, b) == CountMutualFriends(t, b, a)
    ensures CountMutualFriends(t, a, b) == |Elements(FriendIds(t, a)) * Elements(FriendIds(t, b))|
  {
    FriendIdsNoDup(t, a);
    FriendIdsNoDup(t, b);
    IntersectSizeSymmetric(FriendIds(t, a), FriendIds(t, b));
  }

  /** The key alone does not give symmetry: with rows (1, 2) and (2, 1) both
      accepted, 2 is listed twice among 1's friends and the count goes one way only. */
  lemma MutualCountNeedsInvariant(t: seq<Edge>)
    requires t == [Edge(1, 2, Ami), Edge(2, 1, Ami), Edge(3, 2, Ami)]
    ensures KeyUnique(t) && !OnePerPair(t)
    ensures CountMutualFriends(t, 1, 3) == 2
    ensures CountMutualFriends(t, 3, 1) == 1
  {
    DoubledKeys(t);
    DoubledFriendIds(t, 1);
    DoubledFriendIds(t, 3);
    IntersectOfTwos();
  }

  lemma DoubledKeys(t: seq<Edge>)
    requires t == [Edge(1, 2, Ami), Edge(2, 1, Ami), Edge(3, 2, Ami)]
    ensures KeyUnique(t) && !OnePerPair(t)
  {
    assert SamePair(t[0], t[1]);
  }

  /** The friend lists of that table, one row at a time. */
  lemma DoubledFriendIds(t: seq<Edge>, u: int)
    requires t == [Edge(1, 2, Ami), Edge(2, 1, Ami), Edge(3, 2, Ami)]
    requires u == 1 || u == 3
    ensures FriendIds(t, u) == if u == 1 then [2, 2] else [2]
  {
    var t1, t2 := t[1..], t[2..];
    assert t1[1..] == t2 && t2[1..] == [];
    FriendIdsCons(t, u);
    FriendIdsCons(t1, u);
    FriendIdsCons(t2, u);
  }

  lemma IntersectOfTwos()
    ensures Intersect([2], [2, 2]) == [2]
    ensures Intersect([2, 2], [2]) == [2, 2]
  {
    assert [2, 2][1..] == [2] && [2][1..] == [];
  }

  /** getMutualFriendsList: the users, in Utilisateur order, whose id is in both
      friend lists (whereIn over the intersection). */
  function MutualFriendsList(t: seq<Edge>, users: seq<User>, a: int, b: int): (r: seq<User>)
    ensures forall u | u in r :: u in users && u.id in FriendIds(t, a) && u.id in FriendIds(t, b)
    ensures forall u | u in users && u.id in FriendIds(t, a) && u.id in FriendIds(t, b) :: u in r
    ensures |r| <= |users|
  {
    UsersWithIdIn(users, Intersect(FriendIds(t, a), FriendIds(t, b)))
  }

  /** The users whose id occurs in ids, in table order. */
  function UsersWithIdIn(users: seq<User>, ids: seq<int>): (r: seq<User>)
    ensures forall u | u in r :: u in users && u.id in ids
    ensures forall u | u in users && u.id in ids :: u in r
    ensures |r| <= |users|
  {
    if users == [] then []
    else (if users[0].id in ids then [users[0]] else []) + UsersWithIdIn(users[1..], ids)
  }

  // ---------------------------------------------------------------------------
  // Friend list and pending requests

  /** One entry of getFriends: the friend's profile and the row that joins them
      (its friendship_id is id_1 '_' id_2 of that row). */
  datatype FriendEntry = FriendEntry(friend: User, friendship: Edge)

  /** What getFriends lists for accepted rows fs of me: the other endpoint of each
      row, skipping those whose user cannot be found. */
  function FriendEntries(users: seq<User>, fs: seq<Edge>, me: int): (r: seq<FriendEntry>)
    ensures |r| <= |fs|
  {
    if fs == [] then []
    else
      var rest := FriendEntries(users, fs[1..], me);
      match Lookup(users, Other(fs[0], me))
      case Some(u) => [FriendEntry(u, fs[0])] + rest
      case None => rest
  }

  /** Every entry comes from one of the rows and names that row's other endpoint as
      found in Utilisateur, and every row whose other endpoint is found has its entry. */
  lemma {:induction false} FriendEntriesSpec(users: seq<User>, fs: seq<Edge>, me: int)
    ensures forall x | x in FriendEntries(users, fs, me) ::
      x.friendship in fs && x.friend.id == Other(x.friendship, me) && Lookup(users, x.friend.id) == Some(x.friend)
    ensures forall e | e in fs && Lookup(users, Other(e, me)).Some? ::
      FriendEntry(Lookup(users, Other(e, me)).value, e) in FriendEntries(users, fs, me)
  {
    if fs != [] {
      FriendEntriesSpec(users, fs[1..], me);
      assert forall e | e in fs :: e == fs[0] || e in fs[1..];
    }
  }

  /** The accepted friends seen through getFriends: every entry is an accepted friend
      of me, a pending row never contributes, and every accepted friend with a user
      record is listed. */
  lemma FriendEntriesAreFriends(t: seq<Edge>, users: seq<User>, me: int)
    ensures forall x | x in FriendEntries(users, FriendsOfUser(t, me), me) ::
      x.friendship in t && x.friendship.statut == Ami && x.friend.id in FriendIds(t, me)
    ensures forall x | x in FriendEntries(users, FriendsOfUser(t, me), me) && x.friend.id != me ::
      AreFriendsIntended(t, me, x.friend.id)
    ensures forall f | f in FriendIds(t, me) && Lookup(users, f).Some? ::
      exists x :: x in FriendEntries(users, FriendsOfUser(t, me), me) && x.friend.id == f
  {
    var fs := FriendsOfUser(t, me);
    var es := FriendEntries(users, fs, me);
    FriendEntriesSpec(users, fs, me);
    forall x | x in es ensures x.friend.id in FriendIds(t, me) && AreFriendsIntended(t, me, x.friend.id) {
      FriendIdsMembership(t, me, x.friend.id);
      var e := x.friendship;
      if e.id1 == me {
        assert e == Edge(me, x.friend.id, Ami);
      } else {
        assert e == Edge(x.friend.id, me, Ami);
      }
    }
    forall f | f in FriendIds(t, me) && Lookup(users, f).Some?
      ensures exists x :: x in es && x.friend.id == f
    {
      var k :| 0 <= k < |fs| && FriendIds(t, me)[k] == f;
      assert fs[k] in fs && Other(fs[k], me) == f;
      assert FriendEntry(Lookup(users, f).value, fs[k]) in es;
    }
  }

  /** getPendingRequests: the requester (id_1) of every pending row addressed to me. */
  function PendingRequests(t: seq<Edge>, me: int): (r: seq<int>)
    ensures |r| == |PendingForUser(t, me)|
    ensures forall x | x in r :: HasPendingRequest(t, x, me)
    ensures forall x | HasPendingRequest(t, x, me) :: x in r
  {
    var ps := PendingForUser(t, me);
    var r := seq(|ps|, k requires 0 <= k < |ps| => ps[k].id1);
    assert forall x | HasPendingRequest(t, x, me) :: Edge(x, me, Pending) in ps;
    assert forall k | 0 <= k < |ps| :: ps[k] in ps && ps[k] == Edge(r[k], me, Pending);
    assert forall x | HasPendingRequest(t, x, me) :: x in r by {
      forall x | HasPendingRequest(t, x, me) ensures x in r {
        var k :| 0 <= k < |ps| && ps[k] == Edge(x, me, Pending);
        assert r[k] == x;
      }
    }
    r
  }

  // ---------------------------------------------------------------------------
  // Suggestions

  /** One suggestion: the candidate, its mutual_friends count and mutual list. */
  datatype Suggestion = Suggestion(user: User, mutual: nat, mutualList: seq<User>)

  function MutualOf(s: Suggestion): int {
    s.mutual
  }

  /** c may be suggested to me: a known user, neither me nor one of my friends, and
      an accepted friend of one of my friends. */
  predicate Candidate(t: seq<Edge>, users: seq<User>, me: int, c: int) {
    && c != me
    && c !in FriendIds(t, me)
    && Lookup(users, c).Some?
    && exists f :: f in FriendIds(t, me) && c in FriendIds(t, f)
  }

  /** s is a correctly filled suggestion for me. */
  predicate IsSuggestionFor(t: seq<Edge>, users: seq<User>, me: int, s: Suggestion) {
    && Candidate(t, users, me, s.user.id)
    && Lookup(users, s.user.id) == Some(s.user)
    && s.mutual == CountMutualFriends(t, me, s.user.id)
    && s.mutualList == MutualFriendsList(t, users, me, s.user.id)
  }

  predicate DistinctIds(s: seq<Suggestion>) {
    forall i, j | 0 <= i < j < |s| :: s[i].user.id != s[j].user.id
  }

  /** seen is the key set of the suggestions found so far. */
  predicate Tracks(found: seq<Suggestion>, seen: set<int>) {
    && (forall x | x in seen :: exists k :: 0 <= k < |found| && found[k].user.id == x)
    && (forall k | 0 <= k < |found| :: found[k].user.id in seen)
  }

  /** Every qualifying id in ids (not me, not already my friend, a known user) has
      been seen. */
  ghost predicate CoveredFrom(users: seq<User>, me: int, myFriends: seq<int>, ids: seq<int>, seen: set<int>) {
    forall c | c in ids && c != me && c !in myFriends && Lookup(users, c).Some? :: c in seen
  }

  /** The friends of every friend in fs are covered. */
  ghost predicate CoveredAll(t: seq<Edge>, users: seq<User>, me: int, myFriends: seq<int>, fs: seq<int>, seen: set<int>) {
    forall f | f in fs :: CoveredFrom(users, me, myFriends, FriendIds(t, f), seen)
  }

  lemma CoveredGrows(t: seq<Edge>, users: seq<User>, me: int, myFriends: seq<int>, fs: seq<int>, ids: seq<int>, seen: set<int>, x: int)
    requires CoveredAll(t, users, me, myFriends, fs, seen) && CoveredFrom(users, me, myFriends, ids, seen)
    ensures CoveredAll(t, users, me, myFriends, fs, seen + {x}) && CoveredFrom(users, me, myFriends, ids, seen + {x})
  {
  }

  /** One more scanned id stays covered when it is seen or does not qualify. */
  lemma CoveredStep(users: seq<User>, me: int, myFriends: seq<int>, ids: seq<int>, j: nat, seen: set<int>)
    requires j < |ids| && CoveredFrom(users, me, myFriends, ids[..j], seen)
    requires ids[j] in seen || ids[j] == me || ids[j] in myFriends || Lookup(users, ids[j]).None?
    ensures CoveredFrom(users, me, myFriends, ids[..j + 1], seen)
  {
    assert ids[..j + 1] == ids[..j] + [ids[j]];
  }

  /** Appending the suggestion of a new candidate keeps the list sound, tracked and
      duplicate-free. */
  lemma AddSuggestion(t: seq<Edge>, users: seq<User>, me: int, found: seq<Suggestion>, seen: set<int>, s: Suggestion)
    requires SoundList(t, users, me, found) && DistinctIds(found) && Tracks(found, seen)
    requires IsSuggestionFor(t, users, me, s) && s.user.id !in seen
    ensures SoundList(t, users, me, found + [s]) && DistinctIds(found + [s]) && Tracks(found + [s], seen + {s.user.id})
  {
    DistinctSnoc(found, seen, s);
    assert forall x | x in found + [s] :: x in found || x == s;
  }

  /** The id bookkeeping of AddSuggestion. */
  lemma DistinctSnoc(found: seq<Suggestion>, seen: set<int>, s: Suggestion)
    requires DistinctIds(found) && Tracks(found, seen) && s.user.id !in seen
    ensures DistinctIds(found + [s]) && Tracks(found + [s], seen + {s.user.id})
  {
    var f := found + [s];
    assert forall k | 0 <= k < |found| :: f[k] == found[k];
    assert f[|found|] == s;
  }

  /** A prefix keeps the ids distinct. */
  lemma DistinctPrefix(s: seq<Suggestion>, n: nat)
    requires DistinctIds(s) && n <= |s|
    ensures DistinctIds(s[..n])
  {
    assert forall k | 0 <= k < n :: s[..n][k] == s[k];
  }

  /** Once the friends of all my friends are covered, every candidate is listed. */
  lemma CoveredIsComplete(t: seq<Edge>, users: seq<User>, me: int, found: seq<Suggestion>, seen: set<int>)
    requires Tracks(found, seen)
    requires CoveredAll(t, users, me, FriendIds(t, me), FriendIds(t, me), seen)
    ensures CompleteList(t, users, me, found)
  {
    forall c | Candidate(t, users, me, c) ensures exists k :: 0 <= k < |found| && found[k].user.id == c {
      var f :| f in FriendIds(t, me) && c in FriendIds(t, f);
      assert CoveredFrom(users, me, FriendIds(t, me), FriendIds(t, f), seen);
      assert c in seen;
    }
  }

  /** A suggestion is determined by its candidate. */
  lemma SuggestionDeterminedById(t: seq<Edge>, users: seq<User>, me: int, s1: Suggestion, s2: Suggestion)
    requires IsSuggestionFor(t, users, me, s1) && IsSuggestionFor(t, users, me, s2)
    ensures s1.user.id == s2.user.id ==> s1 == s2
  {
  }

  /** usort by mutual_friends, descending, then array_slice(…, 0, 10). */
  function Rank(found: seq<Suggestion>): seq<Suggestion> {
    Top(found, MutualOf, 10)
  }

  /** Every listed suggestion is correctly filled. */
  predicate SoundList(t: seq<Edge>, users: seq<User>, me: int, found: seq<Suggestion>) {
    forall x | x in found :: IsSuggestionFor(t, users, me, x)
  }

  /** Every candidate has its suggestion in the list. */
  ghost predicate CompleteList(t: seq<Edge>, users: seq<User>, me: int, found: seq<Suggestion>) {
    forall c | Candidate(t, users, me, c) :: exists k :: 0 <= k < |found| && found[k].user.id == c
  }

  /** Sorting a sound duplicate-free list keeps it sound and duplicate-free. */
  lemma SortKeepsSoundDistinct(t: seq<Edge>, users: seq<User>, me: int, found: seq<Suggestion>)
    requires SoundList(t, users, me, found) && DistinctIds(found)
    ensures SoundList(t, users, me, SortDesc(found, MutualOf))
    ensures DistinctIds(SortDesc(found, MutualOf))
  {
    var sorted := SortDesc(found, MutualOf);
    assert forall x | x in multiset(sorted) :: x in multiset(found);
    forall x | x in sorted ensures IsSuggestionFor(t, users, me, x) {
      assert x in multiset(sorted);
    }
    assert NoDup(found) by {
      forall i, j | 0 <= i < j < |found| ensures found[i] != found[j] {
        assert found[i].user.id != found[j].user.id;
      }
    }
    NoDupByMultiset(found);
    NoDupByMultiset(sorted);
    forall i, j | 0 <= i < j < |sorted| ensures sorted[i].user.id != sorted[j].user.id {
      SuggestionDeterminedById(t, users, me, sorted[i], sorted[j]);
    }
  }

  /** A candidate that ranking leaves out was beaten: the ranked list is full and its
      last entry has at least as many mutual friends. */
  lemma MissingCandidateDominated(t: seq<Edge>, users: seq<User>, me: int, found: seq<Suggestion>, c: int)
    requires SoundList(t, users, me, found)
    requires exists k :: 0 <= k < |found| && found[k].user.id == c
    requires forall k | 0 <= k < |Rank(found)| :: Rank(found)[k].user.id != c
    ensures |Rank(found)| == 10 && CountMutualFriends(t, me, c) <= Rank(found)[9].mutual
  {
    var k :| 0 <= k < |found| && found[k].user.id == c;
    var s := found[k];
    assert IsSuggestionFor(t, users, me, s);
    assert s !in Rank(found);
    TopOmitsOnlyDominated(found, MutualOf, 10, s);
  }

  /** Ranking a sound, complete and duplicate-free candidate list keeps it sound and
      duplicate-free, sorted, at most ten long; a candidate is missing only when ten
      others with at least as many mutual friends are listed. */
  lemma RankProperties(t: seq<Edge>, users: seq<User>, me: int, found: seq<Suggestion>)
    requires SoundList(t, users, me, found) && DistinctIds(found)
    requires CompleteList(t, users, me, found)
    ensures |Rank(found)| <= 10
    ensures SortedDesc(Rank(found), MutualOf)
    ensures SoundList(t, users, me, Rank(found))
    ensures DistinctIds(Rank(found))
    ensures forall c | Candidate(t, users, me, c) && (forall k | 0 <= k < |Rank(found)| :: Rank(found)[k].user.id != c) ::
      |Rank(found)| == 10 && CountMutualFriends(t, me, c) <= Rank(found)[9].mutual
  {
    RankSound(t, users, me, found);
    RankComplete(t, users, me, found);
  }

  lemma RankSound(t: seq<Edge>, users: seq<User>, me: int, found: seq<Suggestion>)
    requires SoundList(t, users, me, found) && DistinctIds(found)
    ensures SoundList(t, users, me, Rank(found)) && DistinctIds(Rank(found))
  {
    SortKeepsSoundDistinct(t, users, me, found);
    var sorted := SortDesc(found, MutualOf);
    if |sorted| > 10 {
      assert Rank(found) == sorted[..10];
      assert forall x | x in sorted[..10] :: x in sorted;
      DistinctPrefix(sorted, 10);
    }
  }

  lemma RankComplete(t: seq<Edge>, users: seq<User>, me: int, found: seq<Suggestion>)
    requires SoundList(t, users, me, found)
    requires CompleteList(t, users, me, found)
    ensures forall c | Candidate(t, users, me, c) && (forall k | 0 <= k < |Rank(found)| :: Rank(found)[k].user.id != c) ::
      |Rank(found)| == 10 && CountMutualFriends(t, me, c) <= Rank(found)[9].mutual
  {
    var r := Rank(found);
    forall c | Candidate(t, users, me, c) && (forall k | 0 <= k < |r| :: r[k].user.id != c)
      ensures |r| == 10 && CountMutualFriends(t, me, c) <= r[9].mutual
    {
      MissingCandidateDominated(t, users, me, found, c);
    }
  }

  // ---------------------------------------------------------------------------
  // Search

  /** One search result with its relation to the caller. */
  datatype SearchHit = SearchHit(
    user: User,
    friendshipStatus: Option<Status>,
    isFriend: bool,
    hasPendingRequest: bool,
    mutualFriends: nat)

  /** nom, prenom or email matches `%query%`; the LIKE comparison itself (collation,
      wildcards) is the parameter `like`. */
  predicate Matches(u: User, query: string, like: (string, string) -> bool) {
    like(u.nom, query) || like(u.prenom, query) || like(u.email, query)
  }

  /** The users other than me that match, in table order. */
  function SearchCandidates(users: seq<User>, me: int, query: string, like: (string, string) -> bool): (r: seq<User>)
    ensures forall u | u in r :: u in users && u.id != me && Matches(u, query, like)
    ensures forall u | u in users && u.id != me && Matches(u, query, like) :: u in r
    ensures NoDup(users) ==> NoDup(r)
  {
    if users == [] then []
    else
      var rest := SearchCandidates(users[1..], me, query, like);
      if users[0].id != me && Matches(users[0], query, like) then
        assert NoDup(users) ==> NoDup([users[0]] + rest) by {
          if NoDup(users) { NoDupTail(users); NoDupCons(users[0], rest); }
        }
        [users[0]] + rest
      else
        assert NoDup(users) ==> NoDup(rest) by {
          if NoDup(users) { NoDupTail(users); }
        }
        rest
  }

  /** The relationship annotation of one result, from the first row found between
      the caller and that user. */
  function Annotate(t: seq<Edge>, me: int, u: User): SearchHit {
    var f := FindBetween(t, me, u.id);
    SearchHit(
      u,
      if f.Some? then Some(f.value.statut) else None,
      f.Some? && f.value.statut == Ami,
      f.Some? && f.value.statut == Pending,
      CountMutualFriends(t, me, u.id))
  }

  /** The annotation of each user, in order. */
  function AnnotateAll(t: seq<Edge>, me: int, us: seq<User>): (r: seq<SearchHit>)
    ensures |r| == |us|
    ensures forall k | 0 <= k < |us| :: r[k] == Annotate(t, me, us[k])
  {
    if us == [] then [] else [Annotate(t, me, us[0])] + AnnotateAll(t, me, us[1..])
  }

  /** The users of a list of hits, in order. */
  function HitUsers(hs: seq<SearchHit>): (r: seq<User>)
    ensures |r| == |hs|
    ensures forall k | 0 <= k < |hs| :: r[k] == hs[k].user
  {
    seq(|hs|, k requires 0 <= k < |hs| => hs[k].user)
  }

  /** The result list of search for a query that passed validation: the first
      twenty matching users other than the caller, in table order, each annotated
      with its relation to the caller and the mutual-friend count. */
  function SearchHits(t: seq<Edge>, users: seq<User>, me: int, query: string, like: (string, string) -> bool)
    : (hits: seq<SearchHit>)
    ensures |hits| <= 20
    ensures forall k | 0 <= k < |hits| ::
      && hits[k].user in users && hits[k].user.id != me && Matches(hits[k].user, query, like)
      && AnnotationSound(t, me, hits[k])
      && hits[k].mutualFriends == CountMutualFriends(t, me, hits[k].user.id)
    ensures |hits| < 20 ==> forall u | u in users && u.id != me && Matches(u, query, like) ::
      exists k :: 0 <= k < |hits| && hits[k].user == u
    ensures HitUsers(hits) == Take(SearchCandidates(users, me, query, like), 20)
    ensures NoDup(users) ==> NoDup(HitUsers(hits))
  {
    var found := SearchCandidates(users, me, query, like);
    var top := Take(found, 20);
    var hits := AnnotateAll(t, me, top);
    assert HitUsers(hits) == top;
    assert forall k | 0 <= k < |top| :: top[k] in found;
    forall k | 0 <= k < |top| ensures AnnotationSound(t, me, hits[k]) {
      AnnotateSound(t, me, top[k]);
    }
    assert |hits| < 20 ==> top == found;
    hits
  }

  /** search: a missing or blank query, or one shorter than two characters, fails
      the rules `required|string|min:2` with 422; any other query gets its hits. */
  function Search(t: seq<Edge>, users: seq<User>, me: int, query: Option<string>, like: (string, string) -> bool)
    : (r: Result<seq<SearchHit>>)
    ensures r.Fail? <==> !Filled(query) || |query.value| < 2
    ensures r.Fail? ==> r.error == Unprocessable
    ensures r.Ok? ==> query.Some? && r.value == SearchHits(t, users, me, query.value, like)
  {
    if !Filled(query) || |query.value| < 2 then Fail(Unprocessable)
    else Ok(SearchHits(t, users, me, query.value, like))
  }


  /** The query rules on concrete inputs: a missing query, a blank one and a single
      character answer 422, while two characters search. */
  lemma SearchValidation(t: seq<Edge>, users: seq<User>, me: int, like: (string, string) -> bool)
    ensures Search(t, users, me, None, like) == Fail(Unprocessable)
    ensures Search(t, users, me, Some("  "), like) == Fail(Unprocessable)
    ensures Search(t, users, me, Some("a"), like) == Fail(Unprocessable)
    ensures Search(t, users, me, Some("ab"), like).Ok?
  {
    assert PhpSpace("  "[0]) && PhpSpace("  "[1]);
    assert !PhpSpace("ab"[0]);
  }

  /** The two flags of a result: never both set, both clear exactly when no row joins
      the two users, is_friend only on an accepted row, has_pending_request only on a
      pending row in either direction. */
  predicate AnnotationSound(t: seq<Edge>, me: int, h: SearchHit) {
    && !(h.isFriend && h.hasPendingRequest)
    && (!h.isFriend && !h.hasPendingRequest <==> !Between(t, me, h.user.id))
    && (h.isFriend ==> Friends(t, me, h.user.id))
    && (h.hasPendingRequest ==> HasPendingRequest(t, me, h.user.id) || HasPendingRequest(t, h.user.id, me))
  }

  lemma AnnotateSound(t: seq<Edge>, me: int, u: User)
    ensures AnnotationSound(t, me, Annotate(t, me, u))
  {
    var f := FindBetween(t, me, u.id);
    if f.Some? {
      var e := f.value;
      if e.id1 == me && e.id2 == u.id {
        assert e == Edge(me, u.id, e.statut);
      } else {
        assert e == Edge(u.id, me, e.statut);
      }
    }
  }

  /** Under the one-row-per-pair invariant the flags are exact: is_friend is the
      intended areFriends, and has_pending_request is a pending request in either
      direction. */
  lemma SearchAnnotationExact(t: seq<Edge>, me: int, u: User)
    requires OnePerPair(t)
    ensures Annotate(t, me, u).isFriend <==> AreFriendsIntended(t, me, u.id)
    ensures Annotate(t, me, u).hasPendingRequest
        <==> HasPendingRequest(t, me, u.id) || HasPendingRequest(t, u.id, me)
  {
    AnnotateSound(t, me, u);
    var x := u.id;
    if Edge(me, x, Ami) in t { FindBetweenUnique(t, me, x, Edge(me, x, Ami)); }
    if Edge(x, me, Ami) in t { FindBetweenUnique(t, me, x, Edge(x, me, Ami)); }
    if Edge(me, x, Pending) in t { FindBetweenUnique(t, me, x, Edge(me, x, Pending)); }
    if Edge(x, me, Pending) in t { FindBetweenUnique(t, me, x, Edge(x, me, Pending)); }
  }

  // ---------------------------------------------------------------------------
  // State transitions of the table

  /** The table after update(['statut' => 'ami']) on the row keyed (a, b). */
  function Accept(t: seq<Edge>, a: int, b: int): (r: seq<Edge>)
    ensures |r| == |t|
  {
    seq(|t|, k requires 0 <= k < |t| => if t[k].id1 == a && t[k].id2 == b then Edge(a, b, Ami) else t[k])
  }

  /** The table after delete() of the row keyed like e. */
  function RemoveKey(t: seq<Edge>, e: Edge): (r: seq<Edge>)
    ensures forall x | x in r :: x in t && !SameKey(x, e)
    ensures forall x | x in t && !SameKey(x, e) :: x in r
    ensures |r| <= |t|
  {
    if t == [] then []
    else (if SameKey(t[0], e) then [] else [t[0]]) + RemoveKey(t[1..], e)
  }

  /** Under the key, deleting the row keyed like a stored row removes exactly one row. */
  lemma {:induction false} RemoveKeyCount(t: seq<Edge>, e: Edge)
    requires KeyUnique(t) && e in t
    ensures |RemoveKey(t, e)| == |t| - 1
  {
    var rest := t[1..];
    TailKeyUnique(t);
    if SameKey(t[0], e) {
      forall k | 0 <= k < |rest| ensures !SameKey(rest[k], e) {
        assert rest[k] in rest;
      }
      RemoveKeyAbsent(rest, e);
    } else {
      assert e in rest;
      RemoveKeyCount(rest, e);
    }
  }

  lemma {:induction false} RemoveKeyAbsent(t: seq<Edge>, e: Edge)
    requires forall k | 0 <= k < |t| :: !SameKey(t[k], e)
    ensures RemoveKey(t, e) == t
  {
    if t != [] {
      RemoveKeyAbsent(t[1..], e);
    }
  }

  /** The head of a table and its tail, under each invariant. */
  lemma TailKeyUnique(t: seq<Edge>)
    requires KeyUnique(t) && t != []
    ensures KeyUnique(t[1..]) && forall x | x in t[1..] :: !SameKey(t[0], x)
  {
    var rest := t[1..];
    forall i, j | 0 <= i < j < |rest| ensures !SameKey(rest[i], rest[j]) {
      assert rest[i] == t[i + 1] && rest[j] == t[j + 1];
    }
    forall x | x in rest ensures !SameKey(t[0], x) {
      var m :| 0 <= m < |rest| && rest[m] == x;
      assert t[m + 1] == x;
    }
  }

  lemma ConsKeyUnique(x: Edge, s: seq<Edge>)
    requires KeyUnique(s) && forall y | y in s :: !SameKey(x, y)
    ensures KeyUnique([x] + s)
  {
    var r := [x] + s;
    forall i, j | 0 <= i < j < |r| ensures !SameKey(r[i], r[j]) {
      assert r[j] == s[j - 1] && r[j] in s;
      if i > 0 { assert r[i] == s[i - 1]; }
    }
  }


  lemma ConsOnePerPair(x: Edge, s: seq<Edge>)
    requires OnePerPair(s) && forall y | y in s :: !SamePair(x, y)
    ensures OnePerPair([x] + s)
  {
    var r := [x] + s;
    forall i, j | 0 <= i < j < |r| ensures !SamePair(r[i], r[j]) {
      assert r[j] == s[j - 1] && r[j] in s;
      if i > 0 { assert r[i] == s[i - 1]; }
    }
  }

  /** Deleting rows keeps the one-row-per-pair invariant. */
  lemma {:induction false} RemoveKeyKeepsOnePerPair(t: seq<Edge>, e: Edge)
    requires OnePerPair(t)
    ensures OnePerPair(RemoveKey(t, e))
  {
    if t != [] {
      TailOnePerPair(t);
      RemoveKeyKeepsOnePerPair(t[1..], e);
      if !SameKey(t[0], e) {
        ConsOnePerPair(t[0], RemoveKey(t[1..], e));
      }
    }
  }

  /** Deleting rows keeps the key unique. */
  lemma {:induction false} RemoveKeyKeepsKeyUnique(t: seq<Edge>, e: Edge)
    requires KeyUnique(t)
    ensures KeyUnique(RemoveKey(t, e))
  {
    if t != [] {
      TailKeyUnique(t);
      RemoveKeyKeepsKeyUnique(t[1..], e);
      if !SameKey(t[0], e) {
        ConsKeyUnique(t[0], RemoveKey(t[1..], e));
      }
    }
  }

  /** sendRequest's insertion keeps both the key and the one-row-per-pair invariant,
      because it only happens when no row joins the two users. */
  lemma SendKeepsInvariants(t: seq<Edge>, me: int, target: int)
    requires !Between(t, me, target)
    ensures KeyUnique(t) ==> KeyUnique(t + [Edge(me, target, Pending)])
    ensures OnePerPair(t) ==> OnePerPair(t + [Edge(me, target, Pending)])
  {
    var n := Edge(me, target, Pending);
    var r := t + [n];
    forall i | 0 <= i < |t| ensures !SamePair(t[i], n) {
      RowIsPresent(t, t[i]);
    }
    assert forall i | 0 <= i < |t| :: r[i] == t[i];
  }

  /** After a request, asking again in either direction is a conflict. */
  lemma RequestThenRequestConflicts(t: seq<Edge>, a: int, b: int)
    ensures Between(t + [Edge(a, b, Pending)], a, b)
    ensures Between(t + [Edge(a, b, Pending)], b, a)
  {
    assert (t + [Edge(a, b, Pending)])[|t|] == Edge(a, b, Pending);
  }

  /** Accepting changes only statuses, so both invariants survive it. */
  lemma AcceptKeepsInvariants(t: seq<Edge>, a: int, b: int)
    ensures KeyUnique(t) ==> KeyUnique(Accept(t, a, b))
    ensures OnePerPair(t) ==> OnePerPair(Accept(t, a, b))
  {
    var r := Accept(t, a, b);
    assert forall k | 0 <= k < |t| :: r[k].id1 == t[k].id1 && r[k].id2 == t[k].id2;
  }

  /** Accepting the request (a, b) makes a and b friends of each other and changes no
      other row. */
  lemma AcceptEffect(t: seq<Edge>, a: int, b: int)
    requires KeyUnique(t)
    requires HasPendingRequest(t, a, b)
    ensures b in FriendIds(Accept(t, a, b), a) && a in FriendIds(Accept(t, a, b), b)
    ensures !HasPendingRequest(Accept(t, a, b), a, b)
    ensures forall k | 0 <= k < |t| && !(t[k].id1 == a && t[k].id2 == b) :: Accept(t, a, b)[k] == t[k]
  {
    var r := Accept(t, a, b);
    var k :| 0 <= k < |t| && t[k] == Edge(a, b, Pending);
    assert r[k] == Edge(a, b, Ami);
    FriendIdsMembership(r, a, b);
    FriendIdsMembership(r, b, a);
  }

  /** The requester cannot accept their own outgoing request: under the invariant
      there is no pending row the other way, so acceptRequest answers 404. */
  lemma AcceptOwnRequestFails(t: seq<Edge>, a: int, b: int)
    requires OnePerPair(t) && a != b
    requires HasPendingRequest(t, a, b)
    ensures !HasPendingRequest(t, b, a)
  {
    PendingIsDirectional(t, a, b);
  }

  /** removeFriend under the invariant: exactly one row goes, afterwards no row joins
      the two users (so neither lists the other as friend), and every row about
      another pair stays. */
  lemma RemoveEffect(t: seq<Edge>, a: int, b: int)
    requires OnePerPair(t) && Between(t, a, b)
    ensures |RemoveKey(t, FindBetween(t, a, b).value)| == |t| - 1
    ensures !Between(RemoveKey(t, FindBetween(t, a, b).value), a, b)
    ensures b !in FriendIds(RemoveKey(t, FindBetween(t, a, b).value), a)
    ensures a !in FriendIds(RemoveKey(t, FindBetween(t, a, b).value), b)
    ensures forall e | e in t && !SamePair(e, Edge(a, b, Pending)) :: e in RemoveKey(t, FindBetween(t, a, b).value)
    ensures OnePerPair(RemoveKey(t, FindBetween(t, a, b).value))
  {
    var f := FindBetween(t, a, b).value;
    var r := RemoveKey(t, f);
    OnePerPairIsKeyUnique(t);
    RemoveKeyCount(t, f);
    RemoveKeyKeepsOnePerPair(t, f);
    forall s: Status ensures Edge(a, b, s) !in r && Edge(b, a, s) !in r {
      if Edge(a, b, s) in t { FindBetweenUnique(t, a, b, Edge(a, b, s)); }
      if Edge(b, a, s) in t { FindBetweenUnique(t, a, b, Edge(b, a, s)); }
    }
    FriendIdsMembership(r, a, b);
    FriendIdsMembership(r, b, a);
  }

  /** The Amitie table as the controller sees it. */
  class FriendshipTable {
    var edges: seq<Edge>

    /** The composite primary key (id_1, id_2). */
    ghost predicate Valid()
      reads this
    {
      KeyUnique(edges)
    }

    constructor ()
      ensures Valid() && edges == []
    {
      edges := [];
    }

    /** getFriends: one entry per accepted row touching me, built in a loop. */
    method GetFriends(users: seq<User>, me: int) returns (friends: seq<FriendEntry>)
      ensures friends == FriendEntries(users, FriendsOfUser(edges, me), me)
    {
      var friendships := FriendsOfUser(edges, me);
      friends := [];
      var i := 0;
      while i < |friendships|
        invariant 0 <= i <= |friendships|
        invariant friends == FriendEntries(users, friendships[..i], me)
      {
        var friendship := friendships[i];
        var friendId := if friendship.id1 == me then friendship.id2 else friendship.id1;
        var friend := Lookup(users, friendId);
        FriendEntriesSnoc(users, friendships[..i], friendship, me);
        assert friendships[..i + 1] == friendships[..i] + [friendship];
        if friend.Some? {
          friends := friends + [FriendEntry(friend.value, friendship)];
        }
        i := i + 1;
      }
      assert friendships[..i] == friendships;
    }

    /** getSuggestions: friends of friends, scanned friend by friend and row by row,
        skipping me, my friends and candidates already taken; then ranked. */
    method GetSuggestions(users: seq<User>, me: int) returns (suggestions: seq<Suggestion>)
      ensures |suggestions| <= 10
      ensures SortedDesc(suggestions, MutualOf)
      ensures forall s | s in suggestions :: IsSuggestionFor(edges, users, me, s)
      ensures DistinctIds(suggestions)
      ensures forall c | Candidate(edges, users, me, c) && (forall k | 0 <= k < |suggestions| :: suggestions[k].user.id != c) ::
        |suggestions| == 10 && CountMutualFriends(edges, me, c) <= suggestions[9].mutual
    {
      var currentFriends := FriendIds(edges, me);
      var found: seq<Suggestion> := [];
      var seen: set<int> := {};
      var i := 0;
      while i < |currentFriends|
        invariant 0 <= i <= |currentFriends|
        invariant SoundList(edges, users, me, found) && DistinctIds(found) && Tracks(found, seen)
        invariant CoveredAll(edges, users, me, currentFriends, currentFriends[..i], seen)
      {
        var friendId := currentFriends[i];
        found, seen := ScanFriendsOf(users, me, currentFriends, currentFriends[..i], friendId, found, seen);
        assert currentFriends[..i + 1] == currentFriends[..i] + [friendId];
        i := i + 1;
      }
      assert currentFriends[..i] == currentFriends;
      CoveredIsComplete(edges, users, me, found, seen);
      RankProperties(edges, users, me, found);
      suggestions := Rank(found);
    }

    /** The inner loop of getSuggestions: the accepted rows of one friend, each other
        endpoint taken as a new suggestion unless it is me, one of my friends, a
        candidate already taken or an unknown user. */
    method ScanFriendsOf(users: seq<User>, me: int, myFriends: seq<int>, done: seq<int>, friendId: int,
                         found0: seq<Suggestion>, seen0: set<int>)
      returns (found: seq<Suggestion>, seen: set<int>)
      requires myFriends == FriendIds(edges, me)
      requires SoundList(edges, users, me, found0) && DistinctIds(found0) && Tracks(found0, seen0)
      requires CoveredAll(edges, users, me, myFriends, done, seen0)
      requires friendId in myFriends
      ensures SoundList(edges, users, me, found) && DistinctIds(found) && Tracks(found, seen)
      ensures CoveredAll(edges, users, me, myFriends, done + [friendId], seen)
    {
      found, seen := found0, seen0;
      var friendFriendships := FriendsOfUser(edges, friendId);
      ghost var ids := FriendIds(edges, friendId);
      var j := 0;
      while j < |friendFriendships|
        invariant 0 <= j <= |friendFriendships|
        invariant SoundList(edges, users, me, found) && DistinctIds(found) && Tracks(found, seen)
        invariant CoveredAll(edges, users, me, myFriends, done, seen)
        invariant CoveredFrom(users, me, myFriends, ids[..j], seen)
      {
        var potentialFriendId := Other(friendFriendships[j], friendId);
        assert ids[j] == potentialFriendId;
        if potentialFriendId != me && potentialFriendId !in myFriends && potentialFriendId !in seen {
          var mutualFriends := CountMutualFriends(edges, me, potentialFriendId);
          var userData := Lookup(users, potentialFriendId);
          if userData.Some? {
            assert Candidate(edges, users, me, potentialFriendId) by {
              assert potentialFriendId in ids;
            }
            var s := Suggestion(userData.value, mutualFriends, MutualFriendsList(edges, users, me, potentialFriendId));
            AddSuggestion(edges, users, me, found, seen, s);
            CoveredGrows(edges, users, me, myFriends, done, ids[..j], seen, potentialFriendId);
            found := found + [s];
            seen := seen + {potentialFriendId};
          }
        }
        CoveredStep(users, me, myFriends, ids, j, seen);
        j := j + 1;
      }
      assert ids[..j] == ids;
    }

    /** sendRequest */
    method SendRequest(users: seq<User>, me: int, target: int) returns (r: Result<Edge>)
      requires Valid()
      modifies this
      ensures Valid()
      ensures Lookup(users, target).None? ==> r == Fail(Unprocessable) && edges == old(edges)
      ensures Lookup(users, target).Some? && Between(old(edges), me, target) ==>
        r == Fail(BadRequest) && edges == old(edges)
      ensures Lookup(users, target).Some? && !Between(old(edges), me, target) ==>
        r == Ok(Edge(me, target, Pending)) && edges == old(edges) + [Edge(me, target, Pending)]
      ensures OnePerPair(old(edges)) ==> OnePerPair(edges)
    {
      if Lookup(users, target).None? {
        return Fail(Unprocessable);
      }
      var existing := FindBetween(edges, me, target);
      if existing.Some? {
        return Fail(BadRequest);
      }
      SendKeepsInvariants(edges, me, target);
      var amitie := Edge(me, target, Pending);
      edges := edges + [amitie];
      r := Ok(amitie);
    }

    /** acceptRequest */
    method AcceptRequest(users: seq<User>, me: int, requester: int) returns (r: Result<Edge>)
      requires Valid()
      modifies this
      ensures Valid()
      ensures Lookup(users, requester).None? ==> r == Fail(Unprocessable) && edges == old(edges)
      ensures Lookup(users, requester).Some? && !HasPendingRequest(old(edges), requester, me) ==>
        r == Fail(NotFound) && edges == old(edges)
      ensures Lookup(users, requester).Some? && HasPendingRequest(old(edges), requester, me) ==>
        r == Ok(Edge(requester, me, Ami)) && edges == Accept(old(edges), requester, me)
      ensures OnePerPair(old(edges)) ==> OnePerPair(edges)
    {
      if Lookup(users, requester).None? {
        return Fail(Unprocessable);
      }
      if Edge(requester, me, Pending) !in edges {
        return Fail(NotFound);
      }
      AcceptKeepsInvariants(edges, requester, me);
      edges := Accept(edges, requester, me);
      r := Ok(Edge(requester, me, Ami));
    }

    /** removeFriend: rejects a request, cancels one, or ends a friendship. */
    method RemoveFriend(users: seq<User>, me: int, friendId: int) returns (r: Result<()>)
      requires Valid()
      modifies this
      ensures Valid()
      ensures Lookup(users, friendId).None? ==> r == Fail(Unprocessable) && edges == old(edges)
      ensures Lookup(users, friendId).Some? && !Between(old(edges), me, friendId) ==>
        r == Fail(NotFound) && edges == old(edges)
      ensures Lookup(users, friendId).Some? && Between(old(edges), me, friendId) ==>
        r == Ok(()) && edges == RemoveKey(old(edges), FindBetween(old(edges), me, friendId).value)
      ensures OnePerPair(old(edges)) ==> OnePerPair(edges)
    {
      if Lookup(users, friendId).None? {
        return Fail(Unprocessable);
      }
      var friendship := FindBetween(edges, me, friendId);
      if friendship.None? {
        return Fail(NotFound);
      }
      RemoveKeyKeepsKeyUnique(edges, friendship.value);
      if OnePerPair(edges) { RemoveKeyKeepsOnePerPair(edges, friendship.value); }
      edges := RemoveKey(edges, friendship.value);
      r := Ok(());
    }
  }

  lemma FriendEntriesSnoc(users: seq<User>, fs: seq<Edge>, e: Edge, me: int)
    ensures FriendEntries(users, fs + [e], me)
         == FriendEntries(users, fs, me)
            + (match Lookup(users, Other(e, me)) case Some(u) => [FriendEntry(u, e)] case None => [])
  {
    if fs == [] {
      assert [e][1..] == [];
    } else {
      assert (fs + [e])[1..] == fs[1..] + [e];
      FriendEntriesSnoc(users, fs[1..], e, me);
    }
  }

  /** A request, its acceptance, the requester's own attempt to accept, and the
      removal, as a caller sees them through the contracts. */
  method FriendshipLifecycle()
  {
    var users := [User(1, "Martin", "", "m@x"), User(2, "Marie", "", "r@x")];
    var table := new FriendshipTable();
    var sent := table.SendRequest(users, 1, 2);
    assert sent == Ok(Edge(1, 2, Pending));
    var again := table.SendRequest(users, 2, 1);
    assert table.edges[0] == Edge(1, 2, Pending);
    assert again == Fail(BadRequest);
    var own := table.AcceptRequest(users, 1, 2);
    assert own == Fail(NotFound);
    var accepted := table.AcceptRequest(users, 2, 1);
    assert accepted == Ok(Edge(1, 2, Ami));
    assert table.edges == [Edge(1, 2, Ami)];
    FriendIdsMembership(table.edges, 1, 2);
    assert 2 in FriendIds(table.edges, 1);
    var removed := table.RemoveFriend(users, 2, 1);
    assert removed == Ok(());
    assert table.edges == [];
  }
}
