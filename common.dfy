/** Small shared vocabulary: optional values, HTTP-style failures, and facts about
    sequences without duplicates. */
module Common {

  datatype Option<+T> = None | Some(value: T)

  /** The HTTP status codes the controllers answer with when they do not succeed. */
  datatype HttpError =
    | BadRequest      // 400
    | Forbidden       // 403
    | NotFound        // 404
    | Unprocessable   // 422, a failed request validation
    | ServerError     // 500, an exception caught by the controller

  datatype Result<+T> = Ok(value: T) | Fail(error: HttpError)

  /** The characters PHP's trim removes. */
  predicate PhpSpace(c: char) {
    c == ' ' || c == '\t' || c == '\n' || c == '\r' || c == '\0' || c == '\U{000B}'
  }

  /** Laravel's `required` rule on a string field: present, and not blank once
      trimmed. */
  predicate Filled(v: Option<string>) {
    v.Some? && exists k | 0 <= k < |v.value| :: !PhpSpace(v.value[k])
  }

  /** No element occurs twice. */
  predicate NoDup<T(==)>(s: seq<T>) {
    forall i, j | 0 <= i < j < |s| :: s[i] != s[j]
  }

  function Elements<T>(s: seq<T>): set<T> {
    set x | x in s
  }

  /** A duplicate-free sequence has as many elements as its set. */
  lemma {:induction false} NoDupCard<T>(s: seq<T>)
    requires NoDup(s)
    ensures |Elements(s)| == |s|
  {
    if s != [] {
      NoDupTail(s);
      NoDupCard(s[1..]);
      assert Elements(s) == {s[0]} + Elements(s[1..]) by {
        assert s == [s[0]] + s[1..];
      }
    }
  }

  /** Duplicate-freedom survives a permutation: it depends on the multiset only. */
  lemma {:induction false} NoDupByMultiset<T>(s: seq<T>)
    ensures NoDup(s) <==> forall x | x in multiset(s) :: multiset(s)[x] == 1
  {
    if s == [] {
    } else {
      var t := s[1..];
      assert s == [s[0]] + t;
      NoDupByMultiset(t);
      assert multiset(s) == multiset{s[0]} + multiset(t);
      if NoDup(s) {
        assert NoDup(t) by {
          forall i, j | 0 <= i < j < |t| ensures t[i] != t[j] {
            assert t[i] == s[i + 1] && t[j] == s[j + 1];
          }
        }
        assert s[0] !in t by {
          forall k | 0 <= k < |t| ensures t[k] != s[0] {
            assert t[k] == s[k + 1];
          }
        }
      } else {
        var i, j :| 0 <= i < j < |s| && s[i] == s[j];
        if i == 0 {
          assert s[j] == t[j - 1];
          assert multiset(s)[s[0]] >= 2;
        } else {
          assert t[i - 1] == s[i] && t[j - 1] == s[j];
          assert !NoDup(t);
          var x :| x in multiset(t) && multiset(t)[x] != 1;
          assert multiset(s)[x] >= multiset(t)[x] >= 2;
        }
      }
    }
  }

  /** The tail of a duplicate-free sequence is duplicate-free and lacks the head. */
  lemma NoDupTail<T>(s: seq<T>)
    requires NoDup(s) && s != []
    ensures NoDup(s[1..]) && s[0] !in s[1..]
  {
    forall i, j | 0 <= i < j < |s[1..]| ensures s[1..][i] != s[1..][j] {
      assert s[1..][i] == s[i + 1] && s[1..][j] == s[j + 1];
    }
    forall k | 0 <= k < |s[1..]| ensures s[1..][k] != s[0] {
      assert s[1..][k] == s[k + 1];
    }
  }

  /** A new element in front keeps a sequence duplicate-free. */
  lemma NoDupCons<T>(x: T, s: seq<T>)
    requires NoDup(s) && x !in s
    ensures NoDup([x] + s)
  {
    var r := [x] + s;
    forall i, j | 0 <= i < j < |r| ensures r[i] != r[j] {
      assert r[j] == s[j - 1];
      if i > 0 { assert r[i] == s[i - 1]; }
    }
  }

  /** A new element at the end keeps a sequence duplicate-free. */
  lemma NoDupAppend<T>(s: seq<T>, x: T)
    requires NoDup(s) && x !in s
    ensures NoDup(s + [x])
  {
    var r := s + [x];
    forall i, j | 0 <= i < j < |r| ensures r[i] != r[j] {
      assert r[i] == s[i];
      if j < |s| { assert r[j] == s[j]; }
    }
  }

  /** Keeps from a the elements that also occur in b, in a's order and with a's
      multiplicity (PHP's array_intersect, values only). */
  function Intersect<T(==)>(a: seq<T>, b: seq<T>): (r: seq<T>)
    ensures forall x | x in r :: x in a && x in b
    ensures forall x | x in a && x in b :: x in r
    ensures |r| <= |a|
    ensures NoDup(a) ==> NoDup(r)
  {
    if a == [] then []
    else
      var rest := Intersect(a[1..], b);
      if a[0] in b then
        assert NoDup(a) ==> NoDup([a[0]] + rest) by {
          if NoDup(a) { NoDupTail(a); NoDupCons(a[0], rest); }
        }
        [a[0]] + rest
      else
        assert NoDup(a) ==> NoDup(rest) by {
          if NoDup(a) { NoDupTail(a); }
        }
        rest
  }

  /** Counted on duplicate-free sequences, the intersection does not depend on the
      order of its arguments. */
  lemma IntersectSizeSymmetric<T>(a: seq<T>, b: seq<T>)
    requires NoDup(a) && NoDup(b)
    ensures |Intersect(a, b)| == |Intersect(b, a)| == |Elements(a) * Elements(b)|
  {
    var ab, ba := Intersect(a, b), Intersect(b, a);
    NoDupCard(ab);
    NoDupCard(ba);
    assert Elements(ab) == Elements(a) * Elements(b);
    assert Elements(ba) == Elements(a) * Elements(b);
  }

  /** The first n elements of s, or all of s when it is shorter (`limit(n)`,
      `array_slice(s, 0, n)`). */
  function Take<T>(s: seq<T>, n: nat): (r: seq<T>)
    ensures |r| == if |s| <= n then |s| else n
    ensures r == s[..|r|]
    ensures NoDup(s) ==> NoDup(r)
  {
    if |s| <= n then s else s[..n]
  }

  /** The elements of s that keep accepts, in order (a `where` clause). */
  function Filter<T(==)>(s: seq<T>, keep: T -> bool): (r: seq<T>)
    ensures forall x | x in r :: x in s && keep(x)
    ensures forall x | x in s && keep(x) :: x in r
    ensures |r| <= |s|
    ensures NoDup(s) ==> NoDup(r)
  {
    if s == [] then []
    else
      var rest := Filter(s[1..], keep);
      if keep(s[0]) then
        assert NoDup(s) ==> NoDup([s[0]] + rest) by {
          if NoDup(s) { NoDupTail(s); NoDupCons(s[0], rest); }
        }
        [s[0]] + rest
      else
        assert NoDup(s) ==> NoDup(rest) by {
          if NoDup(s) { NoDupTail(s); }
        }
        rest
  }

  /** Filtering an appended element. */
  lemma {:induction false} FilterAppend<T>(s: seq<T>, x: T, keep: T -> bool)
    ensures Filter(s + [x], keep) == Filter(s, keep) + (if keep(x) then [x] else [])
  {
    if s == [] {
      assert s + [x] == [x];
      assert [x][1..] == [];
    } else {
      assert (s + [x])[0] == s[0] && (s + [x])[1..] == s[1..] + [x];
      FilterAppend(s[1..], x, keep);
    }
  }

  /** A filter that rejects every element is empty. */
  lemma {:induction false} FilterNone<T>(s: seq<T>, keep: T -> bool)
    requires forall x | x in s :: !keep(x)
    ensures Filter(s, keep) == []
  {
    if s != [] {
      assert forall x | x in s[1..] :: x in s;
      FilterNone(s[1..], keep);
    }
  }

  /** A filter that accepts every element changes nothing. */
  lemma {:induction false} FilterAll<T>(s: seq<T>, keep: T -> bool)
    requires forall x | x in s :: keep(x)
    ensures Filter(s, keep) == s
  {
    if s != [] {
      assert forall x | x in s[1..] :: x in s;
      FilterAll(s[1..], keep);
      assert s == [s[0]] + s[1..];
    }
  }

  /** Filtering by f and then by a stronger g is filtering by g. */
  lemma {:induction false} FilterOfFilter<T>(s: seq<T>, f: T -> bool, g: T -> bool)
    requires forall x | x in s :: g(x) ==> f(x)
    ensures Filter(Filter(s, f), g) == Filter(s, g)
  {
    if s != [] {
      assert forall x | x in s[1..] :: x in s;
      FilterOfFilter(s[1..], f, g);
      var rest := Filter(s[1..], f);
      if f(s[0]) {
        var r := [s[0]] + rest;
        assert r[0] == s[0] && r[1..] == rest;
      }
    }
  }

  /** On a duplicate-free sequence, a filter rejecting exactly one present element
      drops just that one. */
  lemma {:induction false} FilterDropsOne<T>(s: seq<T>, x: T, keep: T -> bool)
    requires NoDup(s) && x in s && !keep(x)
    requires forall y | y in s && y != x :: keep(y)
    ensures |Filter(s, keep)| == |s| - 1
  {
    NoDupTail(s);
    if s[0] == x {
      assert forall y | y in s[1..] :: y in s && y != x;
      FilterAll(s[1..], keep);
    } else {
      assert forall y | y in s[1..] :: y in s;
      FilterDropsOne(s[1..], x, keep);
    }
  }

  /** Deleting the first occurrence of x, if any. */
  function RemoveFirst<T(==)>(s: seq<T>, x: T): (r: seq<T>)
    ensures x in s ==> multiset(r) == multiset(s) - multiset{x}
    ensures x !in s ==> r == s
    ensures forall y | y in r :: y in s
    ensures |r| == if x in s then |s| - 1 else |s|
  {
    if s == [] then []
    else if s[0] == x then
      assert s == [s[0]] + s[1..];
      s[1..]
    else
      assert s == [s[0]] + s[1..];
      [s[0]] + RemoveFirst(s[1..], x)
  }

  /** Deleting a freshly appended element restores the sequence. */
  lemma {:induction false} RemoveFirstAppended<T>(s: seq<T>, x: T)
    requires x !in s
    ensures RemoveFirst(s + [x], x) == s
  {
    if s == [] {
      assert s + [x] == [x];
    } else {
      assert (s + [x])[0] == s[0] && (s + [x])[1..] == s[1..] + [x];
      RemoveFirstAppended(s[1..], x);
    }
  }

  /** Filtering commutes with deleting an element: only a kept element is missing
      from the filtered result. */
  lemma {:induction false} FilterRemoveFirst<T>(s: seq<T>, x: T, keep: T -> bool)
    ensures Filter(RemoveFirst(s, x), keep) == if keep(x) then RemoveFirst(Filter(s, keep), x) else Filter(s, keep)
  {
    if s != [] && s[0] != x {
      FilterRemoveFirst(s[1..], x, keep);
      var r := [s[0]] + RemoveFirst(s[1..], x);
      assert r[0] == s[0] && r[1..] == RemoveFirst(s[1..], x);
      if keep(s[0]) {
        var f := [s[0]] + Filter(s[1..], keep);
        assert f[0] == s[0] && f[1..] == Filter(s[1..], keep);
      }
    }
  }
}
