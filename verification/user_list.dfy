/**
 * The user record and the list queries that both user stores share.
 *
 * Both `UserStore` classes keep their users in an observable collection and
 * answer `Fetch`, `Exists`, `Count` and `Remove` with the same code (a LINQ
 * `FirstOrDefault`, a LINQ `Any`, the collection's length and the
 * collection's own `Remove`). Only `Add` differs between them, so the shared
 * queries are defined once here and each store module adds its own `Add`.
 */
module UserList {

  /** `None` stands for the `null` that `FirstOrDefault` returns. */
  datatype Option<+T> = None | Some(value: T)

  type UserId = string

  /**
   * One user account. The fields are the five that the persistence test
   * sets and compares; the class declaration itself is not part of this
   * model. Two users are equal when all five fields are equal.
   */
  datatype User = User(userId: UserId, username: string, email: string, isAdmin: bool, password: string)

  /** Some position of `s` holds a user with id `id`. */
  ghost predicate HasId(s: seq<User>, id: UserId) {
    exists i :: 0 <= i < |s| && s[i].userId == id
  }

  /** Position `i` holds the first user of `s` whose id is `id`. */
  ghost predicate IsFirstWithId(s: seq<User>, id: UserId, i: int) {
    && 0 <= i < |s|
    && s[i].userId == id
    && forall j :: 0 <= j < i ==> s[j].userId != id
  }

  /** No two positions of `s` hold users with the same id. */
  ghost predicate DistinctIds(s: seq<User>) {
    forall i, j :: 0 <= i < j < |s| ==> s[i].userId != s[j].userId
  }

  /** The ids occurring in `s`. */
  function Ids(s: seq<User>): set<UserId> {
    set i | 0 <= i < |s| :: s[i].userId
  }

  /**
   * The number of users in the store. It is never below the number of
   * distinct ids, and equals it when no id occurs twice (the converse is
   * `IdsCardinality`).
   */
  function Count(s: seq<User>): (n: nat)
    ensures |Ids(s)| <= n
    ensures DistinctIds(s) ==> n == |Ids(s)|
  {
    IdsCardinality(s);
    |s|
  }

  /** A linear scan for a user with the given id. */
  function Exists(s: seq<User>, id: UserId): (b: bool)
    ensures b <==> HasId(s, id)
    ensures b <==> id in Ids(s)
  {
    if |s| == 0 then false
    else if s[0].userId == id then true
    else
      var b := Exists(s[1..], id);
      assert b ==> HasId(s, id) by {
        if b {
          var k :| 0 <= k < |s| - 1 && s[1..][k].userId == id;
          assert s[k + 1].userId == id;
        }
      }
      assert HasId(s, id) ==> b by {
        if HasId(s, id) {
          var k :| 0 <= k < |s| && s[k].userId == id;
          assert s[1..][k - 1].userId == id;
        }
      }
      b
  }

  /**
   * The first user with the given id, or `None` when there is none. The id
   * is the only thing compared: the other fields play no part.
   */
  function Fetch(s: seq<User>, id: UserId): (r: Option<User>)
    ensures r.None? <==> !HasId(s, id)
    ensures r.Some? ==> exists i :: IsFirstWithId(s, id, i) && s[i] == r.value
  {
    if |s| == 0 then None
    else if s[0].userId == id then
      assert IsFirstWithId(s, id, 0);
      Some(s[0])
    else
      var r := Fetch(s[1..], id);
      assert r.Some? ==> exists i :: IsFirstWithId(s, id, i) && s[i] == r.value by {
        if r.Some? {
          var k :| IsFirstWithId(s[1..], id, k) && s[1..][k] == r.value;
          assert IsFirstWithId(s, id, k + 1);
        }
      }
      assert HasId(s, id) ==> r.Some? by {
        if HasId(s, id) {
          var k :| 0 <= k < |s| && s[k].userId == id;
          assert s[1..][k - 1].userId == id;
        }
      }
      r
  }

  /** The position of the first user of `s` equal to `u`. */
  ghost function FirstIndexOf(s: seq<User>, u: User): (i: nat)
    requires u in s
    ensures i < |s| && s[i] == u && u !in s[..i]
  {
    if s[0] == u then 0
    else
      var k := FirstIndexOf(s[1..], u);
      assert s[..k + 1] == [s[0]] + s[1..][..k];
      k + 1
  }

  /**
   * Removes the first user equal to `u` and keeps the others in order; when
   * no user equals `u` the store is unchanged.
   */
  function Remove(s: seq<User>, u: User): (r: seq<User>)
    ensures u !in s ==> r == s
    ensures u in s ==> r == s[..FirstIndexOf(s, u)] + s[FirstIndexOf(s, u) + 1..]
  {
    if |s| == 0 then []
    else if s[0] == u then
      s[1..]
    else
      var rest := Remove(s[1..], u);
      if u in s then
        var k := FirstIndexOf(s[1..], u);
        assert FirstIndexOf(s, u) == k + 1;
        DeleteAtCons(s, k);
        [s[0]] + rest
      else
        [s[0]] + rest
  }

  /** Keeping the head while deleting a later position is deleting that position. */
  lemma DeleteAtCons(s: seq<User>, k: nat)
    requires k + 1 < |s|
    ensures [s[0]] + (s[1..][..k] + s[1..][k + 1..]) == s[..k + 1] + s[k + 2..]
  {
    assert s[..k + 1] == [s[0]] + s[1..][..k];
    assert s[k + 2..] == s[1..][k + 1..];
  }

  /** Deleting one position from a store with distinct ids keeps them distinct. */
  lemma DistinctIdsDeleteAt(s: seq<User>, i: int)
    requires DistinctIds(s)
    requires 0 <= i < |s|
    ensures DistinctIds(s[..i] + s[i + 1..])
    ensures s[i].userId !in Ids(s[..i] + s[i + 1..])
  {
    var r := s[..i] + s[i + 1..];
    forall a | 0 <= a < |r|
      ensures r[a] == s[if a < i then a else a + 1]
    {
    }
  }

  /**
   * Removing a user preserves distinct ids, and when the user was present
   * its id is afterwards absent: with unique ids, the id of the removed
   * user no longer occurs anywhere.
   */
  lemma RemovePreservesDistinctIds(s: seq<User>, u: User)
    requires DistinctIds(s)
    ensures DistinctIds(Remove(s, u))
    ensures u in s ==> !Exists(Remove(s, u), u.userId)
    ensures u in s ==> Count(Remove(s, u)) == Count(s) - 1
    ensures u !in s ==> Count(Remove(s, u)) == Count(s)
  {
    if u in s {
      DistinctIdsDeleteAt(s, FirstIndexOf(s, u));
    }
  }

  /**
   * `Remove` deletes exactly one occurrence of `u` when there is one, as a
   * multiset difference, so it deletes at most one element.
   */
  lemma RemoveMultiset(s: seq<User>, u: User)
    ensures multiset(Remove(s, u)) == multiset(s) - multiset{u}
  {
    if u in s {
      var i := FirstIndexOf(s, u);
      assert s == s[..i] + ([u] + s[i + 1..]);
      assert multiset(s) == multiset(s[..i]) + multiset([u] + s[i + 1..]);
      assert multiset([u] + s[i + 1..]) == multiset{u} + multiset(s[i + 1..]);
    } else {
      assert multiset(s)[u] == 0;
    }
  }

  /** `Fetch` finds a user exactly when `Exists` reports one. */
  lemma FetchIffExists(s: seq<User>, id: UserId)
    ensures Fetch(s, id).Some? <==> Exists(s, id)
    ensures Fetch(s, id).Some? ==> Fetch(s, id).value.userId == id && Fetch(s, id).value in s
  {
  }

  /** In a store with distinct ids, `Fetch` returns the only user with that id. */
  lemma FetchUnique(s: seq<User>, u: User)
    requires DistinctIds(s)
    requires u in s
    ensures Fetch(s, u.userId) == Some(u)
  {
    var k :| 0 <= k < |s| && s[k] == u;
    assert HasId(s, u.userId) by {
      assert s[k].userId == u.userId;
    }
    var r := Fetch(s, u.userId);
    var i :| IsFirstWithId(s, u.userId, i) && s[i] == r.value;
  }

  /** A store with distinct ids holds exactly as many users as it has ids. */
  lemma {:induction false} DistinctIdsCount(s: seq<User>)
    requires DistinctIds(s)
    ensures |Ids(s)| == |s|
  {
    if |s| > 0 {
      var t := s[..|s| - 1];
      assert DistinctIds(t);
      DistinctIdsCount(t);
      assert Ids(s) == Ids(t) + {s[|s| - 1].userId};
      assert s[|s| - 1].userId !in Ids(t);
    }
  }

  /** A list has at most as many distinct ids as users. */
  lemma {:induction false} IdsAtMostLength(s: seq<User>)
    ensures |Ids(s)| <= |s|
  {
    if |s| > 0 {
      var t := s[..|s| - 1];
      IdsAtMostLength(t);
      assert Ids(s) == Ids(t) + {s[|s| - 1].userId};
    }
  }

  /**
   * A list has as many distinct ids as users exactly when its ids are
   * distinct: a repeated id leaves the ids those of the list without its
   * second occurrence, which is one user shorter.
   */
  lemma IdsCardinality(s: seq<User>)
    ensures |Ids(s)| <= |s|
    ensures |Ids(s)| == |s| <==> DistinctIds(s)
  {
    IdsAtMostLength(s);
    if DistinctIds(s) {
      DistinctIdsCount(s);
    } else {
      var i, j :| 0 <= i < j < |s| && s[i].userId == s[j].userId;
      var r := s[..j] + s[j + 1..];
      forall a | 0 <= a < |r|
        ensures r[a] == s[if a < j then a else a + 1]
      {
      }
      assert Ids(r) == Ids(s) by {
        forall id | id in Ids(s)
          ensures id in Ids(r)
        {
          var k :| 0 <= k < |s| && s[k].userId == id;
          if k < j {
            assert r[k] == s[k];
          } else if k == j {
            assert r[i] == s[i];
          } else {
            assert r[k - 1] == s[k];
          }
        }
      }
      IdsAtMostLength(r);
    }
  }

  /** The ids of a non-empty list are the first id and the ids of the rest. */
  lemma IdsCons(us: seq<User>)
    requires |us| > 0
    ensures Ids(us) == {us[0].userId} + Ids(us[1..])
  {
    forall id | id in Ids(us)
      ensures id in {us[0].userId} + Ids(us[1..])
    {
      var i :| 0 <= i < |us| && us[i].userId == id;
      if i > 0 {
        assert us[1..][i - 1] == us[i];
      }
    }
    forall id | id in Ids(us[1..])
      ensures id in Ids(us)
    {
      var i :| 0 <= i < |us| - 1 && us[1..][i].userId == id;
      assert us[i + 1] == us[1..][i];
    }
  }
}
