/**
 * The earlier, purely in-memory user store. It starts empty, never touches
 * the device settings, and its `Add` appends unconditionally, so two users
 * with the same id can sit side by side. `Fetch`, `Exists`, `Count` and
 * `Remove` are the shared queries of `UserList`.
 */
module InMemoryUserStore {
  import opened UserList

  /** A new store holds no users. */
  function Empty(): (s: seq<User>)
    ensures Count(s) == 0
    ensures forall id :: !Exists(s, id)
  {
    []
  }

  /** Appends `u` at the end, whatever ids are already stored. */
  function Add(s: seq<User>, u: User): (r: seq<User>)
    ensures |r| == |s| + 1
    ensures r[..|s|] == s && r[|s|] == u
    ensures Exists(r, u.userId)
  {
    assert (s + [u])[..|s|] == s;
    assert (s + [u])[|s|] == u;
    s + [u]
  }

  /** Adds each user of `us` in turn. */
  function AddAll(s: seq<User>, us: seq<User>): seq<User>
    decreases |us|
  {
    if |us| == 0 then s else AddAll(Add(s, us[0]), us[1..])
  }

  /**
   * Nothing is filtered: adding a list of users to a store gives the
   * store followed by that list, in order, so the count grows by the
   * number of users added.
   */
  lemma {:induction false} AddAllAppends(s: seq<User>, us: seq<User>)
    ensures AddAll(s, us) == s + us
    ensures Count(AddAll(s, us)) == Count(s) + |us|
    decreases |us|
  {
    if |us| > 0 {
      AddAllAppends(Add(s, us[0]), us[1..]);
      assert Add(s, us[0]) == s + [us[0]];
      assert s + [us[0]] + us[1..] == s + us;
      assert AddAll(s, us) == s + us;
    }
  }

  /**
   * Adding a user whose id is already stored still raises the count, and
   * the ids are then no longer distinct.
   */
  lemma AddDuplicateKeepsBoth(s: seq<User>, u: User)
    requires Exists(s, u.userId)
    ensures Count(Add(s, u)) == Count(s) + 1
    ensures !DistinctIds(Add(s, u))
  {
    var k :| 0 <= k < |s| && s[k].userId == u.userId;
    var r := Add(s, u);
    assert r[k] == s[k];
    assert r[k].userId == r[|s|].userId;
  }

  /**
   * With duplicate ids, `Fetch` returns the earlier of two users, not the
   * later one: the id is the only key and the first match wins.
   */
  lemma FetchFirstAmongDuplicates(first: User, second: User)
    requires first.userId == second.userId
    ensures Fetch(Add(Add(Empty(), first), second), first.userId) == Some(first)
    ensures Count(Add(Add(Empty(), first), second)) == 2
  {
    var s := Add(Add(Empty(), first), second);
    assert s == [first, second];
    assert IsFirstWithId(s, first.userId, 0);
  }

  /** Removing from a store with duplicates takes out only the first equal user. */
  lemma RemoveOneOfDuplicates(u: User)
    ensures Remove(Add(Add(Empty(), u), u), u) == [u]
    ensures Exists(Remove(Add(Add(Empty(), u), u), u), u.userId)
  {
    var s := Add(Add(Empty(), u), u);
    assert s == [u, u];
    assert FirstIndexOf(s, u) == 0;
    assert s[1..] == [u];
  }
}
