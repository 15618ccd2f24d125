/**
 * The persisting user store, the one the application builds at launch.
 *
 * The store is an ordered list of users kept unique by id: `Add` appends a
 * user only when no stored user has the same id. `Persist` writes the whole
 * list to one slot of the device's key-value settings, and `LoadUsers`
 * replaces the list with what that slot holds. The constructor loads.
 *
 * The settings are a map from keys to stored text. The JSON text itself is
 * abstracted: a non-empty stored text is described by what it decodes to,
 * either `null` or an array of users.
 */
module PersistentUserStore {
  import opened UserList
  import InMemoryUserStore

  /** The one settings key the store reads and writes. */
  const PersistentStoreKey: string := "UserStoreKey"

  /** What a settings slot can hold, as seen by `LoadUsers`. */
  datatype StoredText =
    | EmptyText                            // the empty string
    | JsonText(decoded: Option<seq<User>>) // JSON that decodes to null or to an array of users

  /** The device's key-value settings. */
  type Defaults = map<string, StoredText>

  /** Appends `u` at the end unless a stored user already has its id. */
  function Add(s: seq<User>, u: User): (r: seq<User>)
    ensures !HasId(s, u.userId) ==> |r| == |s| + 1 && r[..|s|] == s && r[|s|] == u
    ensures HasId(s, u.userId) ==> r == s
    ensures HasId(r, u.userId)
  {
    if !Exists(s, u.userId) then
      assert (s + [u])[|s|] == u;
      s + [u]
    else s
  }

  /**
   * Writes the whole list into the store's slot. The in-memory list is not
   * an output: it is left as it was. Every other key keeps its value.
   */
  function Persist(s: seq<User>, d: Defaults): (d': Defaults)
    ensures PersistentStoreKey in d' && d'[PersistentStoreKey] == JsonText(Some(s))
    ensures d'.Keys == d.Keys + {PersistentStoreKey}
    ensures forall k :: k in d && k != PersistentStoreKey ==> d'[k] == d[k]
  {
    d[PersistentStoreKey := JsonText(Some(s))]
  }

  /** The users the store's slot holds, if it holds a non-null array of them. */
  ghost function StoredUsers(d: Defaults): Option<seq<User>> {
    if PersistentStoreKey in d && d[PersistentStoreKey].JsonText? then d[PersistentStoreKey].decoded
    else None
  }

  /**
   * Reads the list back from the store's slot, discarding whatever was in
   * memory (so the prior list is not an input). The result is empty when
   * the slot is missing, holds the empty string, decodes to null or decodes
   * to an empty array; otherwise it is exactly the stored array.
   */
  function LoadUsers(d: Defaults): (r: seq<User>)
    ensures StoredUsers(d).None? ==> r == []
    ensures StoredUsers(d).Some? ==> r == StoredUsers(d).value
  {
    var text := if PersistentStoreKey in d then d[PersistentStoreKey] else EmptyText;
    if text != EmptyText then
      var users := text.decoded;
      if users.Some? then
        if |users.value| > 0 then users.value else []
      else []
    else []
  }

  /**
   * A new store: the constructor loads from the settings, so it starts
   * empty when the slot is missing, holds the empty string or decodes to
   * null, and otherwise holds exactly the stored users.
   */
  function New(d: Defaults): (s: seq<User>)
    ensures StoredUsers(d).None? ==> s == []
    ensures StoredUsers(d).Some? ==> s == StoredUsers(d).value
  {
    LoadUsers(d)
  }

  /** Deletes the store's slot from the settings, as the persistence test does first. */
  function RemoveObject(d: Defaults): (d': Defaults)
    ensures PersistentStoreKey !in d'
    ensures d'.Keys == d.Keys - {PersistentStoreKey}
    ensures forall k :: k in d' ==> d'[k] == d[k]
  {
    d - {PersistentStoreKey}
  }

  /** Adding a user whose id is new appends it and raises the count by one. */
  lemma AddFresh(s: seq<User>, u: User)
    requires !Exists(s, u.userId)
    ensures Add(s, u) == s + [u]
    ensures Count(Add(s, u)) == Count(s) + 1
    ensures Fetch(Add(s, u), u.userId) == Some(u)
  {
    assert Add(s, u)[|s|] == u;
    assert Add(s, u) == s + [u];
    assert IsFirstWithId(s + [u], u.userId, |s|);
  }

  /** Adding a user whose id is already stored changes nothing. */
  lemma AddDuplicateIsNoOp(s: seq<User>, u: User)
    requires Exists(s, u.userId)
    ensures Add(s, u) == s
    ensures Count(Add(s, u)) == Count(s)
  {
  }

  /** `Add` keeps the ids of the list pairwise distinct. */
  lemma AddPreservesDistinctIds(s: seq<User>, u: User)
    requires DistinctIds(s)
    ensures DistinctIds(Add(s, u))
    ensures Ids(Add(s, u)) == Ids(s) + {u.userId}
  {
    var r := Add(s, u);
    if !Exists(s, u.userId) {
      assert r == s + [u];
      forall i, j | 0 <= i < j < |r|
        ensures r[i].userId != r[j].userId
      {
        if j == |s| {
          assert r[i] == s[i];
        }
      }
      assert Ids(r) == Ids(s) + {u.userId} by {
        assert r[|s|] == u;
        forall id | id in Ids(r)
          ensures id in Ids(s) + {u.userId}
        {
          var i :| 0 <= i < |r| && r[i].userId == id;
          if i < |s| {
            assert s[i] == r[i];
          }
        }
      }
    }
  }

  /**
   * The two stores differ only in the id check: this `Add` is the
   * in-memory store's unconditional append, guarded by `Exists`. The two
   * agree exactly when the id is new.
   */
  lemma AddIsGuardedAppend(s: seq<User>, u: User)
    ensures Add(s, u) == if Exists(s, u.userId) then s else InMemoryUserStore.Add(s, u)
    ensures Add(s, u) == InMemoryUserStore.Add(s, u) <==> !Exists(s, u.userId)
  {
    if !Exists(s, u.userId) {
      assert Add(s, u) == s + [u];
    }
  }

  /** Adds each user of `us` in turn, as repeated calls of `Add` do. */
  function AddAll(s: seq<User>, us: seq<User>): seq<User>
    decreases |us|
  {
    if |us| == 0 then s else AddAll(Add(s, us[0]), us[1..])
  }

  /**
   * Whatever users are added, the ids stay distinct and the ids present
   * are the earlier ones together with every added id.
   */
  lemma {:induction false} AddAllDistinct(s: seq<User>, us: seq<User>)
    requires DistinctIds(s)
    ensures DistinctIds(AddAll(s, us))
    ensures Ids(AddAll(s, us)) == Ids(s) + Ids(us)
    decreases |us|
  {
    if |us| == 0 {
      assert Ids(us) == {};
    } else {
      var s1 := Add(s, us[0]);
      AddPreservesDistinctIds(s, us[0]);
      AddAllDistinct(s1, us[1..]);
      IdsCons(us);
      var r := AddAll(s1, us[1..]);
      assert AddAll(s, us) == r;
      assert Ids(r) == Ids(s) + Ids(us);
    }
  }

  /** After any sequence of adds, the count is the number of distinct ids seen. */
  lemma AddAllCount(s: seq<User>, us: seq<User>)
    requires DistinctIds(s)
    ensures Count(AddAll(s, us)) == |Ids(s) + Ids(us)|
  {
    AddAllDistinct(s, us);
  }

  /** Persisting and then loading gives back exactly the persisted list. */
  lemma PersistLoadRoundTrip(s: seq<User>, d: Defaults)
    ensures LoadUsers(Persist(s, d)) == s
    ensures New(Persist(s, d)) == s
  {
  }

  /** Persisting changes only the settings: the in-memory list stays as it was. */
  lemma PersistKeepsMemory(st: State)
    ensures Step(st, PersistOp).storage == st.storage
    ensures Step(st, PersistOp).defaults == Persist(st.storage, st.defaults)
  {
  }

  /**
   * Loading depends only on the settings: two stores with different lists
   * in memory end up with the same list after loading.
   */
  lemma LoadDiscardsMemory(st1: State, st2: State)
    requires st1.defaults == st2.defaults
    ensures Step(st1, LoadOp) == Step(st2, LoadOp)
    ensures Step(st1, LoadOp).storage == LoadUsers(st1.defaults)
  {
  }

  /** A store built from settings without the store's slot is empty. */
  lemma NewWithoutSlotIsEmpty(d: Defaults)
    ensures Count(New(RemoveObject(d))) == 0
  {
  }

  /**
   * The persistence test: after deleting the slot, a new store gets one
   * user added and persisted; a second new store then has count one and
   * fetches a user equal to the one added, field by field.
   */
  lemma PersistenceScenario(d: Defaults, u: User)
    ensures var d1 := RemoveObject(d);
            var first := Add(New(d1), u);
            var second := New(Persist(first, d1));
            Count(second) == 1 && Fetch(second, u.userId) == Some(u)
  {
    var d1 := RemoveObject(d);
    assert New(d1) == [];
    AddFresh([], u);
  }

  /** One call on the store, or the settings change the persistence test makes. */
  datatype Op =
    | AddOp(user: User)
    | RemoveOp(user: User)
    | PersistOp
    | LoadOp
    | RemoveObjectOp

  /** A running store: its in-memory list and the settings it persists to. */
  datatype State = State(storage: seq<User>, defaults: Defaults)

  /**
   * One operation on a running store. Adds, removes and loads change only
   * the in-memory list; persisting and deleting the slot change only the
   * settings, and there only the store's own key. After persisting, the
   * slot reads back as the list in memory.
   */
  function Step(st: State, op: Op): (r: State)
    ensures op.AddOp? || op.RemoveOp? || op.LoadOp? ==> r.defaults == st.defaults
    ensures op.PersistOp? || op.RemoveObjectOp? ==> r.storage == st.storage
    ensures forall k :: k != PersistentStoreKey ==> (k in r.defaults <==> k in st.defaults)
    ensures forall k :: k in r.defaults && k != PersistentStoreKey ==> r.defaults[k] == st.defaults[k]
    ensures op.AddOp? ==> Exists(r.storage, op.user.userId)
    ensures op.PersistOp? ==> LoadUsers(r.defaults) == st.storage
  {
    match op
    case AddOp(u) => st.(storage := Add(st.storage, u))
    case RemoveOp(u) => st.(storage := Remove(st.storage, u))
    case PersistOp => st.(defaults := Persist(st.storage, st.defaults))
    case LoadOp => st.(storage := LoadUsers(st.defaults))
    case RemoveObjectOp => st.(defaults := RemoveObject(st.defaults))
  }

  function Run(st: State, ops: seq<Op>): State
    decreases |ops|
  {
    if |ops| == 0 then st else Run(Step(st, ops[0]), ops[1..])
  }

  /** The store's slot, if it holds users, holds them with distinct ids. */
  ghost predicate SlotDistinct(d: Defaults) {
    StoredUsers(d).Some? ==> DistinctIds(StoredUsers(d).value)
  }

  /** The uniqueness invariant, over memory and the persisted slot together. */
  ghost predicate Invariant(st: State) {
    DistinctIds(st.storage) && SlotDistinct(st.defaults)
  }

  /** Each operation keeps the uniqueness invariant. */
  lemma StepPreservesInvariant(st: State, op: Op)
    requires Invariant(st)
    ensures Invariant(Step(st, op))
  {
    match op
    case AddOp(u) => AddPreservesDistinctIds(st.storage, u);
    case RemoveOp(u) => RemovePreservesDistinctIds(st.storage, u);
    case PersistOp =>
    case LoadOp =>
    case RemoveObjectOp =>
  }

  /**
   * Starting from a new store over settings whose slot holds distinct ids
   * (or nothing), every sequence of operations keeps ids distinct in
   * memory and in the slot.
   */
  lemma {:induction false} RunPreservesInvariant(d: Defaults, ops: seq<Op>)
    requires SlotDistinct(d)
    ensures Invariant(Run(State(New(d), d), ops))
  {
    RunFrom(State(New(d), d), ops);
  }

  lemma {:induction false} RunFrom(st: State, ops: seq<Op>)
    requires Invariant(st)
    ensures Invariant(Run(st, ops))
    decreases |ops|
  {
    if |ops| > 0 {
      StepPreservesInvariant(st, ops[0]);
      RunFrom(Step(st, ops[0]), ops[1..]);
    }
  }
}
