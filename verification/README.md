# CharterUser user store and colour parser in Dafny

This project models the core logic of the CharterUser app. The app is a small
mobile application that creates and lists user accounts and keeps them on the
device. Three pieces are modelled:

- **The persisting user store** (`iOS/Model/UserStore.cs`). It is an ordered
  list of `User` records kept unique by `UserId`. `Add` appends only when the
  id is absent. `Fetch` and `Exists` are linear scans by id. `Remove` takes
  out the first equal user. `Persist` writes the whole list into one slot of
  the device's key-value settings, under the key `"UserStoreKey"`.
  `LoadUsers` replaces the list with whatever that slot holds, and the
  constructor calls it. Module `PersistentUserStore`.
- **The earlier in-memory user store** (`Common/Model/UserStore.cs`). It
  starts empty and has no persistence. Its `Add` appends unconditionally, so
  duplicate ids can coexist. Module `InMemoryUserStore`.
- **The hex colour parser** `ColorFromHexString` (`StringExtensions.cs`). It
  strips every `#`, reads three two-digit base-16 channels, and clamps alpha
  into [0, 1]. Module `HexColor`.

Both stores run the same code for `Fetch`, `Exists`, `Count` and `Remove`: a
LINQ `FirstOrDefault`, a LINQ `Any`, the list length and the collection's
own `Remove`. That shared part is defined once, in module `UserList`, which
also holds the `User` record.

How things are represented:

- A store is a `seq<User>`, and `Option` stands for the `null` that `Fetch`
  can return.
- The device settings are a `map<string, StoredText>`.
  - The JSON encoding is abstracted away: a stored text is either the empty
    string or JSON that decodes to `null` or to an array of users.
  - `PersistentUserStore.Run` drives a store through any sequence of adds,
    removes, persists, loads and slot deletions.
- Colour channels are the integers 0..255 that each digit pair denotes.
  Alpha is a `real`.

`LoadUsers` does not enforce unique ids on what it reads. The uniqueness
invariant (`PersistentUserStore.RunPreservesInvariant`) therefore assumes
that the slot starts out empty or holding distinct ids. That holds whenever
only this store has ever written the slot.
It also assumes that the exposed `Storage` collection is changed only
through the store's own methods (see "## Left out").

## Model

| member | source | states |
|---|---|---|
| UserList.Exists | CharterUser/CharterUser/iOS/Model/UserStore.cs:37-40 | true exactly when some stored user has the id, i.e. the id is among the stored ids |
| UserList.Fetch | CharterUser/CharterUser/iOS/Model/UserStore.cs:32-35 | none exactly when no stored user has the id; otherwise the user at the first position holding that id |
| UserList.FetchIffExists | CharterUser/CharterUser/Common/Model/IUserStore.cs:31-43 | `Fetch` finds a user iff `Exists` is true, and a fetched user has the searched id and is in the store |
| UserList.FetchUnique | CharterUser/CharterUser/Common/Model/IUserStore.cs:31-36 | with distinct ids, fetching the id of a stored user returns exactly that user |
| UserList.Remove | CharterUser/CharterUser/iOS/Model/UserStore.cs:27-30 | an absent user leaves the list unchanged; otherwise exactly the first equal element is cut out and the rest keep their order |
| UserList.RemoveMultiset | CharterUser/CharterUser/Common/Model/UserStore.cs:25-28 | the result is the input with one occurrence of the user taken away (multiset difference), so at most one element goes |
| UserList.RemovePreservesDistinctIds | CharterUser/CharterUser/Common/Model/IUserStore.cs:25-29 | removal keeps ids distinct; a removed user's id is afterwards absent; the count drops by one exactly when the user was present |
| UserList.Count | CharterUser/CharterUser/iOS/Model/UserStore.cs:42 | the count is never below the number of distinct stored ids, and equals it when ids are distinct |
| UserList.IdsCardinality | CharterUser/CharterUser/Common/Model/UserStore.cs:40 | a list has at most as many distinct ids as users, with equality exactly when no id repeats |
| UserList.DistinctIdsCount | CharterUser/CharterUser/Common/Model/IUserStore.cs:14-17 | a list with distinct ids has as many users as distinct ids |
| PersistentUserStore.Add | CharterUser/CharterUser/iOS/Model/UserStore.cs:21-25 | a new id is appended at the end with the earlier users unchanged; a known id leaves the list as it was; afterwards the id is present |
| PersistentUserStore.AddFresh | CharterUser/CharterUser/iOS/Model/UserStore.cs:21-25 | adding a new id raises the count by exactly one, and fetching that id returns the added user |
| PersistentUserStore.AddDuplicateIsNoOp | CharterUser/CharterUser/Common/Model/IUserStore.cs:19-23 | adding a user whose id already exists changes neither the list nor the count |
| PersistentUserStore.AddPreservesDistinctIds | CharterUser/CharterUser/iOS/Model/UserStore.cs:21-25 | from distinct ids, `Add` keeps ids distinct and the id set grows by exactly the added id |
| PersistentUserStore.AddIsGuardedAppend | CharterUser/CharterUser/iOS/Model/UserStore.cs:21-25 | this `Add` is the in-memory store's append guarded by `Exists`, and the two agree iff the id is new |
| PersistentUserStore.AddAllDistinct | CharterUser/CharterUser/iOS/Model/UserStore.cs:21-25 | after any sequence of adds, ids are distinct and the ids present are the earlier ones plus every added id |
| PersistentUserStore.AddAllCount | CharterUser/CharterUser/iOS/Model/UserStore.cs:21-25 | after any sequence of adds, the count equals the number of distinct ids seen |
| PersistentUserStore.Persist | CharterUser/CharterUser/iOS/Model/UserStore.cs:44-48 | the store's key then holds the whole list, and every other key keeps its value |
| PersistentUserStore.PersistKeepsMemory | CharterUser/CharterUser/iOS/Model/UserStore.cs:44-48 | a persist step leaves the in-memory list unchanged and only rewrites the settings |
| PersistentUserStore.LoadUsers | CharterUser/CharterUser/iOS/Model/UserStore.cs:50-67 | empty when the slot is missing, empty text or null; otherwise exactly the stored array (an empty array giving the empty list) |
| PersistentUserStore.LoadDiscardsMemory | CharterUser/CharterUser/Common/Model/IUserStore.cs:50-54 | after loading, two stores with the same settings hold the same list whatever they held before |
| PersistentUserStore.New | CharterUser/CharterUser/iOS/Model/UserStore.cs:16-19 | a new store is empty when the slot is missing, holds the empty string or decodes to null; otherwise it holds exactly the stored users |
| PersistentUserStore.RemoveObject | CharterUser/CharterUserTest/MyTest.cs:18 | the store's key is gone and every other key keeps its value |
| PersistentUserStore.PersistLoadRoundTrip | CharterUser/CharterUser/iOS/Model/UserStore.cs:44-67 | loading (or constructing) right after persisting a list gives back exactly that list |
| PersistentUserStore.NewWithoutSlotIsEmpty | CharterUser/CharterUserTest/MyTest.cs:18-20 | a store constructed after the slot was deleted has count zero |
| PersistentUserStore.PersistenceScenario | CharterUser/CharterUserTest/MyTest.cs:16-46 | delete slot, add one user, persist, construct anew: count is one and fetching the id returns a user equal in every field |
| PersistentUserStore.Step | CharterUser/CharterUser/iOS/Model/UserStore.cs:21-67 | add, remove and load change only the in-memory list; persist and slot deletion change only the store's key of the settings; after an add the id exists; after a persist the slot reads back as the list |
| PersistentUserStore.StepPreservesInvariant | CharterUser/CharterUser/iOS/Model/UserStore.cs:21-67 | each add, remove, persist, load or slot deletion keeps ids distinct in memory and in the slot |
| PersistentUserStore.RunPreservesInvariant | CharterUser/CharterUser/iOS/Model/UserStore.cs:16-67 | starting from a new store over a slot with distinct ids, every sequence of operations keeps ids distinct |
| InMemoryUserStore.Empty | CharterUser/CharterUser/Common/Model/UserStore.cs:18 | a new store has count zero and no id exists in it |
| InMemoryUserStore.Add | CharterUser/CharterUser/Common/Model/UserStore.cs:20-23 | the user is appended at the end whatever ids exist, earlier users unchanged, count up by one |
| InMemoryUserStore.AddAllAppends | CharterUser/CharterUser/Common/Model/UserStore.cs:20-23 | any sequence of adds yields the store followed by the added users in order; count grows by their number |
| InMemoryUserStore.AddDuplicateKeepsBoth | CharterUser/CharterUser/Common/Model/UserStore.cs:20-23 | adding a known id still raises the count, and ids are then no longer distinct |
| InMemoryUserStore.FetchFirstAmongDuplicates | CharterUser/CharterUser/Common/Model/UserStore.cs:30-33 | with two users sharing an id, `Fetch` returns the earlier one |
| InMemoryUserStore.RemoveOneOfDuplicates | CharterUser/CharterUser/Common/Model/UserStore.cs:25-28 | removing a user stored twice takes out only one copy, so the id still exists |
| HexColor.StripHash | CharterUser/CharterUser/Common/Extensions/StringExtensions.cs:10 | no `#` remains and the string does not grow |
| HexColor.StripHashConcat | CharterUser/CharterUser/Common/Extensions/StringExtensions.cs:10 | stripping distributes over concatenation, so every `#` is removed wherever it stands |
| HexColor.StripHashKeeps | CharterUser/CharterUser/Common/Extensions/StringExtensions.cs:10 | a string without `#` is unchanged, so stripping is idempotent |
| HexColor.HexDigitValue | CharterUser/CharterUser/Common/Extensions/StringExtensions.cs:20-22 | a base-16 digit has a value below 16 |
| HexColor.HexDigitValueOfChar | CharterUser/CharterUser/Common/Extensions/StringExtensions.cs:20-22 | reading back the digit written for a value below 16 gives the value |
| HexColor.HexDigitCharOfValue | CharterUser/CharterUser/Common/Extensions/StringExtensions.cs:20-22 | writing the value of a base-16 digit gives the digit back in upper case |
| HexColor.ParseHexByte | CharterUser/CharterUser/Common/Extensions/StringExtensions.cs:20-22 | a two-digit base-16 string has a value in [0, 255] |
| HexColor.ParseFormatHexByte | CharterUser/CharterUser/Common/Extensions/StringExtensions.cs:20-22 | parsing the two digits written for a byte gives the byte back |
| HexColor.FormatParseHexByte | CharterUser/CharterUser/Common/Extensions/StringExtensions.cs:20-22 | formatting the value of two base-16 digits gives those digits back in upper case |
| HexColor.IsColorHex | CharterUser/CharterUser/Common/Extensions/StringExtensions.cs:20-22 | an accepted string has at least six characters; for a string without `#`, accepted exactly when its first six characters are base-16 digits |
| HexColor.ClampAlpha | CharterUser/CharterUser/Common/Extensions/StringExtensions.cs:11-18 | the result is in [0, 1]: above 1 becomes 1, below 0 becomes 0, in-range values are unchanged |
| HexColor.ColorFromHexString | CharterUser/CharterUser/Common/Extensions/StringExtensions.cs:8-22 | each channel lies in [0, 255] and alpha is the clamped alpha |
| HexColor.ChannelsAreLeadingPairs | CharterUser/CharterUser/Common/Extensions/StringExtensions.cs:20-22 | red, green and blue are the values of stripped characters [0,2), [2,4) and [4,6) |
| HexColor.SameStrippedSameColor | CharterUser/CharterUser/Common/Extensions/StringExtensions.cs:10-22 | the colour depends only on the stripped string |
| HexColor.IgnoresHashAnywhere | CharterUser/CharterUser/Common/Extensions/StringExtensions.cs:10 | inserting a `#` anywhere in an accepted string gives the same colour |
| HexColor.IgnoresTrailing | CharterUser/CharterUser/Common/Extensions/StringExtensions.cs:20-22 | characters after the sixth stripped one do not change the colour |
| HexColor.FormatParseRoundTrip | CharterUser/CharterUser/Common/Extensions/StringExtensions.cs:8-22 | parsing `#RRGGBB` written from three bytes gives back those bytes and the clamped alpha |
| HexColor.SaveButtonColor | CharterUser/CharterUser/iOS/UI/CreateUserViewController.cs:36 | `"#007AFF"` with the default alpha is (0, 122, 255, 1) |
| HexColor.AdminLabelColor | CharterUser/CharterUser/iOS/UI/UserTableViewCell.cs:107 | `"#E42346"` with the default alpha is (228, 35, 70, 1) |
| HexColor.SeparatorColor | CharterUser/CharterUser/iOS/UI/UserTableViewCell.cs:93 | `"#C8C8C8"` with the default alpha is (200, 200, 200, 1) |

## Left out

- Password and form validation: `CreateUserViewModel.Save` is an empty stub, and the password rules the test calls for have no source. There is nothing to model them against.
- JSON serialisation and `NSUserDefaults`: these are foreign library calls. They are abstracted as a map from keys to decoded stored text.
- PersistentUserStore.Persist: the stored JSON text is represented by the list it decodes to. So serialising a user list and then deserialising it is assumed to give back the same list, with all five fields of every user. `PersistentUserStore.PersistLoadRoundTrip` and `PersistentUserStore.PersistenceScenario` rest on this assumption. A field the serialiser drops or changes would break them.
- Malformed stored text: `LoadUsers` does not catch a deserialisation failure (`iOS/Model/UserStore.cs:57`), so undecodable text throws instead of giving an empty list. The model has no such input.
- Concurrency: `Persist` serialises and writes synchronously on the caller's thread (`iOS/Model/UserStore.cs:44-48`), with no background work or lock, and the model writes in one step too. The table lock of the list view is UI code.
- Collection-change events and table updates: `Add` and `Remove` raise insert and remove notifications on `Storage`, which the list view observes. The model keeps only the resulting list.
- PersistentUserStore.LoadUsers: loading raises no event. It assigns a new collection object to `Storage` (`iOS/Model/UserStore.cs:52`, `:64`), so an observer attached to the old `Storage` (as `UI/MainViewController.cs:34` attaches one) is silently cut off from later changes. The model has no observers and does not show this.
- User equality: the `User` class is not part of this model. `Remove` compares users by structural equality of all five fields. If the class uses reference equality, a structurally equal copy would not be removed.
- Null values: a null user, a null id and a null `Storage` are not representable. The two stores treat a null user differently:
  - the persisting store's `Add` reads `user.UserId` first, so adding null throws a `NullReferenceException` (`iOS/Model/UserStore.cs:23`);
  - the in-memory store's `Add` stores the null (`Common/Model/UserStore.cs:22`), and later `Fetch` and `Exists` throw a `NullReferenceException` once their scan reaches it (`Common/Model/UserStore.cs:32`, `:37`).
- The application singleton, the `AppDelegate` lifecycle hooks, the view models, the Rx extensions and the auto-layout helpers: these are wiring and UI. They carry no store logic.
- The in-memory store's own `IUserStore` declaration: `Common/Model/UserStore.cs:6-14` redeclares a reduced `IUserStore`, without `Persist` or `LoadUsers` and without doc comments. The store's behaviour is modelled, but the declaration is not.
- PersistentUserStore.RunPreservesInvariant: `Storage` is a publicly readable, mutable collection (`Common/Model/IUserStore.cs:12`, `iOS/Model/UserStore.cs:14`), so a caller could add a duplicate to it directly and bypass the `Exists` check in `Add`. The invariant assumes that `Storage` changes only through `Add`, `Remove` and `LoadUsers`. No caller in the app writes to `Storage` directly: the list view only subscribes to it and reads from it.
- The test's key name: the test deletes `UserStore.PersistentStoreKey`, but the store's key field is private and named differently. The model treats both as the one key `"UserStoreKey"`.
- HexColor.ColorFromHexString: the source throws when fewer than six characters remain after stripping, or when a pair is not base-16. The model states this as a precondition, so it covers only inputs whose first six stripped characters are base-16 digits. Inputs that .NET's base-16 conversion might treat specially (a sign, a `0x` prefix) are not modelled.
- HexColor.ColorFromHexString: the division of each channel by 255 as a 32-bit float and the platform colour object are not modelled. The channels are returned as integers.
- HexColor.ClampAlpha: alpha is a `real`, so a NaN alpha, which passes through both comparisons of the source unchanged, is not modelled.
