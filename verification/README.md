# Event-registration bot: the document store

This project is a Dafny model of the data layer of a Telegram bot that takes registrations for one recurring event. The bot is called "kvartyrnyk" (a flat concert). All state lives in one JSON document:
- the capacity `max_slots`;
- a top-level `price`;
- `event_info`, holding place, time and price;
- the `unregister_allowed` toggle;
- `registered_users`, keyed by user id;
- a `blacklist` of ids.

Every public method of the `Database` class loads the whole document. The getters only read it. The setters change it and save it, except that `add_to_blacklist` and `remove_from_blacklist` save only when the list actually changes. The model represents each method as a pure function on the loaded document. A getter returns a value, and a setter returns the new document; `register_user` returns both.

Modules:
- `Schema`: the stored document in two shapes.
  - `RawDoc` is the JSON object as read from disk. Every key may be absent, and the legacy `allow_unregister` key may still be present.
  - `Doc` is the document the operations read, with every key present.
  - The module also defines the frame predicates. `OnlyUsersDiffer` and its siblings say that a step changed at most one top-level entry.
- `Migration`: the start-up step `_ensure_database`.
  - A missing store is created with the defaults.
  - In an existing store, each missing key gets its default and the legacy flag is renamed.
  - `ToDoc` gives the typed view the operations work on. It is defined only when every key is present, `max_slots` included.
- `Registry`: registration with its ordered guard chain, unregistration, bulk clear, the slot getters and `get_all_registered`.
- `Blacklist`: membership test, add and remove. Removal is Python's `list.remove`, which deletes the first occurrence only. `RemoveFirst` models it, and its contract ties it to an independent definition through `FirstIndex`.
- `Settings`: event info (get, set, clear), the top-level price (get, set) and the unregister toggle (get, set).
- `Invariants`: every mutating method as an `Op` step. For any sequence of steps, this module proves four things:
  - capacity never changes;
  - the guest count stays within capacity;
  - the blacklist stays free of duplicates;
  - at every step, an id that becomes registered was not on the blacklist just before that step.

Modelling choices:
- Registered users are keyed by the integer id. The store uses `str(user_id)` as the key, and that conversion is injective.
- The `registered_at` timestamp is an opaque string that the caller passes in.
- The missing-file case is an input to `EnsureDatabase` (`None`), not a filesystem query.

Facts about the code that the model makes explicit:
- `register_user` returns only a boolean. `Registry.RegisterGuard` names the guard that fired, and `RegisterUser` returns the boolean.
- `add_to_blacklist` does not evict a guest who is already registered (`Invariants.BanDoesNotEvict`). The blacklist is checked only when someone registers.
- No method writes `max_slots` after the store is created (`Invariants.RunPreserves`).
- `_ensure_database` backfills every key except `max_slots`. `Migration.EnsureDatabaseReadable` states exactly when the typed view exists after start-up.

## Model

| member | source | states |
|---|---|---|
| Migration.FreshStoreDefaults | kvartyrnyk_bot/database.py:19-28 | With no store on disk, the created document has 50 slots, price 0, an event with three empty strings, unregistration allowed, no guests and an empty blacklist |
| Migration.Migrate | kvartyrnyk_bot/database.py:31-61 | Each missing key except `max_slots` gets its default, and present keys keep their values. A legacy `allow_unregister` value moves to `unregister_allowed` only when that key is absent, and the legacy key is then removed. The changed flag is true iff one of the five backfilled keys was missing (a missing `max_slots` alone reports no change), and with no change the document is returned as it was |
| Migration.EnsureDatabase | kvartyrnyk_bot/database.py:13-61 | After start-up every backfilled key is present. A fresh store reads back as the initial document. An existing store ends up as the migrated document, so values already on disk survive and `max_slots` is whatever was on disk |
| Migration.ToDoc | kvartyrnyk_bot/database.py:63-65 | The typed view of a loaded document exists iff `max_slots` and the five backfilled keys are all present |
| Migration.MigrateIdempotent | kvartyrnyk_bot/database.py:31-61 | Migrating migrated output returns the same document and reports no change |
| Migration.EnsureDatabaseIdempotent | kvartyrnyk_bot/database.py:13-61 | Running start-up on the store it produced leaves the store unchanged |
| Migration.EnsureDatabaseReadable | kvartyrnyk_bot/database.py:31-61 | After start-up the operations can read every key iff the store was absent or already had `max_slots` |
| Migration.ToDocToRaw | kvartyrnyk_bot/database.py:63-69 | Saving a complete document and loading it back gives the same document |
| Migration.ToRawToDoc | kvartyrnyk_bot/database.py:63-69 | Loading a readable store and saving it loses nothing except a lingering legacy `allow_unregister` key |
| Registry.RegisterGuard | kvartyrnyk_bot/database.py:92-99 | Names the first refusal in source order: already registered, else blacklisted, else no free slot. It names none iff the id is new, not blacklisted and a slot is free |
| Registry.RegisterUser | kvartyrnyk_bot/database.py:89-109 | Succeeds iff no guard fires, and on refusal the document is unchanged. On success it adds exactly the id's key, with the given name, username and timestamp. The other guests are kept, the count rises by one, and nothing outside `registered_users` changes |
| Registry.UnregisterUser | kvartyrnyk_bot/database.py:111-114 | Removes only the id's key and keeps the other entries. It is a no-op for an absent id, and nothing outside `registered_users` changes |
| Registry.ClearAllRegistrations | kvartyrnyk_bot/database.py:150-153 | Leaves no guests and every other entry intact |
| Registry.RegisterNeedsFreeSlots | kvartyrnyk_bot/database.py:98-120 | A successful registration requires `has_free_slots` beforehand and lowers the free-slot count by one |
| Registry.HasFreeSlotsIffBelowCapacity | kvartyrnyk_bot/database.py:117-120 | `has_free_slots` holds iff the guest count is below `max_slots` |
| Registry.BlacklistedNeverAdmitted | kvartyrnyk_bot/database.py:95-96 | Registration of a blacklisted id fails and leaves the document unchanged |
| Registry.SecondRegistrationRefused | kvartyrnyk_bot/database.py:92-93 | After a successful registration, registering the same id again fails and changes nothing |
| Registry.UnregisterUndoesRegister | kvartyrnyk_bot/database.py:102-113 | Unregistering right after a successful registration restores the original document |
| Registry.UnregisterFreesOneSlot | kvartyrnyk_bot/database.py:111-119 | Unregistering a present id raises the free-slot count by exactly one |
| Registry.OverfullStoreRefusesAll | kvartyrnyk_bot/database.py:98-120 | With more guests than slots, free slots are negative and every registration fails |
| Registry.CapacityTwoScenario | kvartyrnyk_bot/database.py:89-114 | With two slots, two guests register and a third is refused. After one guest leaves, the third registers |
| Blacklist.FirstIndex | kvartyrnyk_bot/database.py:163-164 | The returned index holds the id, and no earlier position does |
| Blacklist.RemoveFirst | kvartyrnyk_bot/database.py:163-164 | `list.remove` equals the list with the element at the first index cut out, so it is one shorter |
| Blacklist.AddToBlacklist | kvartyrnyk_bot/database.py:155-159 | Afterwards the id is listed. If it was already listed the document is unchanged; otherwise the id is appended. A duplicate-free list stays duplicate-free, and only the blacklist changes |
| Blacklist.RemoveFromBlacklist | kvartyrnyk_bot/database.py:161-165 | It is a no-op when the id is absent. Otherwise the entry at the first index of the id is cut out and the rest keep their order, so exactly one copy leaves the multiset. On a duplicate-free list the id is no longer listed and no duplicate appears. Only the blacklist changes |
| Blacklist.RemoveFirstNoDuplicates | kvartyrnyk_bot/database.py:161-165 | On a duplicate-free list, removal leaves no copy of the id and no duplicate |
| Blacklist.RemoveFirstOfAppended | kvartyrnyk_bot/database.py:155-165 | Removing an id just appended to a list without it gives back the list |
| Blacklist.RemoveUndoesAdd | kvartyrnyk_bot/database.py:155-165 | Adding an id that was not listed and then removing it restores the document |
| Blacklist.AddIdempotent | kvartyrnyk_bot/database.py:155-159 | Adding an id twice equals adding it once |
| Blacklist.RemoveLeavesDuplicateCopy | kvartyrnyk_bot/database.py:163-164 | On a list with a duplicated id, one removal leaves the id listed, so the no-duplicates condition is needed |
| Settings.SetEventInfo | kvartyrnyk_bot/database.py:75-78 | `get_event_info` then returns the given place, time and price, and only `event_info` changes |
| Settings.ClearEventInfo | kvartyrnyk_bot/database.py:80-83 | The event becomes three empty strings, and only `event_info` changes |
| Settings.SetPrice | kvartyrnyk_bot/database.py:123-127 | `get_price` then returns the given value. Only the top-level price changes, so `event_info` and its own price are untouched |
| Settings.SetUnregisterAllowed | kvartyrnyk_bot/database.py:138-144 | `is_unregister_allowed` then returns the given flag, and nothing else changes |
| Settings.ClearIsEmptySet | kvartyrnyk_bot/database.py:75-83 | Clearing the event equals setting it to three empty strings |
| Settings.SetEventInfoLastWins | kvartyrnyk_bot/database.py:75-78 | Two event writes leave only the second, since each write is a full replacement |
| Settings.SettersWriteBackIsIdentity | kvartyrnyk_bot/database.py:72-144 | Writing back the value just read changes nothing, for the event, the price and the toggle |
| Invariants.ApplyPreserves | kvartyrnyk_bot/database.py:89-165 | A single operation never changes `max_slots`. It keeps the guest count within capacity and keeps the blacklist duplicate-free, and every newly registered id was not blacklisted |
| Invariants.RunPreserves | kvartyrnyk_bot/database.py:89-165 | Over any sequence of operations, capacity is unchanged, the within-capacity invariant holds and the blacklist stays duplicate-free |
| Invariants.RunExtend | kvartyrnyk_bot/database.py:89-165 | Running one more operation after a prefix of a sequence is exactly one more load-change-save step |
| Invariants.RunAdmitsNoBanned | kvartyrnyk_bot/database.py:95-96 | At every step of any sequence of operations, an id that becomes registered was not on the blacklist just before that step |
| Invariants.FreshStoreNeverOverfills | kvartyrnyk_bot/database.py:19-99 | Starting from a freshly created store, no sequence of operations holds more than 50 guests |
| Invariants.BanDoesNotEvict | kvartyrnyk_bot/database.py:155-159 | Blacklisting a registered guest keeps them registered |

Simple getters with no contract of their own are defined beside their setters and used in the contracts above. These are `is_user_registered`, `get_all_registered`, `get_max_slots`, `get_current_slots`, `get_free_slots`, `has_free_slots`, `is_in_blacklist`, `get_blacklist`, `get_event_info`, `get_price` and `is_unregister_allowed`.

## Left out

- JSON file I/O (`_load_data`, `_save_data`), `os.makedirs` and `os.path.exists`: the store is an in-memory value, and "file absent" is the `None` input to `Migration.EnsureDatabase`.
- JSON values of unexpected types, such as a string `max_slots` or a non-list `blacklist`: the model gives each key its expected type.
- Top-level keys other than the seven known ones: `_ensure_database` carries them through unchanged, and the model does not represent them.
- Operations on a stored document that lacks `max_slots`: the typed view does not exist for such a store, so the model describes no operation on it. In the code, only `get_max_slots`, `get_free_slots`, `has_free_slots` and the capacity guard of `register_user` would raise `KeyError`. The other methods, and the first two guards of `register_user`, would run normally.
- Settings.SetPrice: `Price` holds an integer or a string, so a fractional or other JSON value passed to `set_price` cannot be represented.
- The `.get(key, default)` fallbacks in `get_event_info`, `is_user_registered`, `get_blacklist`, `is_unregister_allowed` and `get_all_registered`: the operations work on a `Doc` with every key present, and the start-up step makes every key except `max_slots` present.
- Insertion order of `registered_users`, which is display order in listings: guests are a map.
- `datetime.now()`: the timestamp is a parameter.
- Concurrency: the handlers are asynchronous and the store has no locking, so interleaved load-save cycles can lose updates. The model runs one operation at a time.
- The chat handlers, keyboards, QR generation, admin filter and bot wiring: they are transport and presentation around this store. The two-word name check in the registration handler is the caller's concern, and `RegisterUser` accepts any name.
