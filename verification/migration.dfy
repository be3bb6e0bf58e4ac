/**
 Creation and load-time repair of the stored document (`_ensure_database`):
 a missing store is created with the defaults; an existing one has each
 missing key backfilled and the legacy `allow_unregister` key renamed to
 `unregister_allowed`. `max_slots` is the one key that is never backfilled.
 */
module Migration {
  import opened Schema

  const DefaultMaxSlots: int := 50

  /** The document written when no store exists. */
  function InitialDoc(): Doc {
    Doc(DefaultMaxSlots, Number(0), EmptyEvent, true, map[], [])
  }

  /** A typed document as stored: every key present, no legacy key. */
  function ToRaw(d: Doc): (raw: RawDoc)
    ensures raw.allowUnregister.None?
  {
    RawDoc(Some(d.maxSlots), Some(d.price), Some(d.eventInfo), Some(d.unregisterAllowed),
           None, Some(d.registeredUsers), Some(d.blacklist))
  }

  /** The five keys the migration backfills are all present. */
  predicate Backfilled(raw: RawDoc) {
    && raw.price.Some?
    && raw.eventInfo.Some?
    && raw.unregisterAllowed.Some?
    && raw.registeredUsers.Some?
    && raw.blacklist.Some?
  }

  /** The typed view the operations work on: defined only when every key,
      `max_slots` included, is present in the stored document. */
  function ToDoc(raw: RawDoc): (d: Option<Doc>)
    ensures d.Some? <==> raw.maxSlots.Some? && Backfilled(raw)
  {
    if raw.maxSlots.Some? && Backfilled(raw) then
      Some(Doc(raw.maxSlots.value, raw.price.value, raw.eventInfo.value,
               raw.unregisterAllowed.value, raw.registeredUsers.value, raw.blacklist.value))
    else
      None
  }

  /** The repair pass over an existing store: the repaired document and the
      `changed` flag that decides whether it is written back. */
  function Migrate(raw: RawDoc): (r: (RawDoc, bool))
    // max_slots is carried over, never invented
    ensures r.0.maxSlots == raw.maxSlots
    ensures Backfilled(r.0)
    // keys already present keep their values
    ensures raw.price.Some? ==> r.0.price == raw.price
    ensures raw.eventInfo.Some? ==> r.0.eventInfo == raw.eventInfo
    ensures raw.registeredUsers.Some? ==> r.0.registeredUsers == raw.registeredUsers
    ensures raw.blacklist.Some? ==> r.0.blacklist == raw.blacklist
    ensures raw.unregisterAllowed.Some? ==>
              r.0.unregisterAllowed == raw.unregisterAllowed && r.0.allowUnregister == raw.allowUnregister
    // missing keys get their defaults
    ensures raw.price.None? ==> r.0.price == Some(Number(0))
    ensures raw.eventInfo.None? ==> r.0.eventInfo == Some(EmptyEvent)
    ensures raw.registeredUsers.None? ==> r.0.registeredUsers == Some(map[])
    ensures raw.blacklist.None? ==> r.0.blacklist == Some([])
    // the legacy flag moves over with its value, or the flag defaults to true
    ensures raw.unregisterAllowed.None? && raw.allowUnregister.Some? ==>
              r.0.unregisterAllowed == raw.allowUnregister && r.0.allowUnregister.None?
    ensures raw.unregisterAllowed.None? && raw.allowUnregister.None? ==>
              r.0.unregisterAllowed == Some(true) && r.0.allowUnregister.None?
    // something changed exactly when a key was added or renamed
    ensures r.1 <==> !Backfilled(raw)
    ensures !r.1 ==> r.0 == raw
  {
    var price := if raw.price.None? then Some(Number(0)) else raw.price;
    var event := if raw.eventInfo.None? then Some(EmptyEvent) else raw.eventInfo;
    var renamed := raw.allowUnregister.Some? && raw.unregisterAllowed.None?;
    var flag := if renamed then raw.allowUnregister else raw.unregisterAllowed;
    var legacy := if renamed then None else raw.allowUnregister;
    var flag' := if flag.None? then Some(true) else flag;
    var users := if raw.registeredUsers.None? then Some(map[]) else raw.registeredUsers;
    var banned := if raw.blacklist.None? then Some([]) else raw.blacklist;
    var changed :=
      raw.price.None? || raw.eventInfo.None? || renamed || flag.None?
      || raw.registeredUsers.None? || raw.blacklist.None?;
    (RawDoc(raw.maxSlots, price, event, flag', legacy, users, banned), changed)
  }

  /** The store after `_ensure_database`, given what was on disk (`None` when
      the file does not exist). */
  function EnsureDatabase(stored: Option<RawDoc>): (raw: RawDoc)
    ensures Backfilled(raw)
    ensures stored.None? ==> ToDoc(raw) == Some(InitialDoc())
    ensures stored.Some? ==> raw.maxSlots == stored.value.maxSlots
    ensures stored.Some? ==> raw == Migrate(stored.value).0
  {
    match stored
    case None => ToRaw(InitialDoc())
    case Some(onDisk) =>
      var (migrated, changed) := Migrate(onDisk);
      if changed then migrated else onDisk
  }

  /** A fresh store holds exactly the documented defaults. */
  lemma FreshStoreDefaults()
    ensures ToDoc(EnsureDatabase(None)).Some?
    ensures var d := ToDoc(EnsureDatabase(None)).value;
      && d.maxSlots == 50
      && d.price == Number(0)
      && d.eventInfo == EventInfo("", "", "")
      && d.unregisterAllowed
      && d.registeredUsers == map[]
      && d.blacklist == []
  {
  }

  /** Repairing an already repaired document changes nothing and reports no change. */
  lemma MigrateIdempotent(raw: RawDoc)
    ensures Migrate(Migrate(raw).0) == (Migrate(raw).0, false)
  {
  }

  /** Running the start-up step on its own output leaves the store as it is. */
  lemma EnsureDatabaseIdempotent(stored: Option<RawDoc>)
    ensures EnsureDatabase(Some(EnsureDatabase(stored))) == EnsureDatabase(stored)
  {
    var raw := EnsureDatabase(stored);
    assert Backfilled(raw);
    assert !Migrate(raw).1;
  }

  /** After start-up the operations can read the store exactly when `max_slots`
      was there to begin with (or the store was absent). */
  lemma EnsureDatabaseReadable(stored: Option<RawDoc>)
    ensures ToDoc(EnsureDatabase(stored)).Some? <==> (stored.None? || stored.value.maxSlots.Some?)
  {
  }

  /** Storing a typed document and reading it back gives it unchanged. */
  lemma ToDocToRaw(d: Doc)
    ensures ToDoc(ToRaw(d)) == Some(d)
  {
  }

  /** Reading a stored document loses only a lingering legacy key. */
  lemma ToRawToDoc(raw: RawDoc)
    requires ToDoc(raw).Some?
    ensures ToRaw(ToDoc(raw).value) == raw.(allowUnregister := None)
  {
  }
}
