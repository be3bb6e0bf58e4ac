/**
 Every mutating public operation of the database as one step over the
 document, and the invariants any sequence of such steps keeps: the guest
 count stays within capacity, capacity itself never changes, the blacklist
 stays duplicate-free, and nobody on the blacklist is newly admitted.
 */
module Invariants {
  import opened Schema
  import Migration
  import Registry
  import Blacklist
  import Settings

  datatype Op =
    | Register(id: UserId, name: string, username: Option<string>, at: string)
    | Unregister(id: UserId)
    | ClearRegistrations
    | AddBan(id: UserId)
    | RemoveBan(id: UserId)
    | SetEvent(place: string, time: string, eventPrice: string)
    | ClearEvent
    | SetPrice(price: Price)
    | SetUnregisterAllowed(allowed: bool)

  function Apply(d: Doc, op: Op): Doc {
    match op
    case Register(id, name, username, at) => Registry.RegisterUser(d, id, name, username, at).0
    case Unregister(id) => Registry.UnregisterUser(d, id)
    case ClearRegistrations => Registry.ClearAllRegistrations(d)
    case AddBan(id) => Blacklist.AddToBlacklist(d, id)
    case RemoveBan(id) => Blacklist.RemoveFromBlacklist(d, id)
    case SetEvent(place, time, price) => Settings.SetEventInfo(d, place, time, price)
    case ClearEvent => Settings.ClearEventInfo(d)
    case SetPrice(price) => Settings.SetPrice(d, price)
    case SetUnregisterAllowed(allowed) => Settings.SetUnregisterAllowed(d, allowed)
  }

  /** The document after the operations, one load-mutate-save at a time. */
  function Run(d: Doc, ops: seq<Op>): Doc
    decreases |ops|
  {
    if ops == [] then d else Run(Apply(d, ops[0]), ops[1..])
  }

  predicate WithinCapacity(d: Doc) {
    |d.registeredUsers| <= d.maxSlots
  }

  /** The invariants one step keeps, and that it admits no blacklisted id. */
  lemma ApplyPreserves(d: Doc, op: Op)
    ensures Apply(d, op).maxSlots == d.maxSlots
    ensures WithinCapacity(d) ==> WithinCapacity(Apply(d, op))
    ensures Blacklist.NoDuplicates(d.blacklist) ==> Blacklist.NoDuplicates(Apply(d, op).blacklist)
    ensures forall id :: id in Apply(d, op).registeredUsers && id !in d.registeredUsers ==>
              id !in d.blacklist
  {
    match op
    case Unregister(id) =>
      var r := Registry.UnregisterUser(d, id);
      assert r.registeredUsers.Keys <= d.registeredUsers.Keys;
      assert |r.registeredUsers.Keys| <= |d.registeredUsers.Keys|;
    case _ =>
  }

  /** Capacity, the capacity bound and a duplicate-free blacklist survive any
      sequence of operations. */
  lemma {:induction false} RunPreserves(d: Doc, ops: seq<Op>)
    ensures Run(d, ops).maxSlots == d.maxSlots
    ensures WithinCapacity(d) ==> WithinCapacity(Run(d, ops))
    ensures Blacklist.NoDuplicates(d.blacklist) ==> Blacklist.NoDuplicates(Run(d, ops).blacklist)
    decreases |ops|
  {
    if ops != [] {
      ApplyPreserves(d, ops[0]);
      RunPreserves(Apply(d, ops[0]), ops[1..]);
    }
  }

  /** Running one more operation after a prefix is one more step. */
  lemma {:induction false} RunExtend(d: Doc, ops: seq<Op>, k: nat)
    requires k < |ops|
    ensures Run(d, ops[..k + 1]) == Apply(Run(d, ops[..k]), ops[k])
    decreases k
  {
    if k > 0 {
      assert ops[..k + 1][1..] == ops[1..][..k];
      assert ops[..k][1..] == ops[1..][..k - 1];
      RunExtend(Apply(d, ops[0]), ops[1..], k - 1);
    } else {
      assert ops[..1] == [ops[0]];
      assert ops[..1][1..] == [];
    }
  }

  /** At every step of any sequence of operations, an id that becomes
      registered was not on the blacklist just before that step. */
  lemma RunAdmitsNoBanned(d: Doc, ops: seq<Op>, k: nat, id: UserId)
    requires k < |ops|
    requires id in Run(d, ops[..k + 1]).registeredUsers
    requires id !in Run(d, ops[..k]).registeredUsers
    ensures id !in Run(d, ops[..k]).blacklist
  {
    RunExtend(d, ops, k);
    ApplyPreserves(Run(d, ops[..k]), ops[k]);
  }

  /** From a freshly created store no sequence of operations ever holds more
      than the default 50 guests. */
  lemma FreshStoreNeverOverfills(ops: seq<Op>)
    ensures Migration.ToDoc(Migration.EnsureDatabase(None)).Some?
    ensures |Run(Migration.ToDoc(Migration.EnsureDatabase(None)).value, ops).registeredUsers| <= 50
  {
    RunPreserves(Migration.InitialDoc(), ops);
  }

  /** Blacklisting a registered user does not unregister them: the store can
      hold a guest whose id is on the blacklist. */
  lemma BanDoesNotEvict(d: Doc, id: UserId)
    requires id in d.registeredUsers
    ensures id in Apply(d, AddBan(id)).registeredUsers
    ensures id in Apply(d, AddBan(id)).blacklist
  {
  }
}
