/**
 Guest registration and slot accounting over one loaded document: each
 mutating operation is a pure transition from the document before the
 save to the document after it.
 */
module Registry {
  import opened Schema

  /** Why `register_user` turned a user away, one case per guard. */
  datatype Refusal = AlreadyRegistered | Blacklisted | Full

  function IsUserRegistered(d: Doc, id: UserId): bool {
    id in d.registeredUsers
  }

  function GetAllRegistered(d: Doc): map<UserId, Guest> {
    d.registeredUsers
  }

  function GetMaxSlots(d: Doc): int {
    d.maxSlots
  }

  function GetCurrentSlots(d: Doc): nat {
    |d.registeredUsers|
  }

  /** May be negative when the store holds more guests than slots. */
  function GetFreeSlots(d: Doc): int {
    GetMaxSlots(d) - GetCurrentSlots(d)
  }

  function HasFreeSlots(d: Doc): bool {
    GetFreeSlots(d) > 0
  }

  /** The first guard of `register_user` that fires, checked in source order:
      already registered, then blacklisted, then out of slots. */
  function RegisterGuard(d: Doc, id: UserId): (g: Option<Refusal>)
    ensures g == Some(AlreadyRegistered) <==> IsUserRegistered(d, id)
    ensures g == Some(Blacklisted) <==> !IsUserRegistered(d, id) && id in d.blacklist
    ensures g == Some(Full) <==>
              !IsUserRegistered(d, id) && id !in d.blacklist && !HasFreeSlots(d)
    ensures g.None? <==> !IsUserRegistered(d, id) && id !in d.blacklist && HasFreeSlots(d)
  {
    if id in d.registeredUsers then Some(AlreadyRegistered)
    else if id in d.blacklist then Some(Blacklisted)
    else if |d.registeredUsers| >= d.maxSlots then Some(Full)
    else None
  }

  /** `register_user`: the document after the call and the returned flag.
      `at` is the registration timestamp the caller reads from its clock. */
  function RegisterUser(d: Doc, id: UserId, name: string, username: Option<string>, at: string)
    : (r: (Doc, bool))
    ensures r.1 <==> RegisterGuard(d, id).None?
    ensures !r.1 ==> r.0 == d
    ensures r.1 ==>
              && OnlyUsersDiffer(d, r.0)
              && r.0.registeredUsers.Keys == d.registeredUsers.Keys + {id}
              && r.0.registeredUsers[id] == Guest(name, username, at)
              && (forall k :: k in d.registeredUsers ==> r.0.registeredUsers[k] == d.registeredUsers[k])
              && GetCurrentSlots(r.0) == GetCurrentSlots(d) + 1
  {
    if RegisterGuard(d, id).Some? then
      (d, false)
    else
      (d.(registeredUsers := d.registeredUsers[id := Guest(name, username, at)]), true)
  }

  /** `unregister_user`: drops the id's entry if there is one. */
  function UnregisterUser(d: Doc, id: UserId): (r: Doc)
    ensures OnlyUsersDiffer(d, r)
    ensures r.registeredUsers.Keys == d.registeredUsers.Keys - {id}
    ensures forall k :: k in r.registeredUsers ==> r.registeredUsers[k] == d.registeredUsers[k]
    ensures !IsUserRegistered(d, id) ==> r == d
  {
    d.(registeredUsers := d.registeredUsers - {id})
  }

  /** `clear_all_registrations`. */
  function ClearAllRegistrations(d: Doc): (r: Doc)
    ensures OnlyUsersDiffer(d, r)
    ensures GetCurrentSlots(r) == 0
  {
    d.(registeredUsers := map[])
  }

  /** A user can be registered only while a slot is free. */
  lemma RegisterNeedsFreeSlots(d: Doc, id: UserId, name: string, username: Option<string>, at: string)
    requires RegisterUser(d, id, name, username, at).1
    ensures HasFreeSlots(d)
    ensures GetFreeSlots(RegisterUser(d, id, name, username, at).0) == GetFreeSlots(d) - 1
  {
  }

  /** Free slots are positive exactly when the count is below capacity. */
  lemma HasFreeSlotsIffBelowCapacity(d: Doc)
    ensures HasFreeSlots(d) <==> |d.registeredUsers| < d.maxSlots
  {
  }

  /** A blacklisted id is never admitted. */
  lemma BlacklistedNeverAdmitted(d: Doc, id: UserId, name: string, username: Option<string>, at: string)
    requires id in d.blacklist
    ensures !RegisterUser(d, id, name, username, at).1
    ensures RegisterUser(d, id, name, username, at).0 == d
  {
  }

  /** Registering the same id again is refused and leaves the document as the
      first registration left it. */
  lemma SecondRegistrationRefused(d: Doc, id: UserId, name: string, username: Option<string>, at: string,
                                  name': string, username': Option<string>, at': string)
    requires RegisterUser(d, id, name, username, at).1
    ensures var d1 := RegisterUser(d, id, name, username, at).0;
      RegisterUser(d1, id, name', username', at') == (d1, false)
  {
  }

  /** Unregistering undoes a successful registration. */
  lemma UnregisterUndoesRegister(d: Doc, id: UserId, name: string, username: Option<string>, at: string)
    requires RegisterUser(d, id, name, username, at).1
    ensures UnregisterUser(RegisterUser(d, id, name, username, at).0, id) == d
  {
    var d1 := RegisterUser(d, id, name, username, at).0;
    assert d1.registeredUsers - {id} == d.registeredUsers;
  }

  /** Unregistering a present id frees exactly one slot. */
  lemma UnregisterFreesOneSlot(d: Doc, id: UserId)
    requires IsUserRegistered(d, id)
    ensures GetFreeSlots(UnregisterUser(d, id)) == GetFreeSlots(d) + 1
  {
    var r := UnregisterUser(d, id);
    assert r.registeredUsers.Keys == d.registeredUsers.Keys - {id};
    assert |r.registeredUsers.Keys| == |d.registeredUsers.Keys| - 1;
  }

  /** With more guests than slots the free-slot count is negative and every
      new registration is refused as full. */
  lemma OverfullStoreRefusesAll(d: Doc, id: UserId, name: string, username: Option<string>, at: string)
    requires GetCurrentSlots(d) > GetMaxSlots(d)
    ensures GetFreeSlots(d) < 0
    ensures !RegisterUser(d, id, name, username, at).1
  {
  }

  /** Capacity two: two guests fit, a third is turned away, and one leaving
      lets the third in. */
  lemma CapacityTwoScenario(d: Doc)
    requires d.maxSlots == 2 && d.registeredUsers == map[] && d.blacklist == []
    ensures var (d1, ok1) := RegisterUser(d, 1, "Ann Lee", None, "t1");
      var (d2, ok2) := RegisterUser(d1, 2, "Bob Ray", None, "t2");
      var (d3, ok3) := RegisterUser(d2, 3, "Cy Dee", None, "t3");
      var d4 := UnregisterUser(d3, 1);
      var (d5, ok5) := RegisterUser(d4, 3, "Cy Dee", None, "t4");
      ok1 && ok2 && !ok3 && ok5 && d5.registeredUsers.Keys == {2, 3}
  {
    var (d1, ok1) := RegisterUser(d, 1, "Ann Lee", None, "t1");
    var (d2, ok2) := RegisterUser(d1, 2, "Bob Ray", None, "t2");
    assert |d2.registeredUsers.Keys| == |{1, 2}| == 2;
    var (d3, ok3) := RegisterUser(d2, 3, "Cy Dee", None, "t3");
    var d4 := UnregisterUser(d3, 1);
    assert d4.registeredUsers.Keys == {2};
  }
}
