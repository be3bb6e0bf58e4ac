/**
 The blacklist: a JSON array of user ids, kept free of duplicates by the
 membership test in `add_to_blacklist`. Removal is Python's `list.remove`,
 which drops the first occurrence only.
 */
module Blacklist {
  import opened Schema

  predicate NoDuplicates(s: seq<UserId>) {
    forall i, j :: 0 <= i < j < |s| ==> s[i] != s[j]
  }

  /** Position of the first occurrence of `x` in `s`. */
  function FirstIndex(s: seq<UserId>, x: UserId): (i: nat)
    requires x in s
    ensures i < |s| && s[i] == x && x !in s[..i]
  {
    if s[0] == x then 0 else 1 + FirstIndex(s[1..], x)
  }

  /** `list.remove(x)`: deletes the first occurrence of `x`, keeping the order
      of everything else. */
  function RemoveFirst(s: seq<UserId>, x: UserId): (r: seq<UserId>)
    requires x in s
    ensures r == s[..FirstIndex(s, x)] + s[FirstIndex(s, x) + 1..]
    ensures |r| == |s| - 1
  {
    if s[0] == x then s[1..] else [s[0]] + RemoveFirst(s[1..], x)
  }

  function IsInBlacklist(d: Doc, id: UserId): bool {
    id in d.blacklist
  }

  function GetBlacklist(d: Doc): seq<UserId> {
    d.blacklist
  }

  /** `add_to_blacklist`: appends the id unless it is already listed. */
  function AddToBlacklist(d: Doc, id: UserId): (r: Doc)
    ensures OnlyBlacklistDiffers(d, r)
    ensures IsInBlacklist(r, id)
    ensures IsInBlacklist(d, id) ==> r == d
    ensures !IsInBlacklist(d, id) ==> r.blacklist == d.blacklist + [id]
    ensures NoDuplicates(d.blacklist) ==> NoDuplicates(r.blacklist)
  {
    if id !in d.blacklist then d.(blacklist := d.blacklist + [id]) else d
  }

  /** `remove_from_blacklist`: removes the id's first occurrence if it is listed. */
  function RemoveFromBlacklist(d: Doc, id: UserId): (r: Doc)
    ensures OnlyBlacklistDiffers(d, r)
    ensures !IsInBlacklist(d, id) ==> r == d
    ensures IsInBlacklist(d, id) ==>
              r.blacklist == d.blacklist[..FirstIndex(d.blacklist, id)] + d.blacklist[FirstIndex(d.blacklist, id) + 1..]
    ensures IsInBlacklist(d, id) ==>
              multiset(r.blacklist) == multiset(d.blacklist) - multiset{id}
    ensures NoDuplicates(d.blacklist) ==> !IsInBlacklist(r, id) && NoDuplicates(r.blacklist)
  {
    if id in d.blacklist then
      var s := d.blacklist;
      var i := FirstIndex(s, id);
      assert s == s[..i] + [id] + s[i + 1..];
      assert multiset(s) == multiset(s[..i]) + multiset{id} + multiset(s[i + 1..]);
      RemoveFirstNoDuplicates(s, id);
      d.(blacklist := RemoveFirst(s, id))
    else
      d
  }

  /** On a duplicate-free list, removal leaves no copy of `x` and no duplicate. */
  lemma RemoveFirstNoDuplicates(s: seq<UserId>, x: UserId)
    requires x in s
    ensures NoDuplicates(s) ==> x !in RemoveFirst(s, x) && NoDuplicates(RemoveFirst(s, x))
  {
    if NoDuplicates(s) {
      var i := FirstIndex(s, x);
      var r := RemoveFirst(s, x);
      forall k | 0 <= k < |r|
        ensures r[k] != x
      {
        if k < i { assert r[k] == s[k]; } else { assert r[k] == s[k + 1]; }
      }
      forall a, b | 0 <= a < b < |r|
        ensures r[a] != r[b]
      {
        var a' := if a < i then a else a + 1;
        var b' := if b < i then b else b + 1;
        assert r[a] == s[a'] && r[b] == s[b'];
      }
    }
  }

  /** Removing an element just appended to a list that lacked it restores the list. */
  lemma {:induction false} RemoveFirstOfAppended(s: seq<UserId>, x: UserId)
    requires x !in s
    ensures RemoveFirst(s + [x], x) == s
  {
    if s != [] {
      assert (s + [x])[1..] == s[1..] + [x];
      RemoveFirstOfAppended(s[1..], x);
    }
  }

  /** Adding an id and then removing it gives back the document. */
  lemma RemoveUndoesAdd(d: Doc, id: UserId)
    requires !IsInBlacklist(d, id)
    ensures RemoveFromBlacklist(AddToBlacklist(d, id), id) == d
  {
    RemoveFirstOfAppended(d.blacklist, id);
  }

  /** Adding the same id twice is the same as adding it once. */
  lemma AddIdempotent(d: Doc, id: UserId)
    ensures AddToBlacklist(AddToBlacklist(d, id), id) == AddToBlacklist(d, id)
  {
  }

  /** Without the duplicate-free invariant one removal can leave the id listed. */
  lemma RemoveLeavesDuplicateCopy(d: Doc)
    requires d.blacklist == [7, 7]
    ensures IsInBlacklist(RemoveFromBlacklist(d, 7), 7)
  {
    assert RemoveFirst([7, 7], 7) == [7];
  }
}
