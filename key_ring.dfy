/**
 * The key ring as a value: what findKeyById, removeKey and addKey do to an
 * already loaded ring, and what they post, stated as functions, with the
 * properties the service promises proved about them.
 */
module KeyRing {
  import opened Wrappers
  import opened Keys

  /** Invariant I1: no two entries share a primary identifier. */
  ghost predicate UniqueIds(ring: seq<Key>)
  {
    forall i, j :: 0 <= i < j < |ring| ==> ring[i].keyId != ring[j].keyId
  }

  /** Position of the first entry whose primary identifier is `id`; `|ring|` when there is none. */
  function IndexOfId(ring: seq<Key>, id: string): (i: nat)
    ensures i <= |ring|
    ensures i < |ring| ==> ring[i].keyId == id
    ensures forall j :: 0 <= j < i ==> ring[j].keyId != id
  {
    if ring == [] || ring[0].keyId == id then 0 else 1 + IndexOfId(ring[1..], id)
  }

  /** The answer of findKeyById on a loaded ring: the first entry with primary identifier `id`. */
  function FindById(ring: seq<Key>, id: string): (r: Option<Key>)
    ensures r.None? <==> forall k :: k in ring ==> k.keyId != id
    ensures r.Some? ==> r.value in ring && r.value.keyId == id
  {
    var i := IndexOfId(ring, id);
    if i < |ring| then Some(ring[i]) else None
  }

  /** The ring after removeKey's scan: the first entry with primary identifier `id` is taken out. */
  function RemoveFirst(ring: seq<Key>, id: string): (r: seq<Key>)
    ensures FindById(ring, id).None? ==> r == ring
    ensures FindById(ring, id).Some? ==> |r| == |ring| - 1
  {
    var i := IndexOfId(ring, id);
    if i < |ring| then ring[..i] + ring[i + 1..] else ring
  }

  /** Reference definition: every entry whose primary identifier is not `id`, in ring order. */
  function DropId(ring: seq<Key>, id: string): (r: seq<Key>)
    ensures forall k :: k in r <==> k in ring && k.keyId != id
  {
    if ring == [] then []
    else (if ring[0].keyId == id then [] else [ring[0]]) + DropId(ring[1..], id)
  }

  /**
   * The effect of a completed mutation: the new ring and the events posted,
   * in order. The code persists the ring once for each event it posts.
   */
  datatype Change = Change(ring: seq<Key>, posted: seq<Event>)

  /** removeKey(key) on a loaded ring. The event carries the argument, not the stored entry. */
  function Remove(ring: seq<Key>, key: Key): (c: Change)
    ensures c.posted == [] <==> FindById(ring, key.keyId).None?
    ensures c.posted == [] ==> c.ring == ring
    ensures c.posted != [] ==> c.posted == [Removed(key)] && |c.ring| == |ring| - 1
  {
    if FindById(ring, key.keyId).Some? then Change(RemoveFirst(ring, key.keyId), [Removed(key)])
    else Change(ring, [])
  }

  /**
   * addKey(key) on a loaded ring. The only legal overwrite is a public-only
   * entry replaced by a decryption-capable key; the replaced entry goes
   * through removeKey first, with its own persist and event.
   */
  function Add(ring: seq<Key>, key: Key): (r: Result<Change, KeyRingError>)
    ensures r == Failure(InvalidArgument) <==> !HasText(key.keyId)
    ensures r.Success? ==>
              var found := FindById(ring, key.keyId);
              found.None? || (!found.value.canDecrypt && key.canDecrypt)
    ensures r.Success? ==>
              |r.value.ring| > 0 && r.value.ring[|r.value.ring| - 1] == key &&
              |r.value.posted| > 0 && r.value.posted[|r.value.posted| - 1] == Added(key)
  {
    if !HasText(key.keyId) then Failure(InvalidArgument)
    else match FindById(ring, key.keyId)
      case None => Success(Change(ring + [key], [Added(key)]))
      case Some(existing) =>
        if !existing.canDecrypt && key.canDecrypt then
          var removed := Remove(ring, existing);
          Success(Change(removed.ring + [key], removed.posted + [Added(key)]))
        else
          Failure(AlreadyAdded)
  }

  /**
   * removeKey takes out at most one entry, even when primary identifiers
   * repeat: the first match if there is one, and the ring is unchanged otherwise.
   */
  lemma RemoveFirstTakesOne(ring: seq<Key>, id: string)
    ensures FindById(ring, id).None? ==> RemoveFirst(ring, id) == ring
    ensures FindById(ring, id).Some? ==>
              |RemoveFirst(ring, id)| == |ring| - 1 &&
              multiset(RemoveFirst(ring, id)) == multiset(ring) - multiset{FindById(ring, id).value}
  {
    var i := IndexOfId(ring, id);
    if i < |ring| {
      assert ring == ring[..i] + [ring[i]] + ring[i + 1..];
    }
  }

  /** When no entry carries `id`, the reference removal changes nothing. */
  lemma {:induction false} DropIdAbsent(ring: seq<Key>, id: string)
    requires forall k :: k in ring ==> k.keyId != id
    ensures DropId(ring, id) == ring
  {
    if ring != [] {
      assert ring[0] in ring;
      assert forall k :: k in ring[1..] ==> k in ring;
      DropIdAbsent(ring[1..], id);
      assert ring == [ring[0]] + ring[1..];
    }
  }

  /** A tail of a ring that satisfies I1 satisfies it too. */
  lemma UniqueIdsTail(ring: seq<Key>)
    requires ring != [] && UniqueIds(ring)
    ensures UniqueIds(ring[1..])
  {
    var rest := ring[1..];
    forall i, j | 0 <= i < j < |rest| ensures rest[i].keyId != rest[j].keyId {
      assert rest[i] == ring[i + 1] && rest[j] == ring[j + 1];
    }
  }

  /** The scan of removeKey passes over a head entry with another primary identifier. */
  lemma RemoveFirstCons(ring: seq<Key>, id: string)
    requires ring != [] && ring[0].keyId != id
    ensures RemoveFirst(ring, id) == [ring[0]] + RemoveFirst(ring[1..], id)
  {
    var rest := ring[1..];
    var i := IndexOfId(ring, id);
    assert i == 1 + IndexOfId(rest, id);
    if i < |ring| {
      assert ring[..i] + ring[i + 1..] == [ring[0]] + (rest[..i - 1] + rest[i..]);
    }
  }

  /**
   * Under I1, removing the first match removes every match: removeKey leaves
   * exactly the entries with another primary identifier, in their old order.
   */
  lemma {:induction false} RemoveFirstIsDropId(ring: seq<Key>, id: string)
    requires UniqueIds(ring)
    ensures RemoveFirst(ring, id) == DropId(ring, id)
  {
    if ring != [] {
      var rest := ring[1..];
      UniqueIdsTail(ring);
      if ring[0].keyId == id {
        forall k | k in rest ensures k.keyId != id {
          var j :| 0 <= j < |rest| && rest[j] == k;
          assert ring[j + 1] == k;
        }
        DropIdAbsent(rest, id);
        assert RemoveFirst(ring, id) == rest;
      } else {
        RemoveFirstIsDropId(rest, id);
        RemoveFirstCons(ring, id);
      }
    }
  }

  /** removeKey keeps I1, and afterwards findKeyById finds nothing under the removed identifier. */
  lemma RemoveKeepsUniqueIds(ring: seq<Key>, id: string)
    requires UniqueIds(ring)
    ensures UniqueIds(RemoveFirst(ring, id))
    ensures FindById(RemoveFirst(ring, id), id).None?
  {
    var i := IndexOfId(ring, id);
    if i < |ring| {
      var r := ring[..i] + ring[i + 1..];
      forall a, b | 0 <= a < b < |r| ensures r[a].keyId != r[b].keyId {
        var a' := if a < i then a else a + 1;
        var b' := if b < i then b else b + 1;
        assert r[a] == ring[a'] && r[b] == ring[b'];
      }
    }
    RemoveFirstIsDropId(ring, id);
  }

  /**
   * addKey under I1, case by case: a new primary identifier is appended; a
   * public-only entry with the identifier is replaced by a decryption-capable
   * key (every other entry kept in order, the new key last, a "removed" event
   * for the old entry before the "added" one); any other clash is rejected.
   */
  lemma AddByCase(ring: seq<Key>, key: Key)
    requires UniqueIds(ring) && HasText(key.keyId)
    ensures (forall k :: k in ring ==> k.keyId != key.keyId) ==>
              Add(ring, key) == Success(Change(ring + [key], [Added(key)]))
    ensures forall e :: e in ring && e.keyId == key.keyId && !e.canDecrypt && key.canDecrypt ==>
              Add(ring, key) == Success(Change(DropId(ring, key.keyId) + [key], [Removed(e), Added(key)]))
    ensures forall e :: e in ring && e.keyId == key.keyId && (e.canDecrypt || !key.canDecrypt) ==>
              Add(ring, key) == Failure(AlreadyAdded)
  {
    var found := FindById(ring, key.keyId);
    if found.Some? {
      var existing := found.value;
      forall e | e in ring && e.keyId == key.keyId ensures e == existing {
        var a :| 0 <= a < |ring| && ring[a] == e;
        var b := IndexOfId(ring, key.keyId);
        assert a == b;
      }
      if !existing.canDecrypt && key.canDecrypt {
        RemoveFirstIsDropId(ring, key.keyId);
        assert Remove(ring, existing) == Change(DropId(ring, key.keyId), [Removed(existing)]);
        assert [Removed(existing)] + [Added(key)] == [Removed(existing), Added(key)];
      }
    }
  }

  /**
   * addKey keeps I1. After it completes, findKeyById under the new key's
   * identifier returns that key, and it is the only entry with that identifier.
   */
  lemma AddKeepsUniqueIds(ring: seq<Key>, key: Key)
    requires UniqueIds(ring)
    requires Add(ring, key).Success?
    ensures UniqueIds(Add(ring, key).value.ring)
    ensures FindById(Add(ring, key).value.ring, key.keyId) == Some(key)
    ensures forall k :: k in Add(ring, key).value.ring && k.keyId == key.keyId ==> k == key
  {
    var rest := if FindById(ring, key.keyId).None? then ring else RemoveFirst(ring, key.keyId);
    if FindById(ring, key.keyId).Some? {
      RemoveKeepsUniqueIds(ring, key.keyId);
    }
    assert Add(ring, key).value.ring == rest + [key];
    AppendNewIdKeepsUniqueIds(rest, key);
  }

  /** Appending a key whose identifier no entry has keeps I1 and makes it the one entry with that identifier. */
  lemma AppendNewIdKeepsUniqueIds(rest: seq<Key>, key: Key)
    requires UniqueIds(rest)
    requires FindById(rest, key.keyId).None?
    ensures UniqueIds(rest + [key])
    ensures FindById(rest + [key], key.keyId) == Some(key)
    ensures forall k :: k in rest + [key] && k.keyId == key.keyId ==> k == key
  {
    var r := rest + [key];
    forall i, j | 0 <= i < j < |r| ensures r[i].keyId != r[j].keyId {
      if j < |rest| {
        assert r[i] == rest[i] && r[j] == rest[j];
      } else {
        assert r[i] in rest;
      }
    }
    assert r[|rest|] == key;
  }

  /** The scenario of an upgrade followed by a second secret key under the same identifier. */
  lemma UpgradeThenDuplicate(k1: Key, k2: Key, k3: Key)
    requires HasText(k1.keyId) && k2.keyId == k1.keyId && k3.keyId == k1.keyId
    requires !k1.canDecrypt && k2.canDecrypt && k3.canDecrypt
    ensures Add([k1], k2) == Success(Change([k2], [Removed(k1), Added(k2)]))
    ensures Add([k2], k3) == Failure(AlreadyAdded)
  {
    assert FindById([k1], k1.keyId) == Some(k1);
    assert RemoveFirst([k1], k1.keyId) == [];
    assert Remove([k1], k1) == Change([], [Removed(k1)]);
    assert [Removed(k1)] + [Added(k2)] == [Removed(k1), Added(k2)];
    assert [] + [k2] == [k2];
    assert HasText(k2.keyId) && FindById([k1], k2.keyId) == Some(k1);
    assert FindById([k2], k1.keyId) == Some(k2);
  }
}
