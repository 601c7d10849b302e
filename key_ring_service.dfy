/**
 * The key ring service: the in-memory list of keys, loaded lazily from the
 * configuration repository, and the operations that read, search and change it.
 */
module KeyRingServicePgp {
  import opened Wrappers
  import opened Keys
  import opened KeyRing
  import opened Matching

  /** The iteration order of a set of requested key identifiers: no identifier twice. */
  predicate Distinct(ids: seq<string>)
  {
    forall i, j :: 0 <= i < j < |ids| ==> ids[i] != ids[j]
  }

  class KeyRingService {
    /** The key list; meaningful once `loaded`. */
    var ring: seq<Key>
    /** Whether the list has been read from the repository. */
    var loaded: bool
    /** What the configuration repository holds; empty stands for "nothing persisted yet". */
    var stored: seq<Key>

    /** What the repository held when the service was created. */
    ghost const initial: seq<Key>
    /** Reads of the repository. */
    ghost var loads: nat
    /** Calls to the key generator's expectNewKeyCreation. */
    ghost var keyCreationRequests: nat
    /** Writes of the ring to the repository. */
    ghost var persists: nat
    /** Events posted on the event bus, oldest first. */
    ghost var events: seq<Event>

    /**
     * The service's invariant: the repository is read once, on first use; the
     * key generator is asked for a key exactly when that read found nothing;
     * the ring has been persisted as many times as events were posted; once loaded, the repository
     * holds the ring.
     */
    ghost predicate Valid()
      reads this
    {
      && loads == (if loaded then 1 else 0)
      && keyCreationRequests == (if loaded && initial == [] then 1 else 0)
      && persists == |events|
      && (loaded ==> stored == ring)
      && (!loaded ==> ring == [] && stored == initial && events == [])
    }

    /** The ring every operation works on: the one loaded, or the one the first use will load. */
    ghost function Current(): seq<Key>
      reads this
    {
      if loaded then ring else stored
    }

    constructor (persisted: seq<Key>)
      ensures Valid() && !loaded && stored == persisted && initial == persisted
    {
      ring, loaded, stored := [], false, persisted;
      initial := persisted;
      loads, keyCreationRequests, persists, events := 0, 0, 0, [];
    }

    /** Lazy load: reads the repository on first use only, and asks for a new key when it is empty. */
    method EnsureRead()
      requires Valid()
      modifies this
      ensures Valid() && loaded
      ensures ring == old(Current())
      ensures old(loaded) ==> unchanged(this)
      ensures loads == 1
      ensures keyCreationRequests == old(keyCreationRequests) + (if !old(loaded) && ring == [] then 1 else 0)
      ensures stored == old(stored) && persists == old(persists) && events == old(events)
    {
      if loaded {
        return;
      }
      ring := stored;  // readOrConstruct
      loaded := true;
      loads := loads + 1;
      if |ring| == 0 {
        keyCreationRequests := keyCreationRequests + 1;
      }
    }

    /** A copy of the ring in stored order. */
    method ReadKeys() returns (keys: seq<Key>)
      requires Valid()
      modifies this
      ensures Valid() && loaded
      ensures keys == ring == old(Current())
      ensures old(loaded) ==> unchanged(this)
      ensures stored == old(stored) && persists == old(persists) && events == old(events)
    {
      EnsureRead();
      keys := ring;
    }

    /**
     * The first key whose primary identifier is `keyId`, or None. An
     * identifier without text is refused before anything is loaded.
     */
    method FindKeyById(keyId: string) returns (r: Result<Option<Key>, KeyRingError>)
      requires Valid()
      modifies this
      ensures Valid()
      ensures !HasText(keyId) ==> r == Failure(InvalidArgument) && unchanged(this)
      ensures HasText(keyId) ==> r == Success(FindById(old(Current()), keyId)) && loaded
      ensures Current() == old(Current())
      ensures old(loaded) ==> unchanged(this)
      ensures stored == old(stored) && persists == old(persists) && events == old(events)
    {
      if !HasText(keyId) {
        return Failure(InvalidArgument);
      }
      EnsureRead();
      var i := 0;
      while i < |ring|
        invariant i <= |ring|
        invariant forall j :: 0 <= j < i ==> ring[j].keyId != keyId
      {
        if ring[i].keyId == keyId {
          return Success(Some(ring[i]));
        }
        i := i + 1;
      }
      return Success(None);
    }

    /**
     * Removes the first entry whose primary identifier is that of `key`,
     * persists and posts a "removed" event for `key`; a no-op when nothing matches.
     */
    method RemoveKey(key: Key)
      requires Valid()
      modifies this
      ensures Valid() && loaded
      ensures ring == Remove(old(Current()), key).ring
      ensures events == old(events) + Remove(old(Current()), key).posted
      ensures UniqueIds(old(Current())) ==> UniqueIds(ring)
    {
      EnsureRead();
      label Loaded:
      var i := 0;
      while i < |ring|
        invariant i <= |ring|
        invariant unchanged@Loaded(this)
        invariant forall j :: 0 <= j < i ==> ring[j].keyId != key.keyId
      {
        if ring[i].keyId == key.keyId {
          ring := ring[..i] + ring[i + 1..];
          stored, persists := ring, persists + 1;  // persist
          events := events + [Removed(key)];      // post
          if UniqueIds(old@Loaded(ring)) {
            RemoveKeepsUniqueIds(old@Loaded(ring), key.keyId);
          }
          return;
        }
        i := i + 1;
      }
    }

    /**
     * Adds `key`. A key whose primary identifier is already present is
     * refused, except that a public-only entry gives way to a
     * decryption-capable key: it is removed first, then `key` is appended.
     */
    method AddKey(key: Key) returns (r: Outcome<KeyRingError>)
      requires Valid()
      modifies this
      ensures Valid()
      ensures match Add(old(Current()), key)
        case Success(change) =>
          r == Pass && Current() == change.ring && events == old(events) + change.posted
        case Failure(error) =>
          r == Fail(error) && Current() == old(Current()) && stored == old(stored) && events == old(events)
      ensures HasText(key.keyId) ==> loaded
      ensures !HasText(key.keyId) ==> unchanged(this)
      ensures UniqueIds(old(Current())) ==> UniqueIds(Current())
    {
      var found := FindKeyById(key.keyId);
      if found.Failure? {
        return Fail(found.error);
      }
      ghost var before := ring;
      assert before == old(Current());
      var existing := found.value;
      assert existing == FindById(before, key.keyId);
      ghost var posted: seq<Event> := [];
      if existing.Some? {
        if !existing.value.canDecrypt && key.canDecrypt {
          RemoveKey(existing.value);
          posted := Remove(before, existing.value).posted;
        } else {
          assert Add(before, key) == Failure(AlreadyAdded);
          return Fail(AlreadyAdded);
        }
      } else {
        assert posted + [Added(key)] == [Added(key)];
      }
      Append(key);
      assert events == old(events) + (posted + [Added(key)]);
      assert Add(before, key) == Success(Change(ring, posted + [Added(key)]));
      if UniqueIds(before) {
        AddKeepsUniqueIds(before, key);
      }
      return Pass;
    }

    /** The tail of addKey: append `key`, persist the ring, post an "added" event. */
    method Append(key: Key)
      requires Valid() && loaded
      modifies this
      ensures Valid() && loaded
      ensures ring == old(ring) + [key] && events == old(events) + [Added(key)]
    {
      ring := ring + [key];
      stored, persists := ring, persists + 1;  // persist
      events := events + [Added(key)];        // post
    }

    /**
     * The stored keys that match the requested identifiers (any key of their
     * material counts), one per identifier that some key holds.
     */
    method FindMatchingKeys(ids: seq<string>) returns (r: Result<seq<Key>, KeyRingError>)
      requires Valid() && Distinct(ids)
      modifies this
      ensures Valid()
      ensures ids == [] ==> r == Failure(InvalidArgument) && unchanged(this)
      ensures ids != [] ==> r == Success(Matches(old(Current()), ids)) && loaded
      ensures Current() == old(Current()) && stored == old(stored) && events == old(events)
    {
      if |ids| == 0 {
        return Failure(InvalidArgument);
      }
      var allKeys := ReadKeys();
      var ret := MatchScan(allKeys, ids);
      return Success(ret);
    }

    /**
     * As FindMatchingKeys, searching only the decryption-capable keys: every
     * key returned can decrypt.
     */
    method FindMatchingDecryptionKeys(ids: seq<string>) returns (r: Result<seq<Key>, KeyRingError>)
      requires Valid() && Distinct(ids)
      modifies this
      ensures Valid()
      ensures ids == [] ==> r == Failure(InvalidArgument) && unchanged(this)
      ensures ids != [] ==> r == Success(Matches(DecryptionKeys(old(Current())), ids)) && loaded
      ensures r.Success? ==> forall k :: k in r.value ==> k.canDecrypt && k in ring
      ensures Current() == old(Current()) && stored == old(stored) && events == old(events)
    {
      if |ids| == 0 {
        return Failure(InvalidArgument);
      }
      var allKeys := ReadKeys();
      var decryptionKeys := DecryptionKeys(allKeys);
      var ret := MatchScan(decryptionKeys, ids);
      MatchesSound(decryptionKeys, ids);
      return Success(ret);
    }
  }
}
