/**
 * Resolving the key identifiers found in an encrypted artifact to stored keys.
 * A requested identifier may name any key of a stored key's material, not only
 * its primary identifier.
 */
module Matching {
  import opened Keys

  /** Position of the first key in `pool` whose material holds `id`; `|pool|` when there is none. */
  function IndexHolding(pool: seq<Key>, id: string): (i: nat)
    ensures i <= |pool|
    ensures i < |pool| ==> pool[i].HasAlternativeId(id)
    ensures forall j :: 0 <= j < i ==> !pool[j].HasAlternativeId(id)
  {
    if pool == [] || pool[0].HasAlternativeId(id) then 0 else 1 + IndexHolding(pool[1..], id)
  }

  /** What one requested identifier adds to a match result: the first holder in `pool`, if any. */
  function Hit(pool: seq<Key>, id: string): (r: seq<Key>)
    ensures |r| <= 1
  {
    var i := IndexHolding(pool, id);
    if i < |pool| then [pool[i]] else []
  }

  /** An identifier adds nothing exactly when no key of the pool holds it, and otherwise a holder. */
  lemma HitHolds(pool: seq<Key>, id: string)
    ensures Hit(pool, id) == [] <==> forall k :: k in pool ==> !k.HasAlternativeId(id)
    ensures forall k :: k in Hit(pool, id) ==> k in pool && k.HasAlternativeId(id)
  {
    var i := IndexHolding(pool, id);
    if i == |pool| {
      forall k | k in pool ensures !k.HasAlternativeId(id) {
        var j :| 0 <= j < |pool| && pool[j] == k;
      }
    }
  }

  /**
   * The result of matching the requested identifiers `ids`, taken in their
   * iteration order, against `pool`: one entry per identifier that some key
   * holds, no deduplication.
   */
  function Matches(pool: seq<Key>, ids: seq<string>): (r: seq<Key>)
    ensures |r| <= |ids|
  {
    if ids == [] then []
    else Matches(pool, ids[..|ids| - 1]) + Hit(pool, ids[|ids| - 1])
  }

  /** The decryption-capable keys of `keys`, in their order (a stream filter in the source). */
  function DecryptionKeys(keys: seq<Key>): (r: seq<Key>)
    ensures forall k :: k in r <==> k in keys && k.canDecrypt
    ensures |r| <= |keys|
  {
    if keys == [] then []
    else (if keys[0].canDecrypt then [keys[0]] else []) + DecryptionKeys(keys[1..])
  }

  /** One more requested identifier adds its own contribution at the end. */
  lemma MatchesSnoc(pool: seq<Key>, ids: seq<string>, id: string)
    ensures Matches(pool, ids + [id]) == Matches(pool, ids) + Hit(pool, id)
  {
    var longer := ids + [id];
    assert longer[..|longer| - 1] == ids;
  }

  /** Matching distributes over the requested identifiers: each contributes on its own. */
  lemma {:induction false} MatchesAppend(pool: seq<Key>, a: seq<string>, b: seq<string>)
    ensures Matches(pool, a + b) == Matches(pool, a) + Matches(pool, b)
  {
    if b == [] {
      assert a + b == a;
    } else {
      var front, last := b[..|b| - 1], b[|b| - 1];
      assert b == front + [last];
      assert a + b == (a + front) + [last];
      MatchesAppend(pool, a, front);
      MatchesSnoc(pool, a + front, last);
      MatchesSnoc(pool, front, last);
    }
  }

  /**
   * The j-th requested identifier contributes exactly its first holder in pool
   * order, between the contributions of the identifiers before and after it.
   */
  lemma {:induction false} MatchesAt(pool: seq<Key>, ids: seq<string>, j: nat)
    requires j < |ids|
    ensures Matches(pool, ids) == Matches(pool, ids[..j]) + Hit(pool, ids[j]) + Matches(pool, ids[j + 1..])
  {
    var front, upTo, back := ids[..j], ids[..j + 1], ids[j + 1..];
    assert upTo == front + [ids[j]];
    assert ids == upTo + back;
    MatchesSnoc(pool, front, ids[j]);
    MatchesAppend(pool, upTo, back);
  }

  /** Every key a match returns lies in the pool and holds one of the requested identifiers. */
  lemma {:induction false} MatchesSound(pool: seq<Key>, ids: seq<string>)
    ensures forall k :: k in Matches(pool, ids) ==>
              k in pool && exists j :: 0 <= j < |ids| && k.HasAlternativeId(ids[j])
  {
    if ids != [] {
      var n := |ids| - 1;
      MatchesSound(pool, ids[..n]);
      HitHolds(pool, ids[n]);
      forall k | k in Matches(pool, ids)
        ensures exists j :: 0 <= j < |ids| && k.HasAlternativeId(ids[j])
      {
        if k in Matches(pool, ids[..n]) {
          var j :| 0 <= j < n && k.HasAlternativeId(ids[..n][j]);
          assert ids[j] == ids[..n][j];
        } else {
          assert k.HasAlternativeId(ids[n]);
        }
      }
    }
  }

  /**
   * A key that is the first holder of two requested identifiers is returned
   * once for each: the result is not deduplicated.
   */
  lemma MatchesRepeats(pool: seq<Key>, ids: seq<string>, j1: nat, j2: nat)
    requires j1 < j2 < |ids|
    requires IndexHolding(pool, ids[j1]) == IndexHolding(pool, ids[j2]) < |pool|
    ensures multiset(Matches(pool, ids))[pool[IndexHolding(pool, ids[j1])]] >= 2
  {
    var k := pool[IndexHolding(pool, ids[j1])];
    var front := ids[..j2];
    MatchesAt(pool, ids, j2);
    MatchesAt(pool, front, j1);
    assert front[j1] == ids[j1];
    assert Hit(pool, ids[j1]) == [k] && Hit(pool, ids[j2]) == [k];
    assert multiset(Matches(pool, front))[k] >= 1;
  }

  /**
   * Restricting the pool to decryption-capable keys keeps ring order: an
   * identifier resolves to the first decryption-capable key holding it.
   */
  lemma {:induction false} DecryptionHit(ring: seq<Key>, id: string, i: nat)
    requires i < |ring| && ring[i].canDecrypt && ring[i].HasAlternativeId(id)
    requires forall j :: 0 <= j < i ==> !(ring[j].canDecrypt && ring[j].HasAlternativeId(id))
    ensures Hit(DecryptionKeys(ring), id) == [ring[i]]
  {
    var pool := DecryptionKeys(ring);
    if i == 0 {
      assert pool[0] == ring[0];
    } else {
      DecryptionHit(ring[1..], id, i - 1);
      var tail := DecryptionKeys(ring[1..]);
      if ring[0].canDecrypt {
        assert pool == [ring[0]] + tail;
        assert IndexHolding(pool, id) == 1 + IndexHolding(tail, id);
      } else {
        assert pool == tail;
      }
    }
  }

  /**
   * A decryption-capable key is found through a subkey identifier that differs
   * from its primary identifier, as long as no other decryption-capable key holds it.
   */
  lemma MatchBySubkeyId(ring: seq<Key>, k: Key, id: string)
    requires k in ring && k.canDecrypt && k.HasAlternativeId(id) && id != k.keyId
    requires forall o :: o in ring && o.canDecrypt && o.HasAlternativeId(id) ==> o == k
    ensures Matches(DecryptionKeys(ring), [id]) == [k]
  {
    var pool := DecryptionKeys(ring);
    assert k in pool;
    var j :| 0 <= j < |pool| && pool[j] == k;
    var i := IndexHolding(pool, id);
    assert i <= j;
    assert pool[i] in pool;
    assert Hit(pool, id) == [k];
    assert [] + [id] == [id];
    MatchesSnoc(pool, [], id);
  }

  /** The nested scan of findMatchingKeys and findMatchingDecryptionKeys, with its early break. */
  method MatchScan(pool: seq<Key>, ids: seq<string>) returns (ret: seq<Key>)
    ensures ret == Matches(pool, ids)
  {
    ret := [];
    for n := 0 to |ids|
      invariant ret == Matches(pool, ids[..n])
    {
      var neededKeyId := ids[n];
      ghost var before := ret;
      var i := 0;
      while i < |pool|
        invariant i <= |pool|
        invariant ret == before
        invariant forall j :: 0 <= j < i ==> !pool[j].HasAlternativeId(neededKeyId)
      {
        if pool[i].HasAlternativeId(neededKeyId) {
          ret := ret + [pool[i]];
          break;
        }
        i := i + 1;
      }
      assert ret == before + Hit(pool, neededKeyId);
      assert ids[..n + 1][..n] == ids[..n];
    }
    assert ids[..|ids|] == ids;
  }
}
