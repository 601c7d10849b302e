# Key ring service of PGPTool, in Dafny

This project models the key ring service of PGPTool (`KeyRingServicePgpImpl`):
the ordered in-memory list of a user's keys, read lazily from the
configuration repository, with lookup by primary key identifier, addition
with duplicate detection and the one legal overwrite (a public-only key
upgraded to a decryption-capable key with the same identifier), removal of
at most one entry, and the two matching scans that resolve the key
identifiers named in an encrypted file to stored keys through any key of
their material.

Layout:

- `wrappers.dfy` — `Option`, `Result` and `Outcome` (a Java `null` return and a thrown exception).
- `keys.dfy` — the key entity (`keyId`, `canDecrypt`, `altIds`), the two change
  events, the two errors the service throws, and the `hasText` argument check
  with the Java platform's whitespace test.
- `key_ring.dfy` — what `findKeyById`, `removeKey` and `addKey` do to a loaded
  ring, as functions (`FindById`, `Remove`, `Add`), and the properties proved
  about them: at most one removal, invariant I1 (distinct primary
  identifiers) kept by both mutations, upgrade versus rejection, and the
  add-then-find and remove-then-find round trips.
- `matching.dfy` — first-holder search, the decryption-capable filter, the
  match result as a function of the pool and the requested identifiers, its
  properties, and `MatchScan`, the nested scan with its early `break`.
- `key_ring_service.dfy` — the service as a class. `ring` is the key list,
  `loaded` says whether it has been read, `stored` is what the repository
  holds. Ghost fields count repository reads, persists and key-generation
  requests, and log the posted events. `Valid()` states that the repository
  is read once, on first use, and that the key generator is asked for a key
  exactly when that read found nothing. It also states that there are as
  many persists as posted events, and that once loaded the repository holds
  the ring. Each method states its new state in terms of the pure functions
  of `key_ring.dfy` and `matching.dfy`.

Collaborators become state: the configuration repository is the field
`stored` (an empty sequence stands for "nothing persisted", which
`readOrConstruct` turns into an empty ring). A persist copies the ring into
`stored` and counts. Posting appends to `events`. `expectNewKeyCreation` is
counted. Java's `Set<String>` of requested identifiers is a sequence without
repetitions in iteration order, because that order decides the order of the
result. A returned list is a Dafny sequence, a value, so `readKeys` returning
a copy holds by construction.

Three behaviours of the code that the model keeps as they are:

- `addKey` appends to the list and then persists, with no rollback if the
  persist fails. Persist failures are not modelled (see below).
- `findKeyById` refuses an identifier that fails `hasText`, so one made only
  of whitespace is refused too (`InvalidArgument`). `addKey` inherits this
  check through its call to `findKeyById`, before anything is loaded.
- The "removed" event of `removeKey` carries the argument key, not the stored
  entry that was taken out.

## Model

| member | source | states |
|---|---|---|
| `KeyRing.IndexOfId` | pgptool-gui/src/main/java/org/pgptool/gui/encryption/implpgp/KeyRingServicePgpImpl.java:174-179 | the position the scan stops at: no earlier entry has the identifier, and the entry there has it unless the scan ran off the end |
| `KeyRing.FindById` | pgptool-gui/src/main/java/org/pgptool/gui/encryption/implpgp/KeyRingServicePgpImpl.java:170-180 | absent exactly when no entry has the primary identifier; otherwise a stored entry with that identifier (the first) |
| `KeyRing.RemoveFirst` | pgptool-gui/src/main/java/org/pgptool/gui/encryption/implpgp/KeyRingServicePgpImpl.java:185-193 | the ring after removeKey's scan: unchanged when no entry has the identifier, one entry shorter otherwise; `RemoveFirstTakesOne`, `RemoveFirstIsDropId` and `RemoveKeepsUniqueIds` say which entry goes and what stays |
| `KeyRing.Remove` | pgptool-gui/src/main/java/org/pgptool/gui/encryption/implpgp/KeyRingServicePgpImpl.java:183-194 | removeKey on a loaded ring: an event is posted exactly when some entry has the argument's identifier, and it is one "removed" event for the argument with the ring one entry shorter; otherwise nothing changes |
| `KeyRing.Add` | pgptool-gui/src/main/java/org/pgptool/gui/encryption/implpgp/KeyRingServicePgpImpl.java:150-167 | addKey on a loaded ring: refused as an invalid argument exactly when the identifier has no text; it completes only when the identifier is new or the stored entry is public-only and the key can decrypt; then the key is the last entry and "added" the last event. `AddByCase` and `AddKeepsUniqueIds` give the exact outcome |
| `KeyRing.RemoveFirstTakesOne` | pgptool-gui/src/main/java/org/pgptool/gui/encryption/implpgp/KeyRingServicePgpImpl.java:185-193 | removal is a no-op when nothing matches; otherwise exactly one entry, the first match, leaves the ring (length and multiset), even with repeated identifiers |
| `KeyRing.RemoveFirstIsDropId` | pgptool-gui/src/main/java/org/pgptool/gui/encryption/implpgp/KeyRingServicePgpImpl.java:185-193 | under I1, removing the first match equals keeping every entry with another identifier, in its old order |
| `KeyRing.RemoveKeepsUniqueIds` | pgptool-gui/src/main/java/org/pgptool/gui/encryption/implpgp/KeyRingServicePgpImpl.java:183-194 | removal keeps I1, and a lookup of the removed identifier afterwards finds nothing |
| `KeyRing.AddByCase` | pgptool-gui/src/main/java/org/pgptool/gui/encryption/implpgp/KeyRingServicePgpImpl.java:155-166 | under I1: a new identifier is appended with one "added" event; a public-only entry is replaced by a decryption-capable key (others kept in order, key last, "removed" for the old entry then "added"); any other clash is rejected as already added |
| `KeyRing.AddKeepsUniqueIds` | pgptool-gui/src/main/java/org/pgptool/gui/encryption/implpgp/KeyRingServicePgpImpl.java:155-166 | a completed add keeps I1; afterwards the lookup of the key's identifier returns the key, and it is the only entry with that identifier |
| `KeyRing.UpgradeThenDuplicate` | pgptool-gui/src/main/java/org/pgptool/gui/encryption/implpgp/KeyRingServicePgpImpl.java:155-162 | a public key upgraded by a secret key leaves one entry and posts "removed" then "added"; a second secret key with the same identifier is rejected |
| `Matching.IndexHolding` | pgptool-gui/src/main/java/org/pgptool/gui/encryption/implpgp/KeyRingServicePgpImpl.java:250-257 | the inner scan stops at the first key whose material holds the identifier, or runs off the end when none does |
| `Matching.Hit` | pgptool-gui/src/main/java/org/pgptool/gui/encryption/implpgp/KeyRingServicePgpImpl.java:248-258 | one requested identifier adds at most one key to the result |
| `Matching.HitHolds` | pgptool-gui/src/main/java/org/pgptool/gui/encryption/implpgp/KeyRingServicePgpImpl.java:250-257 | an identifier adds nothing exactly when no pool key holds it; what it adds is a pool key holding it |
| `Matching.Matches` | pgptool-gui/src/main/java/org/pgptool/gui/encryption/implpgp/KeyRingServicePgpImpl.java:245-260 | the result has at most one entry per requested identifier |
| `Matching.DecryptionKeys` | pgptool-gui/src/main/java/org/pgptool/gui/encryption/implpgp/KeyRingServicePgpImpl.java:223-224 | the searchable pool holds exactly the decryption-capable keys of the ring |
| `Matching.MatchesAppend` | pgptool-gui/src/main/java/org/pgptool/gui/encryption/implpgp/KeyRingServicePgpImpl.java:248-259 | matching a concatenation of identifier lists is the concatenation of the two results: identifiers contribute independently |
| `Matching.MatchesAt` | pgptool-gui/src/main/java/org/pgptool/gui/encryption/implpgp/KeyRingServicePgpImpl.java:248-259 | the j-th identifier contributes exactly its first holder, after the earlier identifiers' contributions and before the later ones |
| `Matching.MatchesSound` | pgptool-gui/src/main/java/org/pgptool/gui/encryption/implpgp/KeyRingServicePgpImpl.java:248-259 | every returned key is in the pool and holds one of the requested identifiers |
| `Matching.MatchesRepeats` | pgptool-gui/src/main/java/org/pgptool/gui/encryption/implpgp/KeyRingServicePgpImpl.java:248-259 | a key that is the first holder of two requested identifiers occurs at least twice in the result: no deduplication |
| `Matching.DecryptionHit` | pgptool-gui/src/main/java/org/pgptool/gui/encryption/implpgp/KeyRingServicePgpImpl.java:222-236 | after the filter, an identifier resolves to the first decryption-capable key in ring order that holds it |
| `Matching.MatchBySubkeyId` | pgptool-gui/src/main/java/org/pgptool/gui/encryption/implpgp/KeyRingServicePgpImpl.java:214-237 | a decryption-capable key is found through a subkey identifier other than its primary identifier, when it is the only decryption-capable holder of that identifier |
| `Matching.MatchScan` | pgptool-gui/src/main/java/org/pgptool/gui/encryption/implpgp/KeyRingServicePgpImpl.java:226-237 | the nested loop with its break computes the match result |
| `KeyRingServicePgp.KeyRingService.constructor` | pgptool-gui/src/main/java/org/pgptool/gui/encryption/implpgp/KeyRingServicePgpImpl.java:66-67 | a new service has read nothing yet, and the repository holds what was persisted before |
| `KeyRingServicePgp.KeyRingService.EnsureRead` | pgptool-gui/src/main/java/org/pgptool/gui/encryption/implpgp/KeyRingServicePgpImpl.java:76-91 | the first call loads the repository's ring and asks for key creation exactly when it is empty; later calls change nothing; one read in all |
| `KeyRingServicePgp.KeyRingService.ReadKeys` | pgptool-gui/src/main/java/org/pgptool/gui/encryption/implpgp/KeyRingServicePgpImpl.java:70-74 | returns the ring in stored order; nothing changes apart from the lazy load |
| `KeyRingServicePgp.KeyRingService.FindKeyById` | pgptool-gui/src/main/java/org/pgptool/gui/encryption/implpgp/KeyRingServicePgpImpl.java:170-180 | an identifier without text is refused before loading; otherwise the first entry with the identifier, or none; the ring is unchanged |
| `KeyRingServicePgp.KeyRingService.RemoveKey` | pgptool-gui/src/main/java/org/pgptool/gui/encryption/implpgp/KeyRingServicePgpImpl.java:183-194 | the first entry with the argument's identifier is taken out with one persist and one "removed" event for the argument; no match means no change, persist or event; I1 is kept |
| `KeyRingServicePgp.KeyRingService.AddKey` | pgptool-gui/src/main/java/org/pgptool/gui/encryption/implpgp/KeyRingServicePgpImpl.java:150-167 | completes exactly when the add function succeeds, with its ring and its events (one persist each); a refusal changes neither ring, repository nor events; I1 is kept |
| `KeyRingServicePgp.KeyRingService.FindMatchingKeys` | pgptool-gui/src/main/java/org/pgptool/gui/encryption/implpgp/KeyRingServicePgpImpl.java:242-261 | an empty identifier set is refused; otherwise the match result over the whole ring; the ring is unchanged |
| `KeyRingServicePgp.KeyRingService.FindMatchingDecryptionKeys` | pgptool-gui/src/main/java/org/pgptool/gui/encryption/implpgp/KeyRingServicePgpImpl.java:218-239 | an empty identifier set is refused; otherwise the match result over the decryption-capable keys, each of which can decrypt; the ring is unchanged |

## Left out

- The static registration of the BouncyCastle provider and `touch()`: a class-initialisation side effect of a foreign cryptography library.
- `dumpKeys`, `logPublicKey`, `logSecretKey` and all debug logging: they only walk BouncyCastle key-ring iterators to write log lines.
- `synchronized` and the double-checked locking of `ensureRead`: the model is single-threaded, so its `loaded` flag stands for the lock-protected null check. Thread safety is not verified.
- Persist failures and exceptions from the repository or the event bus: `persist` and `post` always succeed in the model. There is no rollback in the code either.
- `readOrConstruct` failing on a corrupt store: the model's repository always yields a ring.
- Event delivery to subscribers: the model only logs what is posted.
- `KeyDataPgp` (`buildKeyIdStr`, subkey identifier extraction, `isCanBeUsedForDecryption`, `isHasAlternativeId`) is not part of this model. Its two capabilities are the fields `canDecrypt` and `altIds` of a key. The key's user label, used only in log lines, is left out.
- The `null` and `instanceof KeyDataPgp` argument checks of `addKey`: a key value in the model always has its data, of the one kind modelled.
- Spring getters and setters: wiring only.
- The whitespace test follows current Unicode, so U+180E (a space separator in older Unicode versions) counts as text.
- Matching.DecryptionKeys: its contract states which keys the filter keeps, not their order. The order is stated by `Matching.DecryptionHit`.
- `CreateKeyView.java` (Swing dialog) and `MultipleFilesWatcher.java` (filesystem monitoring on library threads) are not part of this model.
