# Whisper v5 node — a Dafny model

This project models the in-memory state machine of the Whisper v5 node
(`whisper/whisperv5/whisper.go`) and proves properties about it. The node has
three parts, and the model follows them:

- **Envelope admission (`add`).** An incoming envelope goes through a series of
  checks in a fixed order:
  - a clock-skew window on its send time `Expiry - TTL`;
  - size limits on four fields;
  - a proof-of-work gate that test mode switches off.

  An envelope that passes is filed in a content-addressed pool and in an
  expiry-timestamp index. Each call ends in one of three ways: an error, a
  silent drop, or an insert.
- **The expiration sweep (`expire`).** It removes from both pools (`envelopes`
  and `messages`) every hash in a bucket at or before `now`, then empties that
  bucket but keeps it. The node class also models the `Envelopes` snapshot and
  `addDecryptedMessage`.
- **The key store.** It holds two maps: `privateKeys` (identities) and
  `symKeys`. Neither symmetric-key insert path overwrites a name that is
  already present. `GenerateSymKey` mixes two random buffers with an in-place
  XOR loop.

The pure helpers are modelled as well:

- key validation;
- the little-endian and big-endian byte-to-`uint64` decoders;
- the version dispatch of `deriveKeyMaterial`.

## Files

**`bytes.dfy`** (module `Bytes`) holds:

- the `uint32` and `uint64` types;
- wrapping `uint32` subtraction and addition;
- `containsOnlyZeros`, as a loop, and `validateSymmetricKey`, which calls it;
- the two decoders, as loops proved against the unbounded readings
  `LittleEndian` and `BigEndian` taken modulo 2^64.

**`envelope.dfy`** (module `EnvelopeChecks`) holds:

- the envelope;
- the node's constants, as a `Config` value;
- the envelope collaborators, as abstract functions: `Hash`, `calculatePoW`
  and `Ver`;
- `Admission`, the pure verdict of `add`'s checks, written in the source's
  order.

**`pool.dfy`** (module `EnvelopePool`) holds:

- the pool as a value;
- its index invariant, `Indexed`;
- the effect of `add` as a function: `Add` = `Commit` of `Admission`;
- the sweep of `expire`;
- lemmas about these.

**`keystore.dfy`** (module `KeyStore`) holds:

- ECDSA key validity;
- `deriveKeyMaterial`;
- the XOR mix;
- the refuse-to-overwrite insertion `Bind`;
- lemmas about serialised insertions.

**`node.dfy`** (module `WhisperNode`) holds the class `Whisper`, which keeps
the five maps as fields and updates them in place:

- each method is proved against the functions above;
- `Valid()` (the index invariant) is preserved by every pool operation;
- the watcher notifications of `postEvent` go into the ghost log `notified`.

### Modelling decisions

- **Timestamps** are Go `uint32`, and the subtractions and additions in `add`
  wrap modulo 2^32. The model reproduces this exactly (`Sub32`, `Add32`).
  The lemmas `FutureDated`, `ExpiredEnvelope`, `SkewBoundaries`, `SizeLimits`
  and `PoWGate` then restate the rules in plain integers under a no-wrap
  precondition, `NoWrap`:
  - `TTL <= Expiry`;
  - `sent >= SynchAllowance`;
  - `Expiry + 2*SynchAllowance < 2^32`.
- **`SynchAllowance*2`** is a Go constant expression. It must fit a `uint32`,
  which is `ConfigOk`.
- **The current time** `now` is a parameter. So are the node's constants:
  `SynchAllowance`, `MaxMessageLength`, `AESNonceMaxLength`, `saltLength`,
  `MinimumPoW`, `EnvelopeVersion` and `aesKeyLength`.
- **Randomness.** The random buffers of `GenerateSymKey` are parameters:
  - `entropy` is what `crand.Read` delivers (`None` when it fails);
  - `weak` is what `randomize` writes.
- **Key generation.** The two results of `crypto.GenerateKey` in
  `NewIdentity` are parameters too.
- **Content hash.** `Envelope.Hash()` is abstract, constrained only by
  `StableHash`: it does not depend on the PoW score, which `add` may
  recompute. The node's `Valid()` includes this constraint.
- **Map presence.** Go's `m[k] != nil` is modelled as `k in m`. The node never
  stores a nil value.
- **Proof of work.** `PoW()` is the envelope's `pow` field, a `real`, and
  `calculatePoW` replaces it. Only comparisons of `pow` are used.
- **Locks.** Each locked region is one atomic step:
  - `StoreSymKey` is the key-lock region shared by `AddSymKey` and
    `GenerateSymKey`;
  - `CacheEnvelope` is the pool-lock region of `add`.
- **`AddSymKey`'s duplicate test under the lock** cannot fire in a sequential
  model. `SameNameInsertions` states what it protects: serialised insertions
  under one fresh name, in any order, store exactly one key.

## Model

| member | source | states |
|---|---|---|
| Bytes.Sub32 | whisper/whisperv5/whisper.go:279 | `uint32` subtraction: the exact difference when there is no underflow, otherwise the difference plus 2^32 |
| Bytes.Add32 | whisper/whisperv5/whisper.go:291 | `uint32` addition: the exact sum when it fits, otherwise the sum minus 2^32 |
| Bytes.ContainsOnlyZeros | whisper/whisperv5/whisper.go:447-454 | true exactly when every byte is zero; false exactly when some byte is non-zero |
| Bytes.ValidateSymmetricKey | whisper/whisperv5/whisper.go:443-445 | true exactly when the key is non-empty and has a non-zero byte, that is, when it is non-empty and `containsOnlyZeros` is false |
| Bytes.BytesToIntLittleEndian | whisper/whisperv5/whisper.go:456-463 | the result is the little-endian value of all the bytes modulo 2^64, which is the wrap of the `uint64` accumulators |
| Bytes.BytesToIntBigEndian | whisper/whisperv5/whisper.go:465-471 | the result is the big-endian value of all the bytes modulo 2^64 |
| Bytes.LittleEndianBound | whisper/whisperv5/whisper.go:456-463 | a little-endian value of n bytes is below 256^n |
| Bytes.LittleEndianAppend | whisper/whisperv5/whisper.go:456-463 | appending bytes adds their value scaled by 256^(length of the prefix) |
| Bytes.BigEndianAppend | whisper/whisperv5/whisper.go:465-471 | appending bytes scales the earlier value by 256^(number of appended bytes) |
| Bytes.BigEndianIsReversedLittleEndian | whisper/whisperv5/whisper.go:456-471 | the two decoders read the same value from reversed byte orders |
| Bytes.LittleEndianExactUpToEight | whisper/whisperv5/whisper.go:456-463 | on at most eight bytes, the little-endian decoder is exact |
| Bytes.LittleEndianKeepsFirstEight | whisper/whisperv5/whisper.go:456-463 | on longer inputs, only the first eight bytes count |
| Bytes.BigEndianExactUpToEight | whisper/whisperv5/whisper.go:465-471 | on at most eight bytes, the big-endian decoder is exact |
| Bytes.BigEndianKeepsLastEight | whisper/whisperv5/whisper.go:465-471 | on longer inputs, only the last eight bytes count |
| Bytes.Pow256Add | whisper/whisperv5/whisper.go:456-463 | powers of 256 multiply: 256^(m+n) = 256^m · 256^n |
| EnvelopeChecks.Sent | whisper/whisperv5/whisper.go:279 | `sent = Expiry - TTL` is the exact difference when `TTL <= Expiry`, and wraps by 2^32 otherwise |
| EnvelopeChecks.Rescored | whisper/whisperv5/whisper.go:281-287 | the time-skew recomputation changes only the PoW score of the envelope |
| EnvelopeChecks.RescoreWindow | whisper/whisperv5/whisper.go:281-287 | without wrap-around, the score becomes `calculatePoW(sent - now + 1)` exactly when `now < sent <= now + SynchAllowance`; otherwise the envelope is untouched |
| EnvelopeChecks.Admission | whisper/whisperv5/whisper.go:278-319 | the verdict of `add`'s checks; an accepted envelope differs from the input only in its score, is not expired, is within every size bound, and meets `MinimumPoW` unless in test mode |
| EnvelopeChecks.FutureDated | whisper/whisperv5/whisper.go:279-283 | without wrap-around, `add` rejects as future-dated exactly when `sent - SynchAllowance > now` |
| EnvelopeChecks.ExpiredEnvelope | whisper/whisperv5/whisper.go:290-296 | without wrap-around, an envelope with `Expiry < now` is rejected when `Expiry + 2*SynchAllowance < now` and otherwise dropped silently |
| EnvelopeChecks.SkewBoundaries | whisper/whisperv5/whisper.go:279-296 | at the edges of the window: `sent = now + allowance + 1` is rejected; `sent = now + allowance - 1` passes the future check and is rescored with `calculatePoW(allowance)`; one second expired is dropped; `2*allowance + 1` seconds expired is rejected |
| EnvelopeChecks.SizeLimits | whisper/whisperv5/whisper.go:298-314 | inside the window, each size error happens exactly when its field is over its bound and the earlier fields are not; a rejection happens exactly when some field is over its bound, so a field at its bound is accepted |
| EnvelopeChecks.PoWGate | whisper/whisperv5/whisper.go:316-319 | outside test mode, a well-formed timely envelope is dropped for low PoW exactly when its score is below `MinimumPoW`; in test mode it is accepted |
| EnvelopeChecks.TestModeOnlyLiftsPoWGate | whisper/whisperv5/whisper.go:316-319 | test mode and normal mode agree except that a low-PoW drop becomes an acceptance |
| EnvelopePool.Cache | whisper/whisperv5/whisper.go:324-333 | the filed envelope is stored under its hash and its hash is in the bucket of its expiry; every other envelope, every existing bucket member and the messages are kept |
| EnvelopePool.Add | whisper/whisperv5/whisper.go:277-343 | `add` as checks then commit: the result is an error exactly when a check rejects; the pool changes and an event is posted only for an accepted envelope; messages never change |
| EnvelopePool.Commit | whisper/whisperv5/whisper.go:321-342 | after the checks: an error leaves the pool unchanged and posts nothing; messages never change; existing entries are kept; at most one envelope is added; at most one event is posted, and only when the pool changed |
| EnvelopePool.CommitKeys | whisper/whisperv5/whisper.go:321-333 | the pooled hashes grow exactly by the hash of an accepted envelope |
| EnvelopePool.AddWithoutAdmission | whisper/whisperv5/whisper.go:278-319 | an envelope that is not accepted leaves the pool unchanged and posts nothing; the result is an error exactly on a rejection and nil on a drop |
| EnvelopePool.AddAdmitted | whisper/whisperv5/whisper.go:321-342 | after an accepted envelope: its hash is pooled and the result is nil. If the hash was already pooled, nothing changes and no event is posted. Otherwise `envelopes[hash]` is the envelope, no other key changes, the hash is in the bucket of its `Expiry` (created if absent), no other bucket changes, and exactly one event is posted, if `Ver() <= EnvelopeVersion` |
| EnvelopePool.CommitAccepted | whisper/whisperv5/whisper.go:321-342 | the same insert effects, stated for the locked region given an accepted envelope |
| EnvelopePool.CachePreservesIndexed | whisper/whisperv5/whisper.go:324-333 | filing a new envelope under its hash keeps the pool indexed |
| EnvelopePool.CommitPreservesIndexed | whisper/whisperv5/whisper.go:321-333 | the locked region of `add` keeps the pool indexed |
| EnvelopePool.AddPreservesIndexed | whisper/whisperv5/whisper.go:277-343 | `add` keeps every pooled hash in the bucket of its envelope's expiry, and every bucket hash pooled with that expiry |
| EnvelopePool.AddIdempotent | whisper/whisperv5/whisper.go:324-342 | adding the same envelope twice at the same time, for any hash function: the second call changes nothing, returns the same result and posts no event (`AddIdempotentAcrossTimes` covers different times) |
| EnvelopePool.AddIdempotentAcrossTimes | whisper/whisperv5/whisper.go:321-342 | with a content hash that does not depend on the PoW score, an envelope admitted once is a no-op when added again at any time: the pool is unchanged, nothing is posted, and the result is nil unless the second call rejects it |
| EnvelopePool.CommitAllKeys | whisper/whisperv5/whisper.go:321-333 | after a run of commits, the pooled hashes are the old ones plus the hashes of the accepted envelopes |
| EnvelopePool.AdmittedHashesOf | whisper/whisperv5/whisper.go:321-333 | every admitted hash belongs to some accepted verdict of the run |
| EnvelopePool.DistinctAdmittedHashes | whisper/whisperv5/whisper.go:321-333 | accepted verdicts with pairwise distinct hashes give that many admitted hashes |
| EnvelopePool.DistinctAdmissionsAllPooled | whisper/whisperv5/whisper.go:321-333 | N accepted envelopes with distinct, new hashes leave exactly N more pooled envelopes |
| EnvelopePool.SweepOver | whisper/whisperv5/whisper.go:381-393 | the pool after the loop has processed some buckets: the bucket keys are unchanged, entries are only removed, and unprocessed buckets are unchanged |
| EnvelopePool.Sweep | whisper/whisperv5/whisper.go:376-394 | the pool after `expire`: the bucket keys are unchanged, entries are only removed, every bucket at or before `now` is empty and every later one unchanged |
| EnvelopePool.SweepOverNothing | whisper/whisperv5/whisper.go:381 | before any bucket is processed, the pool is unchanged |
| EnvelopePool.SweepOverStep | whisper/whisperv5/whisper.go:381-393 | one more bucket: a due bucket loses its hashes from both maps and is emptied; a future one is skipped |
| EnvelopePool.SweepClearsDueBuckets | whisper/whisperv5/whisper.go:380-393 | after a sweep: every bucket at or before `now` is empty; no hash such a bucket held is in `envelopes` or `messages`; later buckets, and entries reachable only through them, are unchanged; the bucket keys are unchanged |
| EnvelopePool.SweepKeepsLive | whisper/whisperv5/whisper.go:376-394 | on an indexed pool, a sweep keeps exactly the envelopes whose expiry is after `now` |
| EnvelopePool.SweepPreservesIndexed | whisper/whisperv5/whisper.go:376-394 | the sweep keeps the pool indexed |
| EnvelopePool.SweepCompose | whisper/whisperv5/whisper.go:376-394 | a sweep at `a` followed by one at a later `b` is a single sweep at `b`; sweeping twice at the same time is sweeping once |
| KeyStore.ValidatePublicKey | whisper/whisperv5/whisper.go:431-433 | a nil key is invalid; otherwise both coordinates must be present and non-zero |
| KeyStore.ValidatePrivateKey | whisper/whisperv5/whisper.go:435-440 | a valid private key exists and its public key is valid |
| KeyStore.KeyValidity | whisper/whisperv5/whisper.go:431-440 | a private key is valid exactly when its scalar and both public coordinates are present and non-zero; a nil key is invalid; a valid private key has a valid public key |
| KeyStore.DeriveKeyMaterial | whisper/whisperv5/whisper.go:475-484 | it fails exactly when the version is not 0, with the unknown-version error; on version 0 it is pbkdf2 with no salt and 65356 iterations |
| KeyStore.Xor | whisper/whisperv5/whisper.go:175-177 | the mix has the length of its inputs |
| KeyStore.XorUndo | whisper/whisperv5/whisper.go:175-177 | mixing with the same weak buffer twice restores the strong buffer |
| KeyStore.XorKeepsStrongDistinct | whisper/whisperv5/whisper.go:175-177 | for a fixed weak buffer, distinct strong buffers give distinct mixes |
| KeyStore.Bind | whisper/whisperv5/whisper.go:188-194 | a present name is refused with a duplicate-name error and nothing changes; otherwise the name is bound to the key and no other entry changes |
| KeyStore.BindAllBound | whisper/whisperv5/whisper.go:209-214 | once a name is bound, every further insertion under it fails and changes nothing |
| KeyStore.SameNameInsertions | whisper/whisperv5/whisper.go:198-216 | serialised insertions under one fresh name: the first stores its key and all the others fail with a duplicate-name error |
| WhisperNode.Whisper.constructor | whisper/whisperv5/whisper.go:65-77 | a new node has empty maps and an empty notification log, and is valid |
| WhisperNode.Whisper.NewIdentity | whisper/whisperv5/whisper.go:120-135 | a usable first key is stored, else a usable retry; otherwise the fatal outcome of the retry, and nothing is stored. A stored key is valid, and it is bound under the hex of its public key |
| WhisperNode.Whisper.DeleteIdentity | whisper/whisperv5/whisper.go:138-142 | the key is removed, nothing else changes, and afterwards `HasIdentity` is false |
| WhisperNode.Whisper.HasIdentity | whisper/whisperv5/whisper.go:146-150 | whether a key is stored under the public key (the nil test of the source) |
| WhisperNode.Whisper.GetIdentity | whisper/whisperv5/whisper.go:146-157 | there is a result exactly when `HasIdentity` holds, and it is the stored key |
| WhisperNode.Whisper.StoreSymKey | whisper/whisperv5/whisper.go:188-194 | the key-lock region: the new map and the result are those of `Bind` |
| WhisperNode.Whisper.GenerateSymKey | whisper/whisperv5/whisper.go:159-195 | each failure gives its own error: the random read, a degenerate strong buffer, a degenerate weak buffer, failed derivation, a derived key that is invalid, or a duplicate name. Success happens exactly when none of these occurs, and then the name is bound to the key derived from the XOR mix split into key and salt. A present name always gives an error. On any error `symKeys` is unchanged |
| WhisperNode.Whisper.AddSymKey | whisper/whisperv5/whisper.go:198-216 | a present name gives a duplicate-name error; an unknown envelope version gives its error. Success happens exactly when the name is new and the version is 0, and then the name is bound to the pbkdf2 key. On any error `symKeys` is unchanged |
| WhisperNode.Whisper.HasSymKey | whisper/whisperv5/whisper.go:219-223 | whether a key is stored under the name (the nil test of the source) |
| WhisperNode.Whisper.DeleteSymKey | whisper/whisperv5/whisper.go:225-229 | the key is removed, nothing else changes, and afterwards `HasSymKey` is false |
| WhisperNode.Whisper.GetSymKey | whisper/whisperv5/whisper.go:219-235 | there is a result exactly when `HasSymKey` holds, and it is the stored key |
| WhisperNode.Whisper.PostEvent | whisper/whisperv5/whisper.go:346-354 | the envelope is appended to the notification log exactly when `Ver() <= EnvelopeVersion` |
| WhisperNode.Whisper.Check | whisper/whisperv5/whisper.go:278-319 | the checks of `add`, run in place, give the verdict `Admission` specifies |
| WhisperNode.Whisper.Add | whisper/whisperv5/whisper.go:277-343 | the result, the new pool and the notifications are those of `EnvelopePool.Add`, and the pool stays indexed |
| WhisperNode.Whisper.CacheEnvelope | whisper/whisperv5/whisper.go:323-333 | reports whether the hash was already pooled; if it was, the pool is unchanged; otherwise the envelope is filed as `Cache` specifies |
| WhisperNode.Whisper.Expire | whisper/whisperv5/whisper.go:376-394 | the new pool is `Sweep` of the old one at `now`, and it stays indexed |
| WhisperNode.Whisper.DropAll | whisper/whisperv5/whisper.go:387-391 | the hashes of one bucket are removed from both `envelopes` and `messages` |
| WhisperNode.Whisper.Envelopes | whisper/whisperv5/whisper.go:397-406 | the snapshot has one entry per pooled envelope; every pooled envelope is in it; every entry is pooled under its own hash; there are no repeats |
| WhisperNode.Whisper.AddDecryptedMessage | whisper/whisperv5/whisper.go:424-429 | the message is filed under its envelope's hash, replacing any earlier one, and the pool stays indexed |

## Left out

- Goroutines, the expiration ticker and the quit channel (`update`, `Start`,
  `Stop`). The `go` in `postEvent` becomes an entry in the ghost log.
- The read/write mutexes. Each locked region is one atomic step, so
  interleavings inside `add` and `AddSymKey` are not modelled.
  `SameNameInsertions` and `DistinctAdmissionsAllPooled` cover the serialised
  outcomes.
- The cryptographic and random collaborators are abstract functions or
  parameters: `pbkdf2.Key`, `crypto.GenerateKey`, `crand.Read`, `randomize`,
  `common.ToHex`/`FromECDSAPub`, `Envelope.Hash`, `calculatePoW`, `Ver` and
  `DeriveOneTimeKey`. `envelope.go` and `message.go` are not part of this
  model.
- `PoW()` is a floating-point score. It is a `real` here, and its lazy first
  computation is folded into the field.
- Aliasing of the envelope pointer:
  - in the source, the time-skew recomputation of the PoW score also changes
    the caller's envelope object, even when a later check rejects it;
  - here the rescored copy is what gets pooled, and the caller's value is
    untouched.
- `Messages(id)`, `Watch`, `Unwatch`, `GetFilter`: the filter collaborator is
  not part of this model. `Send` only forwards to `add`.
- `getPeer` and `MarkPeerTrusted`: they depend on peer identities that are not
  part of this model.
- `Protocols`, `Version`, the protocol wiring, the random seeding in
  `NewWhisper`, logging, and the mail-server field.
- Panics:
  - `NewIdentity`'s panics are the `Fatal` outcomes;
  - `GenerateSymKey`'s buffers are fixed by its preconditions at
    `2*aesKeyLength` bytes, which is what `crand.Read` and `randomize` fill.
- WhisperNode.Whisper.Envelopes: the order of the snapshot follows Go's map
  iteration and is unspecified. The entries alias the pooled envelopes in the
  source and are values here.
- WhisperNode.Whisper.AddDecryptedMessage does not consult `envelopes`. A
  message filed after a sweep has removed its envelope is in no bucket, so no
  later `expire` removes it. The model shows this behaviour and does not
  correct it.
