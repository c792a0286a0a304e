/**
 * The Whisper node (whisper/whisperv5/whisper.go): its key maps and its
 * envelope pool, updated in place. Each locked region of the source is one
 * atomic step here; `now` and the random buffers are parameters, and the
 * watcher notifications are recorded in the ghost log `notified`.
 */
module WhisperNode {
  import opened Wrappers
  import opened Bytes
  import opened EnvelopeChecks
  import opened EnvelopePool
  import opened KeyStore

  class Whisper {
    var privateKeys: map<string, PrivateKey>
    var symKeys: map<string, seq<byte>>
    var envelopes: map<Hash, Envelope>
    var messages: map<Hash, ReceivedMessage>
    var expirations: map<u32, set<Hash>>

    /** Every envelope handed to the watchers, in order. */
    ghost var notified: seq<Envelope>

    const cfg: Config
    const envOps: EnvelopeOps
    const keyOps: KeyOps
    const test: bool

    /** The pool maps as one value. */
    function State(): PoolState
      reads this
    {
      PoolState(envelopes, messages, expirations)
    }

    ghost predicate Valid()
      reads this
    {
      ConfigOk(cfg) && StableHash(envOps) && Indexed(envOps, State())
    }

    constructor (cfg: Config, envOps: EnvelopeOps, keyOps: KeyOps, test: bool)
      requires ConfigOk(cfg) && StableHash(envOps)
      ensures Valid()
      ensures this.cfg == cfg && this.envOps == envOps && this.keyOps == keyOps && this.test == test
      ensures privateKeys == map[] && symKeys == map[]
      ensures envelopes == map[] && messages == map[] && expirations == map[] && notified == []
    {
      this.cfg, this.envOps, this.keyOps, this.test := cfg, envOps, keyOps, test;
      privateKeys, symKeys := map[], map[];
      envelopes, messages, expirations := map[], map[], map[];
      notified := [];
    }

    // Identities.

    /**
     * NewIdentity: `first` and `retry` are the two results of crypto.GenerateKey;
     * the second is used only when the first failed or is invalid. A failure
     * after the retry is fatal (the source panics) and stores nothing.
     */
    method NewIdentity(first: Generated, retry: Generated) returns (r: Result<PrivateKey, Fatal>)
      modifies this`privateKeys
      ensures Usable(first) ==> r == Success(first.key)
      ensures !Usable(first) && Usable(retry) ==> r == Success(retry.key)
      ensures !Usable(first) && retry.GenerationFailed? ==> r == Failure(GeneratorFailed)
      ensures !Usable(first) && retry.Generated? && !Usable(retry) ==> r == Failure(InvalidGeneratedKey)
      ensures r.Success? ==> ValidatePrivateKey(Some(r.value))
      ensures r.Success? ==> privateKeys == old(privateKeys)[keyOps.pubKeyHex(r.value.publicKey) := r.value]
      ensures r.Failure? ==> privateKeys == old(privateKeys)
    {
      var gen := first;
      if gen.GenerationFailed? || !ValidatePrivateKey(Some(gen.key)) {
        gen := retry;
      }
      if gen.GenerationFailed? {
        return Failure(GeneratorFailed);
      }
      if !ValidatePrivateKey(Some(gen.key)) {
        return Failure(InvalidGeneratedKey);
      }
      privateKeys := privateKeys[keyOps.pubKeyHex(gen.key.publicKey) := gen.key];
      return Success(gen.key);
    }

    /** DeleteIdentity: removes the key if present. */
    method DeleteIdentity(key: string)
      modifies this`privateKeys
      ensures privateKeys == old(privateKeys) - {key}
      ensures !HasIdentity(key)
    {
      privateKeys := privateKeys - {key};
    }

    function HasIdentity(pubKey: string): bool
      reads this
    {
      pubKey in privateKeys
    }

    /** GetIdentity: the stored key, or nil (None) when there is none. */
    function GetIdentity(pubKey: string): (r: Option<PrivateKey>)
      reads this
      ensures r.Some? <==> HasIdentity(pubKey)
      ensures r.Some? ==> r.value == privateKeys[pubKey]
    {
      if pubKey in privateKeys then Some(privateKeys[pubKey]) else None
    }

    // Symmetric keys.

    /** The locked region shared by GenerateSymKey and AddSymKey: refuse a present name, else bind it. */
    method StoreSymKey(name: string, derived: seq<byte>) returns (err: Option<KeyError>)
      modifies this`symKeys
      ensures (symKeys, err) == Bind(old(symKeys), name, derived)
    {
      if name in symKeys {
        return Some(DuplicateName(name));
      }
      symKeys := symKeys[name := derived];
      return None;
    }

    /**
     * GenerateSymKey: `entropy` is what crand.Read delivers (None when it
     * fails), `weak` what randomize writes. The two are XOR-mixed in place,
     * split into key and salt, derived, validated, and stored under `name`
     * unless that name is already present.
     */
    method GenerateSymKey(name: string, entropy: Option<seq<byte>>, weak: seq<byte>) returns (err: Option<KeyError>)
      requires entropy.Some? ==> |entropy.value| == 2 * cfg.aesKeyLength
      requires |weak| == 2 * cfg.aesKeyLength
      modifies this`symKeys
      ensures entropy.None? ==> err == Some(RandomReadFailed)
      ensures entropy.Some? && !IsValidSymmetricKey(entropy.value) ==> err == Some(StrongRandomDegenerate)
      ensures entropy.Some? && IsValidSymmetricKey(entropy.value) && !IsValidSymmetricKey(weak)
        ==> err == Some(WeakRandomDegenerate)
      ensures var mixed := if entropy.Some? then Xor(entropy.value, weak) else weak;
              var derived := keyOps.deriveOneTimeKey(mixed[..cfg.aesKeyLength], mixed[cfg.aesKeyLength..], cfg.envelopeVersion);
              && (err.None? <==>
                    && entropy.Some? && IsValidSymmetricKey(entropy.value) && IsValidSymmetricKey(weak)
                    && derived.Some? && IsValidSymmetricKey(derived.value)
                    && name !in old(symKeys))
              && (err.None? ==> symKeys == old(symKeys)[name := derived.value])
      ensures var mixed := if entropy.Some? then Xor(entropy.value, weak) else weak;
              var derived := keyOps.deriveOneTimeKey(mixed[..cfg.aesKeyLength], mixed[cfg.aesKeyLength..], cfg.envelopeVersion);
              entropy.Some? && IsValidSymmetricKey(entropy.value) && IsValidSymmetricKey(weak)
              ==> && (derived.None? ==> err == Some(DerivationFailed))
                  && (derived.Some? && !IsValidSymmetricKey(derived.value) ==> err == Some(DerivedKeyInvalid))
                  && (derived.Some? && IsValidSymmetricKey(derived.value) && name in old(symKeys)
                      ==> err == Some(DuplicateName(name)))
      ensures name in old(symKeys) ==> err.Some?
      ensures err.Some? ==> symKeys == old(symKeys)
    {
      var size := cfg.aesKeyLength * 2;
      var buf := new byte[size];
      var buf2 := new byte[size];
      if entropy.None? {
        return Some(RandomReadFailed);
      }
      forall i | 0 <= i < size {
        buf[i] := entropy.value[i];
      }
      assert buf[..] == entropy.value;
      var ok := ValidateSymmetricKey(buf[..]);
      if !ok {
        return Some(StrongRandomDegenerate);
      }

      forall i | 0 <= i < size {
        buf2[i] := weak[i];
      }
      assert buf2[..] == weak;
      ok := ValidateSymmetricKey(buf2[..]);
      if !ok {
        return Some(WeakRandomDegenerate);
      }

      for i := 0 to size
        invariant symKeys == old(symKeys)
        invariant buf2[..] == weak
        invariant forall j :: 0 <= j < i ==> buf[j] == entropy.value[j] ^ weak[j]
        invariant forall j :: i <= j < size ==> buf[j] == entropy.value[j]
      {
        buf[i] := buf[i] ^ buf2[i];
      }
      assert buf[..] == Xor(entropy.value, weak);

      var key := buf[..cfg.aesKeyLength];
      var salt := buf[cfg.aesKeyLength..];
      var derived := keyOps.deriveOneTimeKey(key, salt, cfg.envelopeVersion);
      if derived.None? {
        return Some(DerivationFailed);
      }
      ok := ValidateSymmetricKey(derived.value);
      if !ok {
        return Some(DerivedKeyInvalid);
      }
      err := StoreSymKey(name, derived.value);
    }

    /**
     * AddSymKey: refuses a present name before the slow derivation and again
     * under the lock; an unknown envelope version is an error.
     */
    method AddSymKey(name: string, key: seq<byte>) returns (err: Option<KeyError>)
      modifies this`symKeys
      ensures name in old(symKeys) ==> err == Some(DuplicateName(name))
      ensures name !in old(symKeys) && cfg.envelopeVersion != 0 ==> err == Some(UnknownVersion(cfg.envelopeVersion))
      ensures err.None? <==> name !in old(symKeys) && cfg.envelopeVersion == 0
      ensures err.None? ==> symKeys == old(symKeys)[name := keyOps.pbkdf2(key, [], KdfIterations, cfg.aesKeyLength)]
      ensures err.Some? ==> symKeys == old(symKeys)
    {
      if HasSymKey(name) {
        return Some(DuplicateName(name));
      }
      var derived := DeriveKeyMaterial(keyOps, key, cfg.envelopeVersion, cfg.aesKeyLength);
      if derived.Failure? {
        return Some(derived.error);
      }
      err := StoreSymKey(name, derived.value);
    }

    function HasSymKey(name: string): bool
      reads this
    {
      name in symKeys
    }

    /** DeleteSymKey: removes the key if present. */
    method DeleteSymKey(name: string)
      modifies this`symKeys
      ensures symKeys == old(symKeys) - {name}
      ensures !HasSymKey(name)
    {
      symKeys := symKeys - {name};
    }

    /** GetSymKey: the stored key, or nil (None) when there is none. */
    function GetSymKey(name: string): (r: Option<seq<byte>>)
      reads this
      ensures r.Some? <==> HasSymKey(name)
      ensures r.Some? ==> r.value == symKeys[name]
    {
      if name in symKeys then Some(symKeys[name]) else None
    }

    // The envelope pool.

    /** postEvent: only envelopes of a supported version reach the watchers. */
    method PostEvent(envelope: Envelope)
      modifies this`notified
      ensures notified == old(notified) + (if envOps.ver(envelope) <= cfg.envelopeVersion then [envelope] else [])
    {
      if envOps.ver(envelope) <= cfg.envelopeVersion {
        notified := notified + [envelope];
      }
    }

    /**
     * The checks of `add`, in the order the source makes them, as the
     * statements and early returns of the source; EnvelopeChecks.Admission is
     * their specification, and the verdict is proved equal to it.
     */
    method Check(now: u32, envelope: Envelope) returns (v: Verdict)
      requires ConfigOk(cfg)
      ensures v == Admission(envOps, cfg, test, now, envelope)
    {
      var e := envelope;
      var sent := Sub32(e.expiry, e.ttl);
      if sent > now {
        if Sub32(sent, cfg.synchAllowance) > now {
          return Reject(FutureMessage);
        } else {
          e := e.(pow := envOps.calculatePoW(e, Add32(Sub32(sent, now), 1)));
        }
      }
      assert e == Rescored(envOps, cfg, now, envelope);

      if e.expiry < now {
        if Add32(e.expiry, DoubleAllowance(cfg)) < now {
          return Reject(VeryOldMessage);
        } else {
          return Drop(Expired);
        }
      }

      if |e.data| > cfg.maxMessageLength {
        return Reject(HugeMessage);
      }
      if |e.version| > 4 {
        return Reject(OversizedVersion);
      }
      if |e.aesNonce| > cfg.aesNonceMaxLength {
        return Reject(OversizedAESNonce);
      }
      if |e.salt| > cfg.saltLength {
        return Reject(OversizedSalt);
      }

      if e.pow < cfg.minimumPoW && !test {
        return Drop(LowPoW);
      }
      return Accept(e);
    }

    /**
     * add, at time `now`: the result, the new pool and the notifications are
     * those of EnvelopePool.Add, and the pool stays indexed.
     */
    method Add(now: u32, envelope: Envelope) returns (err: Option<AddError>)
      requires Valid()
      modifies this`envelopes, this`expirations, this`notified
      ensures Valid()
      ensures var r := EnvelopePool.Add(envOps, cfg, test, now, old(State()), envelope);
              State() == r.pool && err == r.err && notified == old(notified) + r.posted
    {
      ghost var p0 := State();
      AddPreservesIndexed(envOps, cfg, test, now, p0, envelope);
      var v := Check(now, envelope);
      match v {
        case Reject(reason) =>
          return Some(reason);
        case Drop(_) =>
          return None;
        case Accept(e) =>
          CommitAccepted(envOps, cfg, p0, e);
          var hash := envOps.hash(e);
          var alreadyCached := CacheEnvelope(hash, e);
          if !alreadyCached {
            PostEvent(e);
          }
          return None;
      }
    }

    /** The pool-locked region of `add`: file the envelope under `hash` unless that hash is already pooled. */
    method CacheEnvelope(hash: Hash, e: Envelope) returns (alreadyCached: bool)
      modifies this`envelopes, this`expirations
      ensures alreadyCached == (hash in old(envelopes))
      ensures alreadyCached ==> State() == old(State())
      ensures !alreadyCached ==> State() == Cache(old(State()), hash, e)
    {
      alreadyCached := hash in envelopes;
      if !alreadyCached {
        envelopes := envelopes[hash := e];
        if e.expiry !in expirations {
          expirations := expirations[e.expiry := {}];
        }
        if hash !in expirations[e.expiry] {
          expirations := expirations[e.expiry := expirations[e.expiry] + {hash}];
        }
        if e.expiry in old(expirations) && hash in old(expirations)[e.expiry] {
          assert old(expirations)[e.expiry] + {hash} == old(expirations)[e.expiry];
        }
        assert expirations == old(expirations)[e.expiry := Bucket(old(expirations), e.expiry) + {hash}];
      }
    }

    /**
     * expire, at time `now`: every bucket at or before `now` has its hashes
     * deleted from both maps and is emptied; later buckets are skipped.
     */
    method Expire(now: u32)
      requires Valid()
      modifies this`envelopes, this`messages, this`expirations
      ensures Valid()
      ensures State() == Sweep(old(State()), now)
    {
      ghost var p0 := State();
      SweepPreservesIndexed(envOps, p0, now);
      SweepOverNothing(p0, now);
      var pending := expirations.Keys;
      ghost var done: set<u32> := {};
      while pending != {}
        invariant pending <= p0.expirations.Keys && done == p0.expirations.Keys - pending
        invariant State() == SweepOver(p0, done, now)
        decreases pending
      {
        var stamp :| stamp in pending;
        ghost var q := State();
        SweepOverStep(p0, done, stamp, now);
        pending := pending - {stamp};
        done := done + {stamp};
        if stamp > now {
          continue;
        }
        assert expirations[stamp] == p0.expirations[stamp];
        DropAll(expirations[stamp]);
        expirations := expirations[stamp := {}];
        assert State() == PoolState(q.envelopes - p0.expirations[stamp], q.messages - p0.expirations[stamp], q.expirations[stamp := {}]);
      }
      assert done == p0.expirations.Keys;
    }

    /** The inner loop of `expire`: deletes every hash of `hashes` from the envelope and message maps. */
    method DropAll(hashes: set<Hash>)
      modifies this`envelopes, this`messages
      ensures envelopes == old(envelopes) - hashes
      ensures messages == old(messages) - hashes
    {
      var rest := hashes;
      while rest != {}
        invariant rest <= hashes
        invariant envelopes == old(envelopes) - (hashes - rest)
        invariant messages == old(messages) - (hashes - rest)
        decreases rest
      {
        var h :| h in rest;
        envelopes := envelopes - {h};
        messages := messages - {h};
        rest := rest - {h};
      }
    }

    /** Envelopes: a snapshot holding each pooled envelope exactly once. */
    method Envelopes() returns (all: seq<Envelope>)
      requires Valid()
      ensures |all| == |envelopes|
      ensures forall h :: h in envelopes ==> envelopes[h] in all
      ensures forall i :: 0 <= i < |all| ==> envOps.hash(all[i]) in envelopes && envelopes[envOps.hash(all[i])] == all[i]
      ensures forall i, j :: 0 <= i < j < |all| ==> all[i] != all[j]
    {
      all := [];
      var rest := envelopes.Keys;
      while rest != {}
        invariant rest <= envelopes.Keys
        invariant |all| + |rest| == |envelopes|
        invariant forall h :: h in envelopes && h !in rest ==> envelopes[h] in all
        invariant forall i :: 0 <= i < |all| ==>
          envOps.hash(all[i]) in envelopes && envOps.hash(all[i]) !in rest && envelopes[envOps.hash(all[i])] == all[i]
        invariant forall i, j :: 0 <= i < j < |all| ==> all[i] != all[j]
        decreases rest
      {
        var h :| h in rest;
        all := all + [envelopes[h]];
        rest := rest - {h};
      }
    }

    /** addDecryptedMessage: files the message under its envelope's hash, whether or not that envelope is still pooled. */
    method AddDecryptedMessage(msg: ReceivedMessage)
      requires Valid()
      modifies this`messages
      ensures Valid()
      ensures messages == old(messages)[msg.envelopeHash := msg]
    {
      messages := messages[msg.envelopeHash := msg];
    }
  }
}
