/**
 * Envelopes and the admission rules of Whisper's `add`
 * (whisper/whisperv5/whisper.go:277-319): the clock-skew window, the field
 * size limits and the proof-of-work gate, decided before the pool is touched.
 */
module EnvelopeChecks {
  import opened Bytes

  /** A content hash (common.Hash). */
  type Hash = seq<byte>

  /**
   * The fields of an envelope that the node looks at. `pow` is the score
   * PoW() reports; calculatePoW replaces it.
   */
  datatype Envelope = Envelope(
    expiry: u32,
    ttl: u32,
    topic: seq<byte>,
    data: seq<byte>,
    version: seq<byte>,
    aesNonce: seq<byte>,
    salt: seq<byte>,
    envNonce: u64,
    pow: real)

  /** A decrypted message; only its back-reference to the envelope is used here. */
  datatype ReceivedMessage = ReceivedMessage(envelopeHash: Hash, payload: seq<byte>)

  /**
   * The package constants the node reads: SynchAllowance, MaxMessageLength,
   * AESNonceMaxLength, saltLength, MinimumPoW, EnvelopeVersion and aesKeyLength.
   */
  datatype Config = Config(
    synchAllowance: u32,
    maxMessageLength: nat,
    aesNonceMaxLength: nat,
    saltLength: nat,
    minimumPoW: real,
    envelopeVersion: u64,
    aesKeyLength: nat)

  /** SynchAllowance*2 is a Go constant expression and must itself fit a uint32. */
  predicate ConfigOk(cfg: Config)
  {
    2 * cfg.synchAllowance as int < TWO32
  }

  function DoubleAllowance(cfg: Config): (r: u32)
    requires ConfigOk(cfg)
    ensures r as int == 2 * cfg.synchAllowance as int
  {
    (2 * cfg.synchAllowance as int) as u32
  }

  /** The envelope methods the node calls and that are not part of this model. */
  datatype EnvelopeOps = EnvelopeOps(
    hash: Envelope -> Hash,               // Envelope.Hash()
    calculatePoW: (Envelope, u32) -> real, // the score calculatePoW(diff) stores
    ver: Envelope -> u64)                 // Envelope.Ver()

  /**
   * Envelope.Hash() is a content hash of the envelope's fields; the PoW score
   * is derived from them and is not one of its inputs.
   */
  ghost predicate StableHash(ops: EnvelopeOps)
  {
    forall x: Envelope, s: real {:trigger ops.hash(x.(pow := s))} :: ops.hash(x.(pow := s)) == ops.hash(x)
  }

  /** The errors `add` returns; each means the sending peer misbehaved. */
  datatype AddError =
    | FutureMessage     // "message created in the future"
    | VeryOldMessage    // "very old message"
    | HugeMessage       // "huge messages are not allowed"
    | OversizedVersion  // "oversized Version"
    | OversizedAESNonce // "oversized AESNonce"
    | OversizedSalt     // "oversized Salt"

  /** Why `add` returned nil without inserting. */
  datatype DropReason = Expired | LowPoW

  /**
   * What the checks before the pool lock decide: an error, a silent drop, or
   * the envelope to pool, its PoW score recomputed when it was dated ahead of `now`.
   */
  datatype Verdict = Reject(err: AddError) | Drop(reason: DropReason) | Accept(envelope: Envelope)

  /** sent = Expiry - TTL, in uint32 arithmetic. */
  function Sent(e: Envelope): (r: u32)
    ensures e.ttl <= e.expiry ==> r as int == e.expiry as int - e.ttl as int
    ensures e.expiry < e.ttl ==> r as int == e.expiry as int - e.ttl as int + TWO32
  {
    Sub32(e.expiry, e.ttl)
  }

  /** The envelope after the time-skew PoW recomputation of `add`, when it applies. */
  function Rescored(ops: EnvelopeOps, cfg: Config, now: u32, e: Envelope): (r: Envelope)
    ensures r == e.(pow := r.pow)
  {
    var sent := Sent(e);
    if sent > now && Sub32(sent, cfg.synchAllowance) <= now
    then e.(pow := ops.calculatePoW(e, Add32(Sub32(sent, now), 1)))
    else e
  }

  /**
   * Without wrap-around, the score is recomputed exactly when now < sent <=
   * now + SynchAllowance, with argument sent - now + 1; otherwise the
   * envelope is untouched.
   */
  lemma RescoreWindow(ops: EnvelopeOps, cfg: Config, now: u32, e: Envelope)
    requires NoWrap(cfg, e)
    ensures var sent := e.expiry as int - e.ttl as int;
            now as int < sent <= now as int + cfg.synchAllowance as int
            ==> Rescored(ops, cfg, now, e) == e.(pow := ops.calculatePoW(e, (sent - now as int + 1) as u32))
    ensures var sent := e.expiry as int - e.ttl as int;
            !(now as int < sent <= now as int + cfg.synchAllowance as int)
            ==> Rescored(ops, cfg, now, e) == e
  {
  }

  /** The checks of `add`, in the source's order (the first that fails decides). */
  function Admission(ops: EnvelopeOps, cfg: Config, test: bool, now: u32, envelope: Envelope): (v: Verdict)
    requires ConfigOk(cfg)
    ensures v.Accept? ==> v.envelope == envelope.(pow := v.envelope.pow)
    ensures v.Accept? ==> now <= v.envelope.expiry
    ensures v.Accept? ==> |v.envelope.data| <= cfg.maxMessageLength && |v.envelope.version| <= 4
    ensures v.Accept? ==> |v.envelope.aesNonce| <= cfg.aesNonceMaxLength && |v.envelope.salt| <= cfg.saltLength
    ensures v.Accept? && !test ==> v.envelope.pow >= cfg.minimumPoW
  {
    var sent := Sent(envelope);
    if sent > now && Sub32(sent, cfg.synchAllowance) > now then Reject(FutureMessage)
    else
      var e := Rescored(ops, cfg, now, envelope);
      if e.expiry < now then
        if Add32(e.expiry, DoubleAllowance(cfg)) < now then Reject(VeryOldMessage) else Drop(Expired)
      else if |e.data| > cfg.maxMessageLength then Reject(HugeMessage)
      else if |e.version| > 4 then Reject(OversizedVersion)
      else if |e.aesNonce| > cfg.aesNonceMaxLength then Reject(OversizedAESNonce)
      else if |e.salt| > cfg.saltLength then Reject(OversizedSalt)
      else if e.pow < cfg.minimumPoW && !test then Drop(LowPoW)
      else Accept(e)
  }

  /** The timestamps are in range: TTL <= Expiry, sent >= SynchAllowance and Expiry + 2*SynchAllowance fits a uint32. */
  predicate NoWrap(cfg: Config, e: Envelope)
  {
    && e.ttl <= e.expiry
    && cfg.synchAllowance as int <= e.expiry as int - e.ttl as int
    && e.expiry as int + 2 * cfg.synchAllowance as int < TWO32
  }

  /** The clock-skew window passes: neither dated too far ahead nor already expired. */
  predicate Timely(cfg: Config, now: u32, e: Envelope)
  {
    && e.expiry as int - e.ttl as int - cfg.synchAllowance as int <= now as int
    && now <= e.expiry
  }

  /** Without wrap-around, `add` rejects as future-dated exactly when sent - SynchAllowance > now. */
  lemma FutureDated(ops: EnvelopeOps, cfg: Config, test: bool, now: u32, e: Envelope)
    requires ConfigOk(cfg) && NoWrap(cfg, e)
    ensures Admission(ops, cfg, test, now, e) == Reject(FutureMessage)
        <==> e.expiry as int - e.ttl as int - cfg.synchAllowance as int > now as int
  {
  }

  /**
   * Without wrap-around, an envelope that expired before `now` is rejected when
   * Expiry + 2*SynchAllowance < now and silently dropped otherwise.
   */
  lemma ExpiredEnvelope(ops: EnvelopeOps, cfg: Config, test: bool, now: u32, e: Envelope)
    requires ConfigOk(cfg) && NoWrap(cfg, e)
    requires e.expiry < now
    ensures e.expiry as int + 2 * cfg.synchAllowance as int < now as int
        ==> Admission(ops, cfg, test, now, e) == Reject(VeryOldMessage)
    ensures e.expiry as int + 2 * cfg.synchAllowance as int >= now as int
        ==> Admission(ops, cfg, test, now, e) == Drop(Expired)
  {
  }

  /**
   * The boundaries of the skew window: sent = now + allowance + 1 is rejected,
   * sent = now + allowance - 1 passes the future check with its PoW rescored
   * for an effective TTL of one allowance; an envelope one second expired is
   * dropped silently and one 2*allowance + 1 seconds expired is rejected.
   */
  lemma SkewBoundaries(ops: EnvelopeOps, cfg: Config, test: bool, now: u32, e: Envelope)
    requires ConfigOk(cfg) && NoWrap(cfg, e)
    ensures Sent(e) as int == now as int + cfg.synchAllowance as int + 1
        ==> Admission(ops, cfg, test, now, e) == Reject(FutureMessage)
    ensures cfg.synchAllowance > 1 && Sent(e) as int == now as int + cfg.synchAllowance as int - 1
        ==> !Admission(ops, cfg, test, now, e).Reject? || Admission(ops, cfg, test, now, e).err != FutureMessage
    ensures cfg.synchAllowance > 1 && Sent(e) as int == now as int + cfg.synchAllowance as int - 1
        ==> Rescored(ops, cfg, now, e).pow == ops.calculatePoW(e, cfg.synchAllowance)
    ensures cfg.synchAllowance > 0 && e.expiry as int == now as int - 1 ==> Admission(ops, cfg, test, now, e) == Drop(Expired)
    ensures e.expiry as int == now as int - 2 * cfg.synchAllowance as int - 1
        ==> Admission(ops, cfg, test, now, e) == Reject(VeryOldMessage)
  {
  }

  /**
   * Once the skew window passes, the size checks reject exactly the oversized
   * fields, in the source's order; a field exactly at its bound is not rejected.
   */
  lemma SizeLimits(ops: EnvelopeOps, cfg: Config, test: bool, now: u32, e: Envelope)
    requires ConfigOk(cfg) && NoWrap(cfg, e) && Timely(cfg, now, e)
    ensures Admission(ops, cfg, test, now, e) == Reject(HugeMessage) <==> |e.data| > cfg.maxMessageLength
    ensures Admission(ops, cfg, test, now, e) == Reject(OversizedVersion)
        <==> |e.data| <= cfg.maxMessageLength && |e.version| > 4
    ensures Admission(ops, cfg, test, now, e) == Reject(OversizedAESNonce)
        <==> |e.data| <= cfg.maxMessageLength && |e.version| <= 4 && |e.aesNonce| > cfg.aesNonceMaxLength
    ensures Admission(ops, cfg, test, now, e) == Reject(OversizedSalt)
        <==> |e.data| <= cfg.maxMessageLength && |e.version| <= 4 && |e.aesNonce| <= cfg.aesNonceMaxLength
             && |e.salt| > cfg.saltLength
    ensures Admission(ops, cfg, test, now, e).Reject?
        <==> |e.data| > cfg.maxMessageLength || |e.version| > 4
             || |e.aesNonce| > cfg.aesNonceMaxLength || |e.salt| > cfg.saltLength
  {
  }

  /** Within bounds and window, a low score is dropped only outside test mode; in test mode nothing is dropped for PoW. */
  lemma PoWGate(ops: EnvelopeOps, cfg: Config, now: u32, e: Envelope)
    requires ConfigOk(cfg) && NoWrap(cfg, e) && Timely(cfg, now, e)
    requires |e.data| <= cfg.maxMessageLength && |e.version| <= 4
    requires |e.aesNonce| <= cfg.aesNonceMaxLength && |e.salt| <= cfg.saltLength
    ensures Admission(ops, cfg, false, now, e) == Drop(LowPoW)
        <==> Rescored(ops, cfg, now, e).pow < cfg.minimumPoW
    ensures Admission(ops, cfg, true, now, e) == Accept(Rescored(ops, cfg, now, e))
  {
  }

  /** Test mode only ever turns a low-PoW drop into an acceptance. */
  lemma TestModeOnlyLiftsPoWGate(ops: EnvelopeOps, cfg: Config, now: u32, e: Envelope)
    requires ConfigOk(cfg)
    ensures Admission(ops, cfg, false, now, e) != Drop(LowPoW)
        ==> Admission(ops, cfg, true, now, e) == Admission(ops, cfg, false, now, e)
    ensures Admission(ops, cfg, false, now, e) == Drop(LowPoW)
        ==> Admission(ops, cfg, true, now, e).Accept?
  {
  }
}
