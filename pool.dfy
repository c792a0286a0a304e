/**
 * The envelope pool of the Whisper node: the content-addressed envelope map,
 * the decrypted-message map and the expiry index, with insertion as `add`
 * performs it (whisper/whisperv5/whisper.go:321-354) and the sweep of
 * `expire` (whisper/whisperv5/whisper.go:376-394), stated on values.
 */
module EnvelopePool {
  import opened Wrappers
  import opened Bytes
  import opened EnvelopeChecks

  datatype PoolState = PoolState(
    envelopes: map<Hash, Envelope>,
    messages: map<Hash, ReceivedMessage>,
    expirations: map<u32, set<Hash>>)

  /**
   * The pool's invariant: every envelope is filed under its own hash, every
   * pooled hash is in the bucket of its envelope's expiry, and every hash in a
   * bucket belongs to a pooled envelope with that expiry (so each pooled hash
   * is in exactly one bucket).
   */
  ghost predicate Indexed(ops: EnvelopeOps, p: PoolState)
  {
    && (forall h :: h in p.envelopes ==> ops.hash(p.envelopes[h]) == h)
    && (forall h :: h in p.envelopes ==>
          p.envelopes[h].expiry in p.expirations && h in p.expirations[p.envelopes[h].expiry])
    && (forall t, h :: t in p.expirations && h in p.expirations[t] ==>
          h in p.envelopes && p.envelopes[h].expiry == t)
  }

  function Bucket(x: map<u32, set<Hash>>, t: u32): set<Hash>
  {
    if t in x then x[t] else {}
  }

  /** The locked insertion of `add`: file the envelope, creating its bucket if absent. */
  function Cache(p: PoolState, h: Hash, e: Envelope): (r: PoolState)
    ensures h in r.envelopes && r.envelopes[h] == e
    ensures e.expiry in r.expirations && h in r.expirations[e.expiry]
    ensures forall k :: k in p.envelopes && k != h ==> k in r.envelopes && r.envelopes[k] == p.envelopes[k]
    ensures forall t :: t in p.expirations ==> t in r.expirations && p.expirations[t] <= r.expirations[t]
    ensures r.messages == p.messages
  {
    PoolState(p.envelopes[h := e], p.messages, p.expirations[e.expiry := Bucket(p.expirations, e.expiry) + {h}])
  }

  /** What one call of `add` does: the new pool, the error it returns, the watcher notifications it posts. */
  datatype AddResult = AddResult(pool: PoolState, err: Option<AddError>, posted: seq<Envelope>)

  /** The part of `add` after the checks: the locked lookup and insertion, then the notification. */
  function Commit(ops: EnvelopeOps, cfg: Config, p: PoolState, v: Verdict): (r: AddResult)
    ensures r.err.Some? ==> r.pool == p && r.posted == []
    ensures r.pool.messages == p.messages
    ensures forall k :: k in p.envelopes ==> k in r.pool.envelopes && r.pool.envelopes[k] == p.envelopes[k]
    ensures |r.pool.envelopes| <= |p.envelopes| + 1
    ensures |r.posted| <= 1 && (r.posted != [] ==> r.pool != p)
  {
    match v
    case Reject(err) => AddResult(p, Some(err), [])
    case Drop(_) => AddResult(p, None, [])
    case Accept(e) =>
      var h := ops.hash(e);
      if h in p.envelopes then AddResult(p, None, [])
      else
        var q := Cache(p, h, e);
        assert h in q.envelopes && h !in p.envelopes;
        AddResult(q, None, if ops.ver(e) <= cfg.envelopeVersion then [e] else [])
  }

  /** What `add` does: the checks, then the commit. */
  function Add(ops: EnvelopeOps, cfg: Config, test: bool, now: u32, p: PoolState, envelope: Envelope): (r: AddResult)
    requires ConfigOk(cfg)
    ensures r.err.Some? <==> Admission(ops, cfg, test, now, envelope).Reject?
    ensures r.pool != p ==> Admission(ops, cfg, test, now, envelope).Accept?
    ensures r.posted != [] ==> Admission(ops, cfg, test, now, envelope).Accept?
    ensures r.pool.messages == p.messages
  {
    Commit(ops, cfg, p, Admission(ops, cfg, test, now, envelope))
  }

  lemma CommitKeys(ops: EnvelopeOps, cfg: Config, q: PoolState, v: Verdict)
    ensures Commit(ops, cfg, q, v).pool.envelopes.Keys
              == q.envelopes.Keys + (if v.Accept? then {ops.hash(v.envelope)} else {})
  {
  }

  /** An envelope that is not admitted leaves the pool as it was and notifies nobody; only a rejection is an error. */
  lemma AddWithoutAdmission(ops: EnvelopeOps, cfg: Config, test: bool, now: u32, p: PoolState, e: Envelope)
    requires ConfigOk(cfg) && !Admission(ops, cfg, test, now, e).Accept?
    ensures Add(ops, cfg, test, now, p, e).pool == p
    ensures Add(ops, cfg, test, now, p, e).posted == []
    ensures Add(ops, cfg, test, now, p, e).err.Some? <==> Admission(ops, cfg, test, now, e).Reject?
  {
  }

  /**
   * An admitted envelope is in the pool afterwards. If its hash was new, it is
   * filed under that hash and in the bucket of its expiry (created if absent),
   * no other bucket changes, and exactly one notification is posted when its
   * version is supported. If the hash was already pooled, nothing changes.
   */
  lemma AddAdmitted(ops: EnvelopeOps, cfg: Config, test: bool, now: u32, p: PoolState, e: Envelope)
    requires ConfigOk(cfg) && Admission(ops, cfg, test, now, e).Accept?
    ensures var v := Admission(ops, cfg, test, now, e).envelope;
            var h := ops.hash(v);
            var r := Add(ops, cfg, test, now, p, e);
            && r.err == None
            && h in r.pool.envelopes
            && (h in p.envelopes ==> r.pool == p && r.posted == [])
            && (h !in p.envelopes ==>
                  && r.pool.envelopes == p.envelopes[h := v]
                  && r.pool.expirations.Keys == p.expirations.Keys + {v.expiry}
                  && r.pool.expirations[v.expiry] == Bucket(p.expirations, v.expiry) + {h}
                  && (forall t :: t in p.expirations && t != v.expiry ==> r.pool.expirations[t] == p.expirations[t])
                  && r.posted == (if ops.ver(v) <= cfg.envelopeVersion then [v] else []))
  {
    CommitAccepted(ops, cfg, p, Admission(ops, cfg, test, now, e).envelope);
  }

  lemma CommitAccepted(ops: EnvelopeOps, cfg: Config, p: PoolState, v: Envelope)
    ensures var h := ops.hash(v);
            var r := Commit(ops, cfg, p, Accept(v));
            && r.err == None
            && h in r.pool.envelopes
            && (h in p.envelopes ==> r.pool == p && r.posted == [])
            && (h !in p.envelopes ==>
                  && r.pool.envelopes == p.envelopes[h := v]
                  && r.pool.expirations.Keys == p.expirations.Keys + {v.expiry}
                  && r.pool.expirations[v.expiry] == Bucket(p.expirations, v.expiry) + {h}
                  && (forall t :: t in p.expirations && t != v.expiry ==> r.pool.expirations[t] == p.expirations[t])
                  && r.posted == (if ops.ver(v) <= cfg.envelopeVersion then [v] else []))
  {
  }

  /** Filing a new envelope under its own hash keeps the pool indexed. */
  lemma CachePreservesIndexed(ops: EnvelopeOps, p: PoolState, h: Hash, e: Envelope)
    requires Indexed(ops, p) && ops.hash(e) == h && h !in p.envelopes
    ensures Indexed(ops, Cache(p, h, e))
  {
    var q := Cache(p, h, e);
    forall t, k | t in q.expirations && k in q.expirations[t]
      ensures k in q.envelopes && q.envelopes[k].expiry == t
    {
      if k != h {
        assert t in p.expirations && k in p.expirations[t];
      }
    }
  }

  lemma CommitPreservesIndexed(ops: EnvelopeOps, cfg: Config, p: PoolState, v: Verdict)
    requires Indexed(ops, p)
    ensures Indexed(ops, Commit(ops, cfg, p, v).pool)
  {
    if v.Accept? && ops.hash(v.envelope) !in p.envelopes {
      CachePreservesIndexed(ops, p, ops.hash(v.envelope), v.envelope);
    }
  }

  /** `add` keeps the expiry index consistent with the envelope map. */
  lemma AddPreservesIndexed(ops: EnvelopeOps, cfg: Config, test: bool, now: u32, p: PoolState, e: Envelope)
    requires ConfigOk(cfg) && Indexed(ops, p)
    ensures Indexed(ops, Add(ops, cfg, test, now, p, e).pool)
  {
    CommitPreservesIndexed(ops, cfg, p, Admission(ops, cfg, test, now, e));
  }

  /** Adding the same envelope again, at the same time, changes nothing and posts nothing. */
  lemma AddIdempotent(ops: EnvelopeOps, cfg: Config, test: bool, now: u32, p: PoolState, e: Envelope)
    requires ConfigOk(cfg)
    ensures var r1 := Add(ops, cfg, test, now, p, e);
            var r2 := Add(ops, cfg, test, now, r1.pool, e);
            r2.pool == r1.pool && r2.err == r1.err && r2.posted == []
  {
    var v := Admission(ops, cfg, test, now, e);
    if v.Accept? {
      AddAdmitted(ops, cfg, test, now, p, e);
    }
  }

  /**
   * With a content hash, an envelope admitted at `n1` is a no-op when added
   * again at any later time `n2` before a sweep: whatever the second verdict,
   * nothing changes and nothing is posted.
   */
  lemma AddIdempotentAcrossTimes(ops: EnvelopeOps, cfg: Config, test: bool, n1: u32, n2: u32, p: PoolState, e: Envelope)
    requires ConfigOk(cfg) && StableHash(ops)
    requires Admission(ops, cfg, test, n1, e).Accept?
    ensures var r1 := Add(ops, cfg, test, n1, p, e);
            var r2 := Add(ops, cfg, test, n2, r1.pool, e);
            r2.pool == r1.pool && r2.posted == [] && r2.err.None? == !Admission(ops, cfg, test, n2, e).Reject?
  {
    var v1 := Admission(ops, cfg, test, n1, e).envelope;
    AddAdmitted(ops, cfg, test, n1, p, e);
    var v2 := Admission(ops, cfg, test, n2, e);
    if v2.Accept? {
      assert v1 == e.(pow := v1.pow) && v2.envelope == e.(pow := v2.envelope.pow);
      assert ops.hash(v1) == ops.hash(e) == ops.hash(v2.envelope);
    }
  }

  /**
   * Committing the verdicts `vs` one after another: the pool after admitting
   * envelopes in some serial order of their concurrent callers, since `Add`
   * is `Commit` of the envelope's verdict.
   */
  function CommitAll(ops: EnvelopeOps, cfg: Config, p: PoolState, vs: seq<Verdict>): PoolState
  {
    if |vs| == 0 then p
    else Commit(ops, cfg, CommitAll(ops, cfg, p, vs[..|vs| - 1]), vs[|vs| - 1]).pool
  }

  /** The hashes under which the accepted envelopes of `vs` are filed. */
  function AdmittedHashes(ops: EnvelopeOps, vs: seq<Verdict>): set<Hash>
  {
    if |vs| == 0 then {}
    else
      var v := vs[|vs| - 1];
      AdmittedHashes(ops, vs[..|vs| - 1]) + (if v.Accept? then {ops.hash(v.envelope)} else {})
  }

  /** After a run of admissions the pooled hashes are the old ones plus those of the accepted envelopes, whatever the order. */
  lemma {:induction false} CommitAllKeys(ops: EnvelopeOps, cfg: Config, p: PoolState, vs: seq<Verdict>)
    ensures CommitAll(ops, cfg, p, vs).envelopes.Keys == p.envelopes.Keys + AdmittedHashes(ops, vs)
    decreases |vs|
  {
    if |vs| > 0 {
      var n := |vs| - 1;
      CommitAllKeys(ops, cfg, p, vs[..n]);
      CommitKeys(ops, cfg, CommitAll(ops, cfg, p, vs[..n]), vs[n]);
    }
  }

  lemma {:induction false} AdmittedHashesOf(ops: EnvelopeOps, vs: seq<Verdict>)
    ensures forall h :: h in AdmittedHashes(ops, vs) ==>
      exists i :: 0 <= i < |vs| && vs[i].Accept? && ops.hash(vs[i].envelope) == h
    decreases |vs|
  {
    if |vs| > 0 {
      var n := |vs| - 1;
      AdmittedHashesOf(ops, vs[..n]);
      forall h | h in AdmittedHashes(ops, vs)
        ensures exists i :: 0 <= i < |vs| && vs[i].Accept? && ops.hash(vs[i].envelope) == h
      {
        if h in AdmittedHashes(ops, vs[..n]) {
          var i :| 0 <= i < n && vs[..n][i].Accept? && ops.hash(vs[..n][i].envelope) == h;
          assert vs[..n][i] == vs[i];
        }
      }
    }
  }

  /** Accepted verdicts whose hashes are pairwise distinct number as many hashes. */
  lemma {:induction false} DistinctAdmittedHashes(ops: EnvelopeOps, vs: seq<Verdict>)
    requires forall i :: 0 <= i < |vs| ==> vs[i].Accept?
    requires forall i, j :: 0 <= i < j < |vs| ==> ops.hash(vs[i].envelope) != ops.hash(vs[j].envelope)
    ensures |AdmittedHashes(ops, vs)| == |vs|
    decreases |vs|
  {
    if |vs| > 0 {
      var n := |vs| - 1;
      DistinctAdmittedHashes(ops, vs[..n]);
      AdmittedHashesOf(ops, vs[..n]);
      var h := ops.hash(vs[n].envelope);
      assert h !in AdmittedHashes(ops, vs[..n]);
    }
  }

  /** N admissions of N valid envelopes with distinct, new hashes leave exactly N more pooled envelopes. */
  lemma DistinctAdmissionsAllPooled(ops: EnvelopeOps, cfg: Config, p: PoolState, vs: seq<Verdict>)
    requires forall i :: 0 <= i < |vs| ==> vs[i].Accept?
    requires forall i, j :: 0 <= i < j < |vs| ==> ops.hash(vs[i].envelope) != ops.hash(vs[j].envelope)
    requires forall i :: 0 <= i < |vs| ==> ops.hash(vs[i].envelope) !in p.envelopes
    ensures |CommitAll(ops, cfg, p, vs).envelopes| == |p.envelopes| + |vs|
  {
    var hs := AdmittedHashes(ops, vs);
    CommitAllKeys(ops, cfg, p, vs);
    DistinctAdmittedHashes(ops, vs);
    AdmittedHashesOf(ops, vs);
    assert p.envelopes.Keys !! hs;
    var q := CommitAll(ops, cfg, p, vs);
    assert |q.envelopes.Keys| == |p.envelopes.Keys| + |hs|;
  }

  // The sweep.

  /** The hashes filed in the buckets of `ts` whose timestamp is at or before `now`. */
  function Due(x: map<u32, set<Hash>>, ts: set<u32>, now: u32): set<Hash>
  {
    set t, h | t in ts && t in x && t <= now && h in x[t] :: h
  }

  /** The pool after `expire` has processed the buckets in `ts`. */
  function SweepOver(p: PoolState, ts: set<u32>, now: u32): (r: PoolState)
    ensures r.expirations.Keys == p.expirations.Keys
    ensures r.envelopes.Keys <= p.envelopes.Keys && r.messages.Keys <= p.messages.Keys
    ensures forall t :: t in p.expirations && t !in ts ==> r.expirations[t] == p.expirations[t]
  {
    var due := Due(p.expirations, ts, now);
    PoolState(
      p.envelopes - due,
      p.messages - due,
      map t | t in p.expirations :: if t in ts && t <= now then {} else p.expirations[t])
  }

  /** Before any bucket is processed the pool is as it was. */
  lemma SweepOverNothing(p: PoolState, now: u32)
    ensures SweepOver(p, {}, now) == p
  {
    assert Due(p.expirations, {}, now) == {};
    assert p.envelopes - {} == p.envelopes;
    assert p.messages - {} == p.messages;
  }

  /** The pool after a full `expire` at time `now`. */
  function Sweep(p: PoolState, now: u32): (r: PoolState)
    ensures r.expirations.Keys == p.expirations.Keys
    ensures r.envelopes.Keys <= p.envelopes.Keys && r.messages.Keys <= p.messages.Keys
    ensures forall t :: t in p.expirations ==> r.expirations[t] == (if t <= now then {} else p.expirations[t])
  {
    SweepOver(p, p.expirations.Keys, now)
  }

  /** Processing one more bucket: a due bucket loses its hashes from both maps and is emptied; a future one is skipped. */
  lemma SweepOverStep(p: PoolState, ts: set<u32>, t: u32, now: u32)
    requires t in p.expirations && t !in ts
    ensures var q := SweepOver(p, ts, now);
            SweepOver(p, ts + {t}, now) ==
              if t <= now
              then PoolState(q.envelopes - p.expirations[t], q.messages - p.expirations[t], q.expirations[t := {}])
              else q
  {
    var x := p.expirations;
    assert Due(x, ts + {t}, now) == Due(x, ts, now) + (if t <= now then x[t] else {});
  }

  /**
   * After a sweep no bucket at or before `now` holds a hash, no hash that such
   * a bucket held is left in either map, later buckets and entries reachable
   * only through them are unchanged, and the set of timestamps is the same.
   */
  lemma SweepClearsDueBuckets(p: PoolState, now: u32)
    ensures var q := Sweep(p, now);
            && q.expirations.Keys == p.expirations.Keys
            && (forall t :: t in p.expirations && t <= now ==> q.expirations[t] == {})
            && (forall t :: t in p.expirations && t > now ==> q.expirations[t] == p.expirations[t])
            && (forall t, h :: t in p.expirations && t <= now && h in p.expirations[t] ==>
                  h !in q.envelopes && h !in q.messages)
            && (forall h :: h in p.envelopes && h !in Due(p.expirations, p.expirations.Keys, now) ==>
                  h in q.envelopes && q.envelopes[h] == p.envelopes[h])
            && (forall h :: h in p.messages && h !in Due(p.expirations, p.expirations.Keys, now) ==>
                  h in q.messages && q.messages[h] == p.messages[h])
  {
  }

  /** On an indexed pool, a sweep keeps exactly the envelopes that expire after `now`. */
  lemma SweepKeepsLive(ops: EnvelopeOps, p: PoolState, now: u32)
    requires Indexed(ops, p)
    ensures Sweep(p, now).envelopes == map h | h in p.envelopes && p.envelopes[h].expiry > now :: p.envelopes[h]
  {
    var due := Due(p.expirations, p.expirations.Keys, now);
    forall h | h in p.envelopes
      ensures h in due <==> p.envelopes[h].expiry <= now
    {
      var t := p.envelopes[h].expiry;
      if t <= now {
        assert t in p.expirations && h in p.expirations[t];
      }
    }
  }

  /** A sweep keeps the pool indexed. */
  lemma SweepPreservesIndexed(ops: EnvelopeOps, p: PoolState, now: u32)
    requires Indexed(ops, p)
    ensures Indexed(ops, Sweep(p, now))
  {
    SweepKeepsLive(ops, p, now);
  }

  /** Sweeping at `a` and then at a later `b` is one sweep at `b`; in particular sweeping twice at `now` is sweeping once. */
  lemma SweepCompose(p: PoolState, a: u32, b: u32)
    requires a <= b
    ensures Sweep(Sweep(p, a), b) == Sweep(p, b)
  {
    var x := p.expirations;
    var q := Sweep(p, a);
    assert q.expirations.Keys == x.Keys;
    var dq, da, db := Due(q.expirations, x.Keys, b), Due(x, x.Keys, a), Due(x, x.Keys, b);
    assert dq + da == db;
    assert Sweep(q, b).envelopes == q.envelopes - dq == p.envelopes - db;
    assert Sweep(q, b).messages == q.messages - dq == p.messages - db;
    assert Sweep(q, b).expirations == Sweep(p, b).expirations;
  }
}
