/**
 * The pure parts of the Whisper key store (whisper/whisperv5/whisper.go:118-235,
 * 431-440, 475-484): key validity, the version dispatch of deriveKeyMaterial,
 * the XOR mix of GenerateSymKey, and the refuse-to-overwrite insertion that
 * both symmetric-key paths perform under the key lock.
 */
module KeyStore {
  import opened Wrappers
  import opened Bytes

  /** An ECDSA public key; a coordinate is None when the big.Int pointer is nil. */
  datatype PublicKey = PublicKey(x: Option<int>, y: Option<int>)

  /** An ECDSA private key; `d` is None when the scalar pointer is nil. */
  datatype PrivateKey = PrivateKey(d: Option<int>, publicKey: PublicKey)

  /** ValidatePublicKey: the key exists and both coordinates exist and are non-zero. */
  predicate ValidatePublicKey(k: Option<PublicKey>)
    ensures k.None? ==> !ValidatePublicKey(k)
  {
    && k.Some? && k.value.x.Some? && k.value.y.Some?
    && k.value.x.value != 0 && k.value.y.value != 0
  }

  /** validatePrivateKey: the scalar exists and is non-zero, and the public key is valid. */
  predicate ValidatePrivateKey(k: Option<PrivateKey>)
    ensures ValidatePrivateKey(k) ==> k.Some? && ValidatePublicKey(Some(k.value.publicKey))
  {
    if k.None? || k.value.d.None? || k.value.d.value == 0 then false
    else ValidatePublicKey(Some(k.value.publicKey))
  }

  /** Each way a key can be degenerate makes it invalid, and a key with none of them is valid. */
  lemma KeyValidity(d: Option<int>, x: Option<int>, y: Option<int>)
    ensures !ValidatePrivateKey(None) && !ValidatePublicKey(None)
    ensures ValidatePrivateKey(Some(PrivateKey(d, PublicKey(x, y))))
        <==> d.Some? && d.value != 0 && x.Some? && x.value != 0 && y.Some? && y.value != 0
    ensures ValidatePrivateKey(Some(PrivateKey(d, PublicKey(x, y)))) ==> ValidatePublicKey(Some(PublicKey(x, y)))
  {
  }

  /** The key-store errors; a duplicate name is refused rather than overwritten. */
  datatype KeyError =
    | DuplicateName(name: string)  // "Key with name [...] already exists"
    | RandomReadFailed             // crand.Read returned an error
    | StrongRandomDegenerate       // "crypto/rand failed to generate random data"
    | WeakRandomDegenerate         // "math/rand failed to generate random data"
    | DerivationFailed             // DeriveOneTimeKey returned an error
    | DerivedKeyInvalid            // "failed to derive valid key"
    | UnknownVersion(version: u64) // unknownVersionError

  /** NewIdentity's two panics: the generator failed, or it produced an invalid key twice. */
  datatype Fatal = GeneratorFailed | InvalidGeneratedKey

  /** One result of crypto.GenerateKey. */
  datatype Generated = Generated(key: PrivateKey) | GenerationFailed

  /** The generated key is present and valid. */
  predicate Usable(g: Generated)
  {
    g.Generated? && ValidatePrivateKey(Some(g.key))
  }

  /** The cryptographic functions the key store calls and that are not part of this model. */
  datatype KeyOps = KeyOps(
    pubKeyHex: PublicKey -> string,                              // common.ToHex(crypto.FromECDSAPub(..))
    pbkdf2: (seq<byte>, seq<byte>, nat, nat) -> seq<byte>,       // pbkdf2.Key(password, salt, iterations, length, sha256)
    deriveOneTimeKey: (seq<byte>, seq<byte>, u64) -> Option<seq<byte>>) // DeriveOneTimeKey; None is an error

  /** The iteration count deriveKeyMaterial passes to pbkdf2. */
  const KdfIterations: nat := 65356

  /** deriveKeyMaterial: version 0 runs pbkdf2 without salt; every other version is an error. */
  function DeriveKeyMaterial(ops: KeyOps, key: seq<byte>, version: u64, aesKeyLength: nat): (r: Result<seq<byte>, KeyError>)
    ensures r.Failure? <==> version != 0
    ensures r.Failure? ==> r.error == UnknownVersion(version)
    ensures r.Success? ==> r.value == ops.pbkdf2(key, [], KdfIterations, aesKeyLength)
  {
    if version == 0 then Success(ops.pbkdf2(key, [], KdfIterations, aesKeyLength))
    else Failure(UnknownVersion(version))
  }

  /** The byte-wise exclusive or that GenerateSymKey computes in place. */
  function Xor(a: seq<byte>, b: seq<byte>): (r: seq<byte>)
    requires |a| == |b|
    ensures |r| == |a|
  {
    seq(|a|, i requires 0 <= i < |a| => a[i] ^ b[i])
  }

  /** Mixing in the weak buffer can be undone with the same buffer. */
  lemma XorUndo(a: seq<byte>, b: seq<byte>)
    requires |a| == |b|
    ensures Xor(Xor(a, b), b) == a
  {
    forall i | 0 <= i < |a|
      ensures Xor(Xor(a, b), b)[i] == a[i]
    {
      assert Xor(a, b)[i] == a[i] ^ b[i];
    }
  }

  /**
   * For any fixed weak buffer, distinct strong buffers give distinct mixes, so
   * the mix is never less random than the strong source.
   */
  lemma XorKeepsStrongDistinct(a1: seq<byte>, a2: seq<byte>, b: seq<byte>)
    requires |a1| == |b| && |a2| == |b|
    ensures Xor(a1, b) == Xor(a2, b) ==> a1 == a2
  {
    XorUndo(a1, b);
    XorUndo(a2, b);
  }

  /**
   * The locked insertion of AddSymKey and GenerateSymKey: a name already
   * present is refused and nothing changes; otherwise the name is bound and no
   * other entry changes.
   */
  function Bind(m: map<string, seq<byte>>, name: string, key: seq<byte>): (r: (map<string, seq<byte>>, Option<KeyError>))
    ensures r.1.None? <==> name !in m
    ensures r.1.Some? ==> r.1.value == DuplicateName(name) && r.0 == m
    ensures r.0.Keys == m.Keys + {name}
    ensures forall n :: n in m ==> r.0[n] == m[n]
    ensures r.1.None? ==> r.0[name] == key
  {
    if name in m then (m, Some(DuplicateName(name))) else (m[name := key], None)
  }

  /** Binding the same name with `keys` one after another: the final map and each call's result. */
  function BindAll(m: map<string, seq<byte>>, name: string, keys: seq<seq<byte>>): (map<string, seq<byte>>, seq<Option<KeyError>>)
    decreases |keys|
  {
    if |keys| == 0 then (m, [])
    else
      var (m1, outcome) := Bind(m, name, keys[0]);
      var (m2, outcomes) := BindAll(m1, name, keys[1..]);
      (m2, [outcome] + outcomes)
  }

  /** Once a name is bound, every further insertion under it fails and changes nothing. */
  lemma {:induction false} BindAllBound(m: map<string, seq<byte>>, name: string, keys: seq<seq<byte>>)
    requires name in m
    ensures BindAll(m, name, keys).0 == m
    ensures |BindAll(m, name, keys).1| == |keys|
    ensures forall i :: 0 <= i < |keys| ==> BindAll(m, name, keys).1[i] == Some(DuplicateName(name))
    decreases |keys|
  {
    if |keys| > 0 {
      BindAllBound(m, name, keys[1..]);
    }
  }

  /**
   * M insertions under one fresh name, serialised in any order: one stores its
   * key and the other M-1 fail with a duplicate-name error.
   */
  lemma SameNameInsertions(m: map<string, seq<byte>>, name: string, keys: seq<seq<byte>>)
    requires name !in m && |keys| >= 1
    ensures BindAll(m, name, keys).0 == m[name := keys[0]]
    ensures |BindAll(m, name, keys).1| == |keys|
    ensures BindAll(m, name, keys).1[0] == None
    ensures forall i :: 1 <= i < |keys| ==> BindAll(m, name, keys).1[i] == Some(DuplicateName(name))
  {
    var (m1, o) := Bind(m, name, keys[0]);
    BindAllBound(m1, name, keys[1..]);
  }
}
