/**
 * Signed notes (src/note.rs): the `Note` record, the `Signed<T>` envelope and
 * the encode -> digest -> sign / verify wiring.
 *
 * The three foreign libraries the file leans on are not modelled inside:
 *  - bincode is a `Codec<T>`, a pair of functions (serialize, deserialize);
 *  - Keccak-256 is a function `hash: Bytes -> Digest`;
 *  - libp2p identity keys are an `Identity`, a record of the key-pair
 *    primitives (public key of a key pair, sign, verify, protobuf encoding).
 * They are passed in as values, and what the code relies on them for is stated
 * as predicates over those values (`LeftInverse`, `SignaturesVerify`,
 * `Unforgeable`, `ProtobufRoundTrip`, `NoDigestCollision`), which the lemmas
 * that need them take as preconditions.
 */
module Note {
  import opened Wrappers

  type Bytes = seq<bv8>

  /** `[u8; 32]`, the output of Keccak-256. */
  type Digest = d: Bytes | |d| == 32 witness seq(32, _ => 0 as bv8)

  /** `time::PrimitiveDateTime`, kept only as a totally ordered key. */
  type Timestamp = int

  datatype Note = Note(topic: string, msg: string, createdAt: Timestamp)

  /** `libp2p::identity::PublicKey` and `Keypair`: opaque key material. */
  datatype PublicKey = PublicKey(material: Bytes)
  datatype Keypair = Keypair(secret: Bytes)

  /** The `PubKey` newtype around an identity public key. */
  datatype PubKey = PubKey(key: PublicKey)

  /** The envelope: a value, the signer's public key and the signature over the value's digest. */
  datatype Signed<T> = Signed(inner: T, pubKey: PubKey, signature: Bytes)

  /** `bincode::Error`, `identity::SigningError` and `identity::DecodingError`. */
  datatype CodecError = CodecError(detail: string)
  datatype SigningFailure = SigningFailure(detail: string)
  datatype DecodingFailure = DecodingFailure(detail: string)

  /** `SignError<DigestError>`: the signing primitive failed, or the digest could not be computed. */
  datatype SignError<D> = SigningError(signing: SigningFailure) | DigestError(digest: D)

  /** A serde/bincode codec for one type. */
  datatype Codec<!T(!new)> = Codec(serialize: T -> Result<Bytes, CodecError>,
                            deserialize: Bytes -> Result<T, CodecError>)
  {
    /** Decoding is a left inverse of encoding. */
    ghost predicate LeftInverse() {
      forall v :: serialize(v).Ok? ==> deserialize(serialize(v).value) == Ok(v)
    }
  }

  /** The libp2p identity primitives the code calls. */
  datatype Identity = Identity(
    publicKey: Keypair -> PublicKey,
    sign: (Keypair, Digest) -> Result<Bytes, SigningFailure>,
    verify: (PublicKey, Digest, Bytes) -> bool,
    encodeProtobuf: PublicKey -> Bytes,
    decodeProtobuf: Bytes -> Result<PublicKey, DecodingFailure>)
  {
    /** A signature made with a key pair verifies under that key pair's public key. */
    ghost predicate SignaturesVerify() {
      forall kp, d :: sign(kp, d).Ok? ==> verify(publicKey(kp), d, sign(kp, d).value)
    }

    /** A signature made over one digest does not verify for another. */
    ghost predicate Unforgeable() {
      forall kp, d, d' :: sign(kp, d).Ok? && d' != d ==> !verify(publicKey(kp), d', sign(kp, d).value)
    }

    /** Decoding the protobuf form of a key gives the key back. */
    ghost predicate ProtobufRoundTrip() {
      forall k :: decodeProtobuf(encodeProtobuf(k)) == Ok(k)
    }
  }

  /** The three identity predicates can hold together: a toy identity meets all of them. */
  lemma IdentityAssumptionsConsistent()
    ensures exists id: Identity :: id.SignaturesVerify() && id.Unforgeable() && id.ProtobufRoundTrip()
  {
    var id: Identity := Identity(
      (kp: Keypair) => PublicKey(kp.secret),
      (kp: Keypair, d: Digest) => Ok(d),
      (k: PublicKey, d: Digest, sig: Bytes) => sig == d,
      (k: PublicKey) => k.material,
      (b: Bytes) => Ok(PublicKey(b)));
    assert id.SignaturesVerify();
    assert id.Unforgeable();
    assert id.ProtobufRoundTrip();
  }

  // ---------------------------------------------------------------------------
  // PubKey <-> Vec<u8> (the serde `into` / `try_from` conversions)

  /** `From<PubKey> for Vec<u8>`. */
  function PubKeyToVec(id: Identity, p: PubKey): (bytes: Bytes)
    ensures id.ProtobufRoundTrip() ==> id.decodeProtobuf(bytes) == Ok(p.key)
  {
    id.encodeProtobuf(p.key)
  }

  /** `TryFrom<Vec<u8>> for PubKey`. */
  function PubKeyTryFrom(id: Identity, bytes: Bytes): (r: Result<PubKey, DecodingFailure>)
    ensures r.Ok? <==> id.decodeProtobuf(bytes).Ok?
    ensures r.Ok? ==> r.value.key == id.decodeProtobuf(bytes).value
    ensures r.Err? ==> r.error == id.decodeProtobuf(bytes).error
  {
    match id.decodeProtobuf(bytes)
    case Ok(k) => Ok(PubKey(k))
    case Err(e) => Err(e)
  }

  /** A `PubKey` survives the trip through its byte form. */
  lemma PubKeyRoundTrip(id: Identity, p: PubKey)
    requires id.ProtobufRoundTrip()
    ensures PubKeyTryFrom(id, PubKeyToVec(id, p)) == Ok(p)
  {
    assert id.decodeProtobuf(id.encodeProtobuf(p.key)) == Ok(p.key);
  }

  /** Two `PubKey`s are equal exactly when their byte forms are. */
  lemma PubKeyEqualIffBytesEqual(id: Identity, p: PubKey, q: PubKey)
    requires id.ProtobufRoundTrip()
    ensures p == q <==> PubKeyToVec(id, p) == PubKeyToVec(id, q)
  {
    if PubKeyToVec(id, p) == PubKeyToVec(id, q) {
      PubKeyRoundTrip(id, p);
      PubKeyRoundTrip(id, q);
    }
  }

  /** Bytes the protobuf decoder refuses give `DecodingError`, never a key. */
  lemma PubKeyRejectsMalformed(id: Identity, bytes: Bytes)
    requires id.decodeProtobuf(bytes).Err?
    ensures PubKeyTryFrom(id, bytes) == Err(id.decodeProtobuf(bytes).error)
  {
  }

  // ---------------------------------------------------------------------------
  // Encode / Decode

  /** The serde form of `Signed<T>`: the public key travels as its `Vec<u8>`. */
  datatype SignedRepr<T> = SignedRepr(inner: T, pubKey: Bytes, signature: Bytes)

  /** The `into` side: the key becomes its protobuf bytes, which `try_from` turns back into it. */
  function ToRepr<T(!new)>(id: Identity, s: Signed<T>): (r: SignedRepr<T>)
    ensures r.inner == s.inner && r.signature == s.signature
    ensures id.ProtobufRoundTrip() ==> PubKeyTryFrom(id, r.pubKey) == Ok(s.pubKey)
  {
    SignedRepr(s.inner, PubKeyToVec(id, s.pubKey), s.signature)
  }

  /** A key that fails `try_from` becomes a custom serde error carrying its message. */
  function FromRepr<T(!new)>(id: Identity, repr: SignedRepr<T>): (r: Result<Signed<T>, CodecError>)
    ensures r.Ok? <==> id.decodeProtobuf(repr.pubKey).Ok?
    ensures r.Ok? ==> r.value.inner == repr.inner && r.value.signature == repr.signature
                      && r.value.pubKey.key == id.decodeProtobuf(repr.pubKey).value
    ensures r.Err? ==> r.error.detail == id.decodeProtobuf(repr.pubKey).error.detail
    ensures id.ProtobufRoundTrip() ==> forall s :: ToRepr(id, s) == repr ==> r == Ok(s)
  {
    match PubKeyTryFrom(id, repr.pubKey)
    case Ok(p) => Ok(Signed(repr.inner, p, repr.signature))
    case Err(e) => Err(CodecError(e.detail))
  }

  /** The derived codec of `Signed<T>`, built from bincode over its serde form. */
  function SignedCodec<T(!new)>(repr: Codec<SignedRepr<T>>, id: Identity): (c: Codec<Signed<T>>)
    ensures repr.LeftInverse() && id.ProtobufRoundTrip() ==> c.LeftInverse()
  {
    var c := Codec(s => repr.serialize(ToRepr(id, s)),
                   b => match repr.deserialize(b)
                        case Ok(r) => FromRepr(id, r)
                        case Err(e) => Err(e));
    assert repr.LeftInverse() && id.ProtobufRoundTrip() ==>
      forall s :: repr.serialize(ToRepr(id, s)).Ok? ==>
        repr.deserialize(repr.serialize(ToRepr(id, s)).value) == Ok(ToRepr(id, s))
        && FromRepr(id, ToRepr(id, s)) == Ok(s);
    c
  }

  /** A `Vec<u8>` used as an `io::Write` sink. */
  class VecWriter {
    var buffer: Bytes

    constructor ()
      ensures buffer == []
    {
      buffer := [];
    }
  }

  /** `Encode::encode`: bincode writes the serialisation of `value` into `writer`. */
  method Encode<T(!new)>(c: Codec<T>, value: T, writer: VecWriter) returns (r: Result<(), CodecError>)
    modifies writer
    ensures c.serialize(value).Ok? ==> r == Ok(()) && writer.buffer == old(writer.buffer) + c.serialize(value).value
    ensures c.serialize(value).Err? ==> r == Err(c.serialize(value).error)
  {
    match c.serialize(value) {
      case Ok(bytes) =>
        writer.buffer := writer.buffer + bytes;
        r := Ok(());
      case Err(e) =>
        r := Err(e);
    }
  }

  /** `Encode::encode_to_vec`: the bytes `encode` writes into a fresh buffer, or its error. */
  method EncodeToVec<T(!new)>(c: Codec<T>, value: T) returns (r: Result<Bytes, CodecError>)
    ensures r == c.serialize(value)
  {
    var buff := new VecWriter();
    var written := Encode(c, value, buff);
    if written.Err? {
      return Err(written.error);
    }
    assert buff.buffer == [] + c.serialize(value).value == c.serialize(value).value;
    r := Ok(buff.buffer);
  }

  /** `Decode::decode`: bincode reads a value back. */
  function Decode<T(!new)>(c: Codec<T>, bytes: Bytes): (r: Result<T, CodecError>)
    ensures c.LeftInverse() ==> forall v :: c.serialize(v) == Ok(bytes) ==> r == Ok(v)
  {
    c.deserialize(bytes)
  }

  /** Decoding the encoding of a `Signed<T>` gives it back, when bincode and the key codec round-trip. */
  lemma SignedRoundTrip<T(!new)>(repr: Codec<SignedRepr<T>>, id: Identity, s: Signed<T>)
    requires repr.LeftInverse() && id.ProtobufRoundTrip()
    requires SignedCodec(repr, id).serialize(s).Ok?
    ensures Decode(SignedCodec(repr, id), SignedCodec(repr, id).serialize(s).value) == Ok(s)
  {
    var w := SignedCodec(repr, id);
    var bytes := repr.serialize(ToRepr(id, s)).value;
    assert w.serialize(s).value == bytes;
    assert repr.deserialize(bytes) == Ok(ToRepr(id, s));
    PubKeyRoundTrip(id, s.pubKey);
  }

  /** A payload whose public-key field is malformed does not decode. */
  lemma SignedDecodeRejectsMalformedKey<T(!new)>(repr: Codec<SignedRepr<T>>, id: Identity, bytes: Bytes)
    requires repr.deserialize(bytes).Ok?
    requires id.decodeProtobuf(repr.deserialize(bytes).value.pubKey).Err?
    ensures Decode(SignedCodec(repr, id), bytes)
         == Err(CodecError(id.decodeProtobuf(repr.deserialize(bytes).value.pubKey).error.detail))
  {
  }

  // ---------------------------------------------------------------------------
  // DigestHash

  /** Keccak-256 as a streaming hasher: it hashes everything absorbed so far. */
  class Keccak256 {
    /** The hash function, fixed when the hasher is created. */
    const hash: Bytes -> Digest
    var absorbed: Bytes

    constructor (hash: Bytes -> Digest)
      ensures this.hash == hash && absorbed == []
    {
      this.hash := hash;
      absorbed := [];
    }

    method Update(data: Bytes)
      modifies this
      ensures absorbed == old(absorbed) + data
    {
      absorbed := absorbed + data;
    }

    /** The digest of everything absorbed, in the order absorbed. */
    function Finalize(): (d: Digest)
      reads this
      ensures d == hash(absorbed)
    {
      hash(absorbed)
    }
  }

  /** What `digest_hash` computes: Keccak-256 of the value's encoding, or the encoding's error. */
  function DigestOf<T(!new)>(c: Codec<T>, hash: Bytes -> Digest, value: T): (r: Result<Digest, CodecError>) {
    match c.serialize(value)
    case Ok(bytes) => Ok(hash(bytes))
    case Err(e) => Err(e)
  }

  /** `DigestHash::digest_hash`: feed `encode_to_vec` into a fresh hasher and finalise. */
  method DigestHash<T(!new)>(c: Codec<T>, hash: Bytes -> Digest, value: T) returns (r: Result<Digest, CodecError>)
    ensures r.Ok? <==> c.serialize(value).Ok?
    ensures r.Ok? ==> r.value == hash(c.serialize(value).value)
    ensures r.Err? ==> r.error == c.serialize(value).error
    ensures r == DigestOf(c, hash, value)
  {
    var hasher := new Keccak256(hash);
    var encoded := EncodeToVec(c, value);
    if encoded.Err? {
      return Err(encoded.error);
    }
    hasher.Update(encoded.value);
    assert hasher.absorbed == [] + encoded.value == c.serialize(value).value;
    r := Ok(hasher.Finalize());
  }

  /** Values with equal encodings have equal digests. */
  lemma EqualEncodingsEqualDigests<T(!new)>(c: Codec<T>, hash: Bytes -> Digest, a: T, b: T)
    requires c.serialize(a) == c.serialize(b)
    ensures DigestOf(c, hash, a) == DigestOf(c, hash, b)
  {
  }

  // ---------------------------------------------------------------------------
  // Sign / Verify

  /** `Sign::sign`: sign the digest of `value` with `keyPair` and wrap it in an envelope. */
  function Sign<T(!new)>(c: Codec<T>, hash: Bytes -> Digest, id: Identity, value: T, keyPair: Keypair)
    : (r: Result<Signed<T>, SignError<CodecError>>)
    ensures r.Ok? <==> DigestOf(c, hash, value).Ok? && id.sign(keyPair, DigestOf(c, hash, value).value).Ok?
    ensures r.Ok? ==> r.value.inner == value && r.value.pubKey == PubKey(id.publicKey(keyPair))
    ensures r.Ok? ==> DigestOf(c, hash, value).Ok?
                      && id.sign(keyPair, DigestOf(c, hash, value).value) == Ok(r.value.signature)
    ensures DigestOf(c, hash, value).Err? ==> r == Err(DigestError(DigestOf(c, hash, value).error))
    ensures DigestOf(c, hash, value).Ok? && id.sign(keyPair, DigestOf(c, hash, value).value).Err?
            ==> r == Err(SigningError(id.sign(keyPair, DigestOf(c, hash, value).value).error))
  {
    var pubKey := PubKey(id.publicKey(keyPair));
    match DigestOf(c, hash, value)
    case Err(e) => Err(DigestError(e))
    case Ok(digest) =>
      match id.sign(keyPair, digest)
      case Err(e) => Err(SigningError(e))
      case Ok(signature) => Ok(Signed(value, pubKey, signature))
  }

  /** `Signed::verify`: false when the digest cannot be computed, otherwise the key's verdict. */
  function Verify<T(!new)>(c: Codec<T>, hash: Bytes -> Digest, id: Identity, s: Signed<T>): (valid: bool)
    ensures DigestOf(c, hash, s.inner).Err? ==> !valid
    ensures DigestOf(c, hash, s.inner).Ok?
            ==> valid == id.verify(s.pubKey.key, DigestOf(c, hash, s.inner).value, s.signature)
  {
    match DigestOf(c, hash, s.inner)
    case Err(_) => false
    case Ok(digest) => id.verify(s.pubKey.key, digest, s.signature)
  }

  /** Soundness: what `sign` produces, `verify` accepts. */
  lemma SignThenVerify<T(!new)>(c: Codec<T>, hash: Bytes -> Digest, id: Identity, value: T, keyPair: Keypair)
    requires id.SignaturesVerify()
    requires Sign(c, hash, id, value, keyPair).Ok?
    ensures Verify(c, hash, id, Sign(c, hash, id, value, keyPair).value)
  {
    var digest := DigestOf(c, hash, value).value;
    assert id.sign(keyPair, digest).Ok?;
  }

  /** Keccak-256 does not collide on the encodings of `a` and `b`. */
  ghost predicate NoDigestCollision<T(!new)>(c: Codec<T>, hash: Bytes -> Digest, a: T, b: T) {
    c.serialize(a).Ok? && c.serialize(b).Ok? && c.serialize(a).value != c.serialize(b).value
    ==> hash(c.serialize(a).value) != hash(c.serialize(b).value)
  }

  /** Replacing the signed value by any other value makes `verify` fail. */
  lemma TamperedInnerRejected<T(!new)>(c: Codec<T>, hash: Bytes -> Digest, id: Identity,
                                 value: T, keyPair: Keypair, tampered: T)
    requires c.LeftInverse() && id.Unforgeable()
    requires Sign(c, hash, id, value, keyPair).Ok?
    requires tampered != value
    requires NoDigestCollision(c, hash, value, tampered)
    ensures !Verify(c, hash, id, Sign(c, hash, id, value, keyPair).value.(inner := tampered))
  {
    var s := Sign(c, hash, id, value, keyPair).value;
    if c.serialize(tampered).Ok? {
      var original := c.serialize(value).value;
      var changed := c.serialize(tampered).value;
      assert c.deserialize(original) == Ok(value);
      assert c.deserialize(changed) == Ok(tampered);
      assert hash(original) != hash(changed);
      assert id.sign(keyPair, hash(original)) == Ok(s.signature);
    }
  }

  /** The tamper test: appending to the message of a signed note makes `verify` fail. */
  lemma AppendToMessageRejected(c: Codec<Note>, hash: Bytes -> Digest, id: Identity,
                                note: Note, keyPair: Keypair, suffix: string)
    requires c.LeftInverse() && id.Unforgeable()
    requires Sign(c, hash, id, note, keyPair).Ok?
    requires suffix != []
    requires NoDigestCollision(c, hash, note, note.(msg := note.msg + suffix))
    ensures var s := Sign(c, hash, id, note, keyPair).value;
            !Verify(c, hash, id, s.(inner := s.inner.(msg := s.inner.msg + suffix)))
  {
    var tampered := note.(msg := note.msg + suffix);
    assert |tampered.msg| > |note.msg|;
    TamperedInnerRejected(c, hash, id, note, keyPair, tampered);
  }
}
