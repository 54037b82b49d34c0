/**
 The sealed-message envelope: sealing to a recipient key, opening, moving a message to another key, and
 its two encodings. Primitives are parameters; randomness is an explicit seed.
 */
module Envelope {
  import opened Common

  const ENVELOPE_V1 := 1
  const ENVELOPE_V2 := 2
  const CNSA2_ALGORITHM := "ML-KEM-1024"
  const ML_KEM_1024_CT_LEN := 1568
  const NONCE_LEN := 12
  const MAX_PAYLOAD_BYTES := 10 * 1024 * 1024

  datatype PublicKey = PublicKey(algorithm: string, id: nat)

  datatype SecretKey = SecretKey(algorithm: string, id: nat)

  datatype Message = Message(version: int, algorithm: string, kemCt: Bytes, nonce: Bytes, ciphertext: Bytes, aad: Bytes)

  datatype Crypto = Crypto(
    encapsulate: (PublicKey, nat) -> Option<(Bytes, Bytes)>,
    decapsulate: (SecretKey, string, Bytes) -> Option<Bytes>,
    derive: (Bytes, int) -> Bytes,
    randomNonce: nat -> Bytes,
    encrypt: (Bytes, Bytes, Bytes, Bytes) -> Bytes,
    decrypt: (Bytes, Bytes, Bytes, Bytes) -> Option<Bytes>)

  /** Version 1 for hybrid suites, version 2 for pure ML-KEM-1024. */
  function VersionFor(algorithm: string): Option<int> {
    if '+' in algorithm then Some(ENVELOPE_V1)
    else if algorithm == CNSA2_ALGORITHM then Some(ENVELOPE_V2)
    else None
  }

  /** The AAD of the cipher: version byte, length byte, algorithm, the caller's AAD. */
  function BuildAad(version: int, algorithm: string, extra: Bytes): Option<Bytes> {
    if !IsAscii(algorithm) || |algorithm| > 255 || !(0 <= version < 256) then None
    else Some([version, |algorithm|] + AsciiBytes(algorithm) + extra)
  }

  /** The authenticated bytes determine version, algorithm and the caller's AAD. */
  lemma BuildAadInjective(v1: int, a1: string, x1: Bytes, v2: int, a2: string, x2: Bytes)
    requires BuildAad(v1, a1, x1).Some? && BuildAad(v1, a1, x1) == BuildAad(v2, a2, x2)
    ensures v1 == v2 && a1 == a2 && x1 == x2
  {
    var p1: Bytes, p2: Bytes := [v1, |a1|], [v2, |a2|];
    assert p1 + AsciiBytes(a1) + x1 == p1 + (AsciiBytes(a1) + x1);
    assert p2 + AsciiBytes(a2) + x2 == p2 + (AsciiBytes(a2) + x2);
    SplitEqual(p1, AsciiBytes(a1) + x1, p2, AsciiBytes(a2) + x2);
    assert p1[0] == p2[0] && p1[1] == p2[1];
    SplitEqual(AsciiBytes(a1), x1, AsciiBytes(a2), x2);
    AsciiInjective(a1, a2);
  }

  /** `seal`; None stands for any exception. */
  function Seal(c: Crypto, plaintext: Bytes, pk: PublicKey, aad: Bytes, seed: nat): Option<Message> {
    match (VersionFor(pk.algorithm), c.encapsulate(pk, seed))
    case (Some(version), Some((kemCt, secret))) =>
      (match BuildAad(version, pk.algorithm, aad)
       case None => None
       case Some(built) =>
         var nonce := c.randomNonce(seed);
         if |nonce| != NONCE_LEN then None
         else Some(Message(version, pk.algorithm, kemCt, nonce,
                           c.encrypt(c.derive(secret, version), nonce, built, plaintext), aad)))
    case _ => None
  }

  /** `open` with an expected AAD; None stands for any exception. */
  function Open(c: Crypto, m: Message, sk: SecretKey, expectedAad: Bytes): Option<Bytes> {
    if m.aad != expectedAad then None
    else if VersionFor(m.algorithm) != Some(m.version) then None
    else if m.version == ENVELOPE_V2 && |m.kemCt| != ML_KEM_1024_CT_LEN then None
    else match (c.decapsulate(sk, m.algorithm, m.kemCt), BuildAad(m.version, m.algorithm, m.aad))
      case (Some(secret), Some(built)) => c.decrypt(c.derive(secret, m.version), m.nonce, built, m.ciphertext)
      case _ => None
  }

  /** `rewrap`: open under the old key, seal to the new one, keep the AAD. */
  function Rewrap(c: Crypto, m: Message, oldSecret: SecretKey, newPublic: PublicKey, expectedAad: Bytes,
                  seed: nat): Option<Message> {
    match Open(c, m, oldSecret, expectedAad)
    case None => None
    case Some(plaintext) => Seal(c, plaintext, newPublic, m.aad, seed)
  }

  /** The AEAD undoes itself, nonces have their length, and the secret key matches the public key. */
  ghost predicate Matches(c: Crypto, pk: PublicKey, sk: SecretKey) {
    && (forall k: Bytes, n: Bytes, a: Bytes, p: Bytes :: c.decrypt(k, n, a, c.encrypt(k, n, a, p)) == Some(p))
    && (forall seed :: c.encapsulate(pk, seed).Some? ==>
          && c.decapsulate(sk, pk.algorithm, c.encapsulate(pk, seed).value.0) == Some(c.encapsulate(pk, seed).value.1)
          && (pk.algorithm == CNSA2_ALGORITHM ==> |c.encapsulate(pk, seed).value.0| == ML_KEM_1024_CT_LEN))
  }

  lemma SealThenOpen(c: Crypto, plaintext: Bytes, pk: PublicKey, sk: SecretKey, aad: Bytes, seed: nat)
    requires Matches(c, pk, sk) && Seal(c, plaintext, pk, aad, seed).Some?
    ensures var m := Seal(c, plaintext, pk, aad, seed).value;
            && Open(c, m, sk, aad) == Some(plaintext)
            && m.aad == aad && m.algorithm == pk.algorithm
  {
  }

  /** Moving a message keeps its plaintext and its AAD. */
  lemma RewrapPreserves(c: Crypto, m: Message, oldSecret: SecretKey, newPublic: PublicKey, newSecret: SecretKey,
                        expectedAad: Bytes, seed: nat)
    requires Matches(c, newPublic, newSecret) && Rewrap(c, m, oldSecret, newPublic, expectedAad, seed).Some?
    ensures var moved := Rewrap(c, m, oldSecret, newPublic, expectedAad, seed).value;
            && moved.aad == m.aad == expectedAad && moved.algorithm == newPublic.algorithm
            && Open(c, m, oldSecret, expectedAad).Some?
            && Open(c, moved, newSecret, expectedAad) == Open(c, m, oldSecret, expectedAad)
  {
    SealThenOpen(c, Open(c, m, oldSecret, expectedAad).value, newPublic, newSecret, m.aad, seed);
  }

  // ------------------------------------------------------------------ what is taken and what is refused

  /** Each algorithm has one version: 1 for hybrid suites, 2 for pure ML-KEM-1024; anything else has none. */
  predicate VersionFits(version: int, algorithm: string) {
    (version == 1 && '+' in algorithm) || (version == 2 && algorithm == "ML-KEM-1024")
  }

  /** Sealing works exactly for an algorithm that has a version and a name that fits its length byte, when the KEM
      and the random source do their part. */
  lemma SealsExactlyWhen(c: Crypto, plaintext: Bytes, pk: PublicKey, aad: Bytes, seed: nat)
    ensures Seal(c, plaintext, pk, aad, seed).Some?
            <==>
            && (exists version :: VersionFits(version, pk.algorithm)) && IsAscii(pk.algorithm) && |pk.algorithm| <= 255
            && c.encapsulate(pk, seed).Some? && |c.randomNonce(seed)| == 12
    ensures Seal(c, plaintext, pk, aad, seed).Some? ==>
              var m := Seal(c, plaintext, pk, aad, seed).value;
              VersionFits(m.version, m.algorithm) && m.algorithm == pk.algorithm && m.aad == aad && |m.nonce| == 12
  {
    assert VersionFits(1, pk.algorithm) || VersionFits(2, pk.algorithm)
           <==> '+' in pk.algorithm || pk.algorithm == "ML-KEM-1024";
  }

  /** A message opens only with its own AAD expected, under the version of its algorithm, and with a KEM ciphertext
      of the right length where that is fixed: a relabelled version is refused. */
  lemma OpensOnlyWhen(c: Crypto, m: Message, sk: SecretKey, expectedAad: Bytes)
    requires Open(c, m, sk, expectedAad).Some?
    ensures m.aad == expectedAad && VersionFits(m.version, m.algorithm)
    ensures m.version == 2 ==> |m.kemCt| == 1568
    ensures c.decapsulate(sk, m.algorithm, m.kemCt).Some?
  {
  }

  /** The ideal AEAD: it decrypts only what was sealed; `sealed` says which plaintext each message holds. */
  ghost predicate Authentic(c: Crypto, sealed: map<Message, Bytes>) {
    forall k: Bytes, n: Bytes, a: Bytes, ct: Bytes :: c.decrypt(k, n, a, ct).Some? ==>
      exists m :: m in sealed && sealed[m] == c.decrypt(k, n, a, ct).value
                  && m.nonce == n && m.ciphertext == ct && BuildAad(m.version, m.algorithm, m.aad) == Some(a)
  }

  /** What opens was sealed with this version, algorithm, AAD, nonce and ciphertext, and it opens to what was sealed:
      no field that is not part of the KEM can be changed. */
  lemma OpenedWasSealed(c: Crypto, m: Message, sk: SecretKey, expectedAad: Bytes, sealed: map<Message, Bytes>)
    returns (was: Message)
    requires Authentic(c, sealed) && Open(c, m, sk, expectedAad).Some?
    ensures was in sealed && sealed[was] == Open(c, m, sk, expectedAad).value
    ensures was == m.(kemCt := was.kemCt) && was.aad == expectedAad
  {
    var built := BuildAad(m.version, m.algorithm, m.aad).value;
    var key := c.derive(c.decapsulate(sk, m.algorithm, m.kemCt).value, m.version);
    was :| was in sealed && sealed[was] == c.decrypt(key, m.nonce, built, m.ciphertext).value
           && was.nonce == m.nonce && was.ciphertext == m.ciphertext
           && BuildAad(was.version, was.algorithm, was.aad) == Some(built);
    BuildAadInjective(m.version, m.algorithm, m.aad, was.version, was.algorithm, was.aad);
  }

  // ------------------------------------------------------------------ encodings

  /** CBOR and hex; `fromCbor` includes the type and length checks of the message constructor. */
  datatype Codec = Codec(
    toCbor: Message -> Bytes,
    fromCbor: Bytes -> Option<Message>,
    toHex: Bytes -> Bytes,
    fromHex: Bytes -> Option<Bytes>)

  datatype Encoding = Raw | Hex

  /** The loader refuses more than 10 MB before it decodes. */
  function FromBytes(codec: Codec, raw: Bytes): Option<Message> {
    if |raw| > MAX_PAYLOAD_BYTES then None else codec.fromCbor(raw)
  }

  function Parse(codec: Codec, raw: Bytes): Option<(Message, Encoding)> {
    match FromBytes(codec, raw)
    case Some(m) => Some((m, Raw))
    case None =>
      match codec.fromHex(raw)
      case None => None
      case Some(b) => (match FromBytes(codec, b) case Some(m) => Some((m, Hex)) case None => None)
  }

  function Encode(codec: Codec, m: Message, e: Encoding): Bytes {
    if e == Hex then codec.toHex(codec.toCbor(m)) else codec.toCbor(m)
  }

  /** The check of the message constructor. */
  predicate WellFormed(m: Message) {
    |m.nonce| == NONCE_LEN
  }

  /** Decoding undoes encoding; hex text of a message is never CBOR of one, nor CBOR hex text. */
  ghost predicate RoundTrips(codec: Codec) {
    && (forall m :: WellFormed(m) ==> codec.fromCbor(codec.toCbor(m)) == Some(m))
    && (forall b :: codec.fromHex(codec.toHex(b)) == Some(b))
    && (forall m :: codec.fromCbor(codec.toHex(codec.toCbor(m))) == None)
    && (forall m :: codec.fromHex(codec.toCbor(m)) == None)
  }

  /** A written message parses back, in the encoding it was written in, exactly when it is within the
      loader's limit. */
  lemma EncodeThenParse(codec: Codec, m: Message, e: Encoding)
    requires RoundTrips(codec) && WellFormed(m)
    ensures Parse(codec, Encode(codec, m, e)) == Some((m, e)) <==> |codec.toCbor(m)| <= MAX_PAYLOAD_BYTES
    ensures |codec.toCbor(m)| > MAX_PAYLOAD_BYTES ==> Parse(codec, Encode(codec, m, e)) == None
  {
    assert codec.fromCbor(codec.toHex(codec.toCbor(m))) == None;
    assert codec.fromHex(codec.toHex(codec.toCbor(m))) == Some(codec.toCbor(m));
    assert codec.fromHex(codec.toCbor(m)) == None;
  }
}
