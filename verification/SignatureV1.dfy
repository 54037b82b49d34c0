/**
 The first signature format: a random prefix in front of the message, carried in the signature blob
 behind a length byte, and a length-prefixed context added by the backend.
 */
module SignatureV1 {
  import opened Common

  const HEDGED_RANDOMNESS_BYTES := 32
  const MAX_CONTEXT_LEN := 255

  datatype Error = UnsupportedAlgorithm | ContextTooLong | BackendFailed | VerificationFailed

  datatype Key = Key(algorithm: string, raw: Bytes)

  datatype SignedMessage = SignedMessage(message: Bytes, signature: Bytes, algorithm: string, context: Bytes)

  /** A `Sign` object of this format. */
  datatype Scheme = Scheme(algorithm: string, hedged: bool)

  /** The raw signature primitive of the backend's library. */
  datatype Primitive = Primitive(
    sign: (string, Bytes, Bytes, nat) -> Option<Bytes>,
    verify: (string, Bytes, Bytes, Bytes) -> bool)

  /** `_pack_sig_blob`: a length byte, the prefix, the raw signature. */
  function PackBlob(prefix: Bytes, rawSig: Bytes): Option<Bytes> {
    if |prefix| > 255 then None else Some([|prefix|] + prefix + rawSig)
  }

  /** `_unpack_sig_blob`: the caller says how long the prefix must be. */
  function UnpackBlob(blob: Bytes, expectedPrefixLen: nat): Option<(Bytes, Bytes)> {
    if |blob| < 1 then None
    else
      var n: nat := blob[0];
      if n != expectedPrefixLen || |blob| < 1 + n then None else Some((blob[1..1 + n], blob[1 + n..]))
  }

  function ExpectedPrefixLen(s: Scheme): nat {
    if s.hedged then HEDGED_RANDOMNESS_BYTES else 0
  }

  /** What the backend hands to the primitive: the context's length, the context, the message. */
  function BackendInput(context: Bytes, message: Bytes): Option<Bytes> {
    if |context| > MAX_CONTEXT_LEN then None else Some([|context|] + context + message)
  }

  function BackendVerify(p: Primitive, algorithm: string, publicKey: Bytes, message: Bytes, signature: Bytes,
                         context: Bytes): bool {
    match BackendInput(context, message)
    case None => false
    case Some(input) => p.verify(algorithm, publicKey, input, signature)
  }

  /** `Sign.sign`; `random` is the draw from the system's random source. */
  function Sign(p: Primitive, s: Scheme, message: Bytes, secret: Key, context: Bytes, random: Bytes,
                seed: nat): Result<SignedMessage, Error> {
    if secret.algorithm != s.algorithm then Err(UnsupportedAlgorithm)
    else if |context| > MAX_CONTEXT_LEN then Err(ContextTooLong)
    else
      var prefix := if s.hedged then random else [];
      match BackendInput(context, prefix + message)
      case None => Err(ContextTooLong)
      case Some(input) =>
        match p.sign(s.algorithm, secret.raw, input, seed)
        case None => Err(BackendFailed)
        case Some(rawSig) =>
          match PackBlob(prefix, rawSig)
          case None => Err(BackendFailed)
          case Some(blob) => Ok(SignedMessage(message, blob, s.algorithm, context))
  }

  /** `Sign.verify`: None is success. An expected context that is not given is the empty one. */
  function Verify(p: Primitive, s: Scheme, m: SignedMessage, publicKey: Key, expected: Option<Bytes>): Option<Error> {
    if m.context != (if expected.Some? then expected.value else []) then Some(VerificationFailed)
    else if m.algorithm != s.algorithm || publicKey.algorithm != s.algorithm then Some(UnsupportedAlgorithm)
    else VerifyBytes(p, s, m.message, m.signature, publicKey, m.context)
  }

  /** `Sign.verify_bytes`. */
  function VerifyBytes(p: Primitive, s: Scheme, message: Bytes, blob: Bytes, publicKey: Key,
                       context: Bytes): Option<Error> {
    match UnpackBlob(blob, ExpectedPrefixLen(s))
    case None => Some(VerificationFailed)
    case Some((prefix, rawSig)) =>
      if BackendVerify(p, s.algorithm, publicKey.raw, prefix + message, rawSig, context) then None
      else Some(VerificationFailed)
  }

  // ------------------------------------------------------------------ the blob and the signed bytes

  /** A blob unpacks to a pair exactly when it is that pair packed with a prefix of the expected length. */
  lemma UnpackIsInverse(blob: Bytes, n: nat, prefix: Bytes, rawSig: Bytes)
    ensures UnpackBlob(blob, n) == Some((prefix, rawSig)) <==> |prefix| == n && PackBlob(prefix, rawSig) == Some(blob)
  {
    if UnpackBlob(blob, n) == Some((prefix, rawSig)) {
      assert blob == [blob[0]] + blob[1..1 + n] + blob[1 + n..];
    }
    if |prefix| == n && PackBlob(prefix, rawSig) == Some(blob) {
      assert blob[1..1 + n] == prefix && blob[1 + n..] == rawSig;
    }
  }

  /** The bytes the primitive signs determine the context and what follows it. */
  lemma BackendInputInjective(c1: Bytes, m1: Bytes, c2: Bytes, m2: Bytes)
    requires BackendInput(c1, m1).Some? && BackendInput(c1, m1) == BackendInput(c2, m2)
    ensures c1 == c2 && m1 == m2
  {
    var l1: Bytes, l2: Bytes := [|c1|], [|c2|];
    assert l1 + c1 + m1 == l1 + (c1 + m1) && l2 + c2 + m2 == l2 + (c2 + m2);
    SplitEqual(l1, c1 + m1, l2, c2 + m2);
    assert l1[0] == l2[0];
    SplitEqual(c1, m1, c2, m2);
  }

  /** With the verifier's fixed prefix length the signed bytes and the blob together determine context,
      prefix, message and raw signature. */
  lemma SignedBytesAndBlobDetermineAll(n: nat, blob: Bytes, c1: Bytes, m1: Bytes, c2: Bytes, m2: Bytes, p1: Bytes,
                                       r1: Bytes, p2: Bytes, r2: Bytes)
    requires |p1| == n && |p2| == n
    requires PackBlob(p1, r1) == Some(blob) && PackBlob(p2, r2) == Some(blob)
    requires BackendInput(c1, p1 + m1).Some? && BackendInput(c1, p1 + m1) == BackendInput(c2, p2 + m2)
    ensures c1 == c2 && p1 == p2 && m1 == m2 && r1 == r2
  {
    UnpackIsInverse(blob, n, p1, r1);
    UnpackIsInverse(blob, n, p2, r2);
    BackendInputInjective(c1, p1 + m1, c2, p2 + m2);
    SplitEqual(p1, m1, p2, m2);
  }

  /** If the blob's own length byte were trusted, a byte could move from the prefix to the message. */
  lemma LengthByteAloneIsAmbiguous(context: Bytes, b: Byte, message: Bytes, rawSig: Bytes)
    requires |context| <= MAX_CONTEXT_LEN
    ensures BackendInput(context, [b] + message) == BackendInput(context, [] + ([b] + message))
    ensures PackBlob([b], rawSig).Some? && UnpackBlob(PackBlob([b], rawSig).value, 1) == Some(([b], rawSig))
    ensures PackBlob([], rawSig).Some? && UnpackBlob(PackBlob([], rawSig).value, 0) == Some(([], rawSig))
    ensures message != [b] + message
  {
    assert [] + ([b] + message) == [b] + message;
    UnpackIsInverse(PackBlob([b], rawSig).value, 1, [b], rawSig);
    UnpackIsInverse(PackBlob([], rawSig).value, 0, [], rawSig);
    assert |message| != |[b] + message|;
  }

  // ------------------------------------------------------------------ signing and verifying

  ghost predicate Matches(p: Primitive, algorithm: string, publicKey: Bytes, secret: Bytes) {
    forall input: Bytes, seed: nat :: p.sign(algorithm, secret, input, seed).Some? ==>
      p.verify(algorithm, publicKey, input, p.sign(algorithm, secret, input, seed).value)
  }

  /** A signature verifies under the matching key in the signer's mode, exactly when the verifier expects
      the context it was made for. */
  lemma SignThenVerify(p: Primitive, s: Scheme, message: Bytes, secret: Key, publicKey: Key, context: Bytes,
                       random: Bytes, seed: nat, expected: Option<Bytes>)
    requires |random| == HEDGED_RANDOMNESS_BYTES
    requires publicKey.algorithm == secret.algorithm && Matches(p, s.algorithm, publicKey.raw, secret.raw)
    requires Sign(p, s, message, secret, context, random, seed).Ok?
    ensures Verify(p, s, Sign(p, s, message, secret, context, random, seed).value, publicKey, expected).None?
            <==> context == if expected.Some? then expected.value else []
  {
    var m := Sign(p, s, message, secret, context, random, seed).value;
    var prefix := if s.hedged then random else [];
    var input := BackendInput(context, prefix + message).value;
    var rawSig := p.sign(s.algorithm, secret.raw, input, seed).value;
    UnpackIsInverse(m.signature, ExpectedPrefixLen(s), prefix, rawSig);
    assert p.verify(s.algorithm, publicKey.raw, input, rawSig);
  }

  /** A signature made in one mode is refused by a verifier in the other. */
  lemma OtherModeIsRefused(p: Primitive, s: Scheme, other: Scheme, message: Bytes, secret: Key, publicKey: Key,
                           context: Bytes, random: Bytes, seed: nat, expected: Option<Bytes>)
    requires |random| == HEDGED_RANDOMNESS_BYTES && other.hedged != s.hedged
    requires Sign(p, s, message, secret, context, random, seed).Ok?
    ensures Verify(p, other, Sign(p, s, message, secret, context, random, seed).value, publicKey, expected).Some?
  {
    var m := Sign(p, s, message, secret, context, random, seed).value;
    assert m.signature[0] == ExpectedPrefixLen(s);
  }

  /** Why a key is for one mode: an unhedged signature on `prefix + message` is, packed with that prefix, what a
      hedged verifier of the same key takes for a signature on `message`. */
  lemma ModesOverlap(p: Primitive, algorithm: string, prefix: Bytes, message: Bytes, secret: Key, publicKey: Key,
                     context: Bytes, random: Bytes, seed: nat)
    requires |prefix| == HEDGED_RANDOMNESS_BYTES
    requires publicKey.algorithm == secret.algorithm && Matches(p, algorithm, publicKey.raw, secret.raw)
    requires Sign(p, Scheme(algorithm, false), prefix + message, secret, context, random, seed).Ok?
    ensures var m := Sign(p, Scheme(algorithm, false), prefix + message, secret, context, random, seed).value;
            && UnpackBlob(m.signature, 0).Some?
            && PackBlob(prefix, UnpackBlob(m.signature, 0).value.1).Some?
            && VerifyBytes(p, Scheme(algorithm, true), message,
                           PackBlob(prefix, UnpackBlob(m.signature, 0).value.1).value,
                           publicKey, context).None?
  {
    var m := Sign(p, Scheme(algorithm, false), prefix + message, secret, context, random, seed).value;
    assert [] + (prefix + message) == prefix + message;
    var input := BackendInput(context, prefix + message).value;
    var rawSig := p.sign(algorithm, secret.raw, input, seed).value;
    UnpackIsInverse(m.signature, 0, [], rawSig);
    UnpackIsInverse(PackBlob(prefix, rawSig).value, HEDGED_RANDOMNESS_BYTES, prefix, rawSig);
    assert p.verify(algorithm, publicKey.raw, input, rawSig);
  }

  /** The other way round: a hedged signature on `message` is, packed without its prefix, what an unhedged verifier
      takes for a signature on `random + message`. */
  lemma ModesOverlapBack(p: Primitive, algorithm: string, message: Bytes, secret: Key, publicKey: Key,
                         context: Bytes, random: Bytes, seed: nat)
    requires |random| == HEDGED_RANDOMNESS_BYTES
    requires publicKey.algorithm == secret.algorithm && Matches(p, algorithm, publicKey.raw, secret.raw)
    requires Sign(p, Scheme(algorithm, true), message, secret, context, random, seed).Ok?
    ensures var m := Sign(p, Scheme(algorithm, true), message, secret, context, random, seed).value;
            && UnpackBlob(m.signature, HEDGED_RANDOMNESS_BYTES).Some?
            && PackBlob([], UnpackBlob(m.signature, HEDGED_RANDOMNESS_BYTES).value.1).Some?
            && VerifyBytes(p, Scheme(algorithm, false), random + message,
                           PackBlob([], UnpackBlob(m.signature, HEDGED_RANDOMNESS_BYTES).value.1).value,
                           publicKey, context).None?
  {
    var m := Sign(p, Scheme(algorithm, true), message, secret, context, random, seed).value;
    assert [] + (random + message) == random + message;
    var input := BackendInput(context, random + message).value;
    var rawSig := p.sign(algorithm, secret.raw, input, seed).value;
    UnpackIsInverse(m.signature, HEDGED_RANDOMNESS_BYTES, random, rawSig);
    UnpackIsInverse(PackBlob([], rawSig).value, 0, [], rawSig);
    assert p.verify(algorithm, publicKey.raw, input, rawSig);
  }

  datatype Signing = Signing(context: Bytes, prefix: Bytes, message: Bytes)

  /** The ideal primitive: it accepts only what was signed, hedged or not. */
  ghost predicate Ideal(p: Primitive, algorithm: string, publicKey: Bytes, signed: set<Signing>) {
    && (forall g :: g in signed ==> |g.prefix| in {0, HEDGED_RANDOMNESS_BYTES})
    && (forall input: Bytes, sig: Bytes :: p.verify(algorithm, publicKey, input, sig) ==>
          exists g :: g in signed && BackendInput(g.context, g.prefix + g.message) == Some(input))
  }

  /** The key is used in one mode only. */
  ghost predicate OneMode(s: Scheme, signed: set<Signing>) {
    forall g :: g in signed ==> |g.prefix| == ExpectedPrefixLen(s)
  }

  /** What acceptance means for a key that signs in both modes: the message was signed in that context in the
      verifier's mode, or the prefix in the blob and the message, joined, were signed in the other. */
  lemma AcceptedInMixedModes(p: Primitive, s: Scheme, message: Bytes, blob: Bytes, publicKey: Key, context: Bytes,
                             signed: set<Signing>) returns (g: Signing)
    requires Ideal(p, s.algorithm, publicKey.raw, signed)
    requires VerifyBytes(p, s, message, blob, publicKey, context).None?
    ensures g in signed && g.context == context
    ensures var (prefix, _) := UnpackBlob(blob, ExpectedPrefixLen(s)).value;
            if |g.prefix| == ExpectedPrefixLen(s) then g.prefix == prefix && g.message == message
            else if s.hedged then g.prefix == [] && g.message == prefix + message
            else |g.prefix| == HEDGED_RANDOMNESS_BYTES && message == g.prefix + g.message
  {
    var (prefix, rawSig) := UnpackBlob(blob, ExpectedPrefixLen(s)).value;
    var input := BackendInput(context, prefix + message).value;
    assert p.verify(s.algorithm, publicKey.raw, input, rawSig);
    g :| g in signed && BackendInput(g.context, g.prefix + g.message) == Some(input);
    BackendInputInjective(context, prefix + message, g.context, g.prefix + g.message);
    if |g.prefix| == ExpectedPrefixLen(s) {
      SplitEqual(prefix, message, g.prefix, g.message);
    }
  }

  /** With one mode per key only messages that were signed, in the context they were signed in, are accepted. */
  lemma AcceptedWasSigned(p: Primitive, s: Scheme, message: Bytes, blob: Bytes, publicKey: Key, context: Bytes,
                          signed: set<Signing>) returns (g: Signing)
    requires Ideal(p, s.algorithm, publicKey.raw, signed) && OneMode(s, signed)
    requires VerifyBytes(p, s, message, blob, publicKey, context).None?
    ensures g in signed && g.context == context && g.message == message
  {
    g := AcceptedInMixedModes(p, s, message, blob, publicKey, context, signed);
  }

  /** The whole check: an accepted message names the verifier's algorithm, which is the key's, carries the context the
      verifier expects, and was signed in it. */
  lemma VerifiedMessageWasSigned(p: Primitive, s: Scheme, m: SignedMessage, publicKey: Key, expected: Option<Bytes>,
                                 signed: set<Signing>) returns (g: Signing)
    requires Ideal(p, s.algorithm, publicKey.raw, signed) && OneMode(s, signed)
    requires Verify(p, s, m, publicKey, expected).None?
    ensures m.algorithm == publicKey.algorithm == s.algorithm
    ensures m.context == if expected.Some? then expected.value else []
    ensures g in signed && g.context == m.context && g.message == m.message
  {
    g := AcceptedWasSigned(p, s, m.message, m.signature, publicKey, m.context, signed);
  }

  /** What signing comes to: a key of the scheme's algorithm, a context of at most 255 bytes and a primitive that
      works, in this order, or the error of the first that is missing; then the message, the algorithm and the
      context it was made for, with a blob of the prefix's length (32 or 0), the prefix and the raw signature. */
  lemma SignsExactlyWhen(p: Primitive, s: Scheme, message: Bytes, secret: Key, context: Bytes, random: Bytes, seed: nat)
    requires |random| == 32
    ensures var r := Sign(p, s, message, secret, context, random, seed);
            var prefix: Bytes := if s.hedged then random else [];
            if secret.algorithm != s.algorithm then r == Err(UnsupportedAlgorithm)
            else if |context| > 255 then r == Err(ContextTooLong)
            else
              match p.sign(s.algorithm, secret.raw, [|context|] + context + (prefix + message), seed)
              case None => r == Err(BackendFailed)
              case Some(raw) =>
                r == Ok(SignedMessage(message, (if s.hedged then [32] else [0]) + prefix + raw, s.algorithm, context))
  {
  }

  /** A blob of the other mode, or one cut inside its prefix, fails to verify; and every failure but that of an
      algorithm that is not the scheme's is the one verification error. */
  lemma VerifyFailsHow(p: Primitive, s: Scheme, m: SignedMessage, publicKey: Key, expected: Option<Bytes>)
    ensures var r := Verify(p, s, m, publicKey, expected);
            && r in {None, Some(VerificationFailed), Some(UnsupportedAlgorithm)}
            && (r == Some(UnsupportedAlgorithm) <==>
                  && m.context == (if expected.Some? then expected.value else [])
                  && (m.algorithm != s.algorithm || publicKey.algorithm != s.algorithm))
            && (r == None ==> && |m.signature| >= (if s.hedged then 33 else 1)
                              && m.signature[0] == if s.hedged then 32 else 0)
  {
  }
}
