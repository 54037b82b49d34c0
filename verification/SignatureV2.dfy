/**
 Signature format v2: one unambiguous signed input for both halves, fixed-length blobs, and ECDSA
 signatures with a low s only. The primitives are parameters.
 */
module SignatureV2 {
  import opened Common

  const SUFFIX := "-v2"
  const LABEL_TEXT := "quantum-safe-sig-v2"
  const MAX_FIELD_LEN := 255

  const P256_ORDER: nat := 0xFFFFFFFF00000000FFFFFFFFFFFFFFFFBCE6FAADA7179E84F3B9CAC2FC632551
  const P384_ORDER: nat :=
    0xFFFFFFFFFFFFFFFFFFFFFFFFFFFFFFFFFFFFFFFFFFFFFFFFC7634D81F4372DDF581A0DB248B0A77AECEC196ACCC52973

  function Label(): Bytes {
    assert IsAscii(LABEL_TEXT);
    AsciiBytes(LABEL_TEXT)
  }

  datatype Classical = Ed25519 | P256 | P384

  /** A supported suite: an ML-DSA parameter set, alone or behind a classical half. */
  datatype Suite = Plain(pqc: string) | Hybrid(classical: Classical, pqc: string)

  function ClassicalOf(name: string): Option<Classical> {
    if name == "Ed25519" then Some(Ed25519)
    else if name == "P-256" then Some(P256)
    else if name == "P-384" then Some(P384)
    else None
  }

  /** The ML-DSA sets each classical half is combined with. */
  function PqcFor(classical: Classical): set<string> {
    match classical
    case Ed25519 => {"ML-DSA-44", "ML-DSA-65", "ML-DSA-87"}
    case P256 => {"ML-DSA-44", "ML-DSA-65"}
    case P384 => {"ML-DSA-87"}
  }

  /** An ML-DSA set alone, or what stands before and after the first plus sign. */
  function SuiteOfBase(base: string): Option<Suite> {
    var n := PlusAt(base);
    if base in {"ML-DSA-44", "ML-DSA-65", "ML-DSA-87"} then Some(Plain(base))
    else if n == |base| then None
    else match ClassicalOf(base[..n])
      case None => None
      case Some(classical) =>
        if base[n + 1..] in PqcFor(classical) then Some(Hybrid(classical, base[n + 1..])) else None
  }

  /** `base_of`: the suite of an identifier that ends in `-v2`. */
  function SuiteOf(algorithm: string): Option<Suite> {
    if |algorithm| < |SUFFIX| || algorithm[|algorithm| - |SUFFIX|..] != SUFFIX then None
    else SuiteOfBase(algorithm[..|algorithm| - |SUFFIX|])
  }

  function ClassicalName(c: Classical): string {
    match c
    case Ed25519 => "Ed25519"
    case P256 => "P-256"
    case P384 => "P-384"
  }

  function BaseName(suite: Suite): string {
    match suite
    case Plain(pqc) => pqc
    case Hybrid(classical, pqc) => ClassicalName(classical) + "+" + pqc
  }

  /** The table of suites that have a v2 identifier. */
  predicate InTable(suite: Suite) {
    match suite
    case Plain(pqc) => pqc in {"ML-DSA-44", "ML-DSA-65", "ML-DSA-87"}
    case Hybrid(Ed25519, pqc) => pqc in {"ML-DSA-44", "ML-DSA-65", "ML-DSA-87"}
    case Hybrid(P256, pqc) => pqc in {"ML-DSA-44", "ML-DSA-65"}
    case Hybrid(P384, pqc) => pqc == "ML-DSA-87"
  }

  lemma ClassicalNames(name: string, c: Classical)
    ensures ClassicalOf(name) == Some(c) <==> name == ClassicalName(c)
    ensures '+' !in ClassicalName(c)
  {
    assert "P-256"[2] != "P-384"[2];
  }

  lemma HybridIsNotPlain(base: string)
    requires '+' in base
    ensures base !in {"ML-DSA-44", "ML-DSA-65", "ML-DSA-87"}
  {
  }

  lemma BaseNamesASuite(base: string, suite: Suite)
    ensures SuiteOfBase(base) == Some(suite) <==> InTable(suite) && base == BaseName(suite)
  {
    var n := PlusAt(base);
    if suite.Hybrid? {
      var name := ClassicalName(suite.classical);
      ClassicalNames(name, suite.classical);
      if base == BaseName(suite) {
        PlusSplits(name, suite.pqc);
        HybridIsNotPlain(base);
      }
      if n < |base| {
        ClassicalNames(base[..n], suite.classical);
        assert base == base[..n] + "+" + base[n + 1..];
      }
    }
  }

  /** An identifier names a suite exactly when it is the name of a suite in the table with the suffix: identifiers
      and suites determine each other. */
  lemma IdentifierNamesASuite(algorithm: string, suite: Suite)
    ensures SuiteOf(algorithm) == Some(suite) <==> InTable(suite) && algorithm == BaseName(suite) + "-v2"
  {
    var n := |algorithm| - 3;
    if n >= 0 && algorithm[n..] == SUFFIX {
      assert algorithm == algorithm[..n] + "-v2";
      BaseNamesASuite(algorithm[..n], suite);
    }
    if algorithm == BaseName(suite) + "-v2" {
      assert algorithm[n..] == "-v2" && algorithm[..n] == BaseName(suite);
    }
  }

  /** `signed_input`: the bytes both halves sign; None is its ValueError. */
  function SignedInput(algorithm: string, context: Bytes, message: Bytes): Option<Bytes> {
    if !IsAscii(algorithm) || |algorithm| > MAX_FIELD_LEN || |context| > MAX_FIELD_LEN then None
    else Some([|algorithm|] + AsciiBytes(algorithm) + [|context|] + context + message)
  }

  /** The signed bytes determine algorithm, context and message. */
  lemma SignedInputInjective(a1: string, c1: Bytes, m1: Bytes, a2: string, c2: Bytes, m2: Bytes)
    requires SignedInput(a1, c1, m1).Some? && SignedInput(a1, c1, m1) == SignedInput(a2, c2, m2)
    ensures a1 == a2 && c1 == c2 && m1 == m2
  {
    var la1: Bytes, la2: Bytes := [|a1|], [|a2|];
    var lc1: Bytes, lc2: Bytes := [|c1|], [|c2|];
    var rest1, rest2 := lc1 + (c1 + m1), lc2 + (c2 + m2);
    assert la1 + AsciiBytes(a1) + lc1 + c1 + m1 == la1 + (AsciiBytes(a1) + rest1);
    assert la2 + AsciiBytes(a2) + lc2 + c2 + m2 == la2 + (AsciiBytes(a2) + rest2);
    SplitEqual(la1, AsciiBytes(a1) + rest1, la2, AsciiBytes(a2) + rest2);
    assert la1[0] == la2[0];
    SplitEqual(AsciiBytes(a1), rest1, AsciiBytes(a2), rest2);
    AsciiInjective(a1, a2);
    SplitEqual(lc1, c1 + m1, lc2, c2 + m2);
    assert lc1[0] == lc2[0];
    SplitEqual(c1, m1, c2, m2);
  }

  /** The classical half signs the label, a zero byte and the same input. */
  function ClassicalInput(m2: Bytes): Bytes {
    Label() + [0] + m2
  }

  lemma ClassicalInputInjective(a: Bytes, b: Bytes)
    requires ClassicalInput(a) == ClassicalInput(b)
    ensures a == b
  {
    SplitEqual(Label() + [0], a, Label() + [0], b);
  }

  // ------------------------------------------------------------------ hybrid key framing

  /** `pack_components`; None is the error of a first part over 65535 bytes. */
  function Pack(a: Bytes, b: Bytes): Option<Bytes> {
    if |a| >= U16_LIMIT then None else Some(U16(|a|) + a + b)
  }

  function Unpack(data: Bytes): Option<(Bytes, Bytes)> {
    if |data| < 2 then None
    else
      var n := FromBE(data[..2]);
      if |data| < 2 + n then None else Some((data[2..2 + n], data[2 + n..]))
  }

  lemma UnpackPacked(a: Bytes, b: Bytes)
    requires |a| < U16_LIMIT
    ensures Unpack(Pack(a, b).value) == Some((a, b))
  {
    var data := Pack(a, b).value;
    Widths();
    ToBEThenFromBE(|a|, 2);
    assert data[..2] == U16(|a|);
    assert data[2..2 + |a|] == a && data[2 + |a|..] == b;
  }

  /** Packing and unpacking are mutual inverses on everything either accepts. */
  lemma PackAndUnpackAreInverse(data: Bytes, a: Bytes, b: Bytes)
    ensures Unpack(data) == Some((a, b)) <==> Pack(a, b) == Some(data)
  {
    if Unpack(data) == Some((a, b)) {
      Widths();
      FromBEThenToBE(data[..2]);
      assert |a| == FromBE(data[..2]);
      assert data == data[..2] + a + b;
    }
    if Pack(a, b) == Some(data) {
      UnpackPacked(a, b);
    }
  }

  // ------------------------------------------------------------------ low-S ECDSA

  /** What `sign` does to s: the smaller of s and its twin. */
  function LowS(order: nat, s: nat): nat
    requires s <= order
  {
    if s > order / 2 then order - s else s
  }

  predicate IsLow(order: nat, s: nat) {
    s <= order / 2
  }

  /** Signing keeps the smaller of s and its twin, and verification takes the smaller one only. */
  lemma LowIsTheSmaller(order: nat, s: nat)
    requires s <= order
    ensures LowS(order, s) in {s, order - s} && LowS(order, s) <= order - LowS(order, s)
    ensures IsLow(order, s) <==> s <= order - s
    ensures IsLow(order, LowS(order, s))
  {
  }

  /** Of s and its twin exactly one is accepted, for every s, exactly when the order is odd. */
  lemma OneTwinIsLow(order: nat)
    requires order >= 2
    ensures (forall s :: 0 < s < order ==> (IsLow(order, s) <==> !IsLow(order, order - s))) <==> order % 2 == 1
  {
    if order % 2 == 0 {
      var s := order / 2;
      assert 0 < s < order && IsLow(order, s) && IsLow(order, order - s);
    }
  }

  lemma OrdersAreOdd()
    ensures P256_ORDER % 2 == 1 && P384_ORDER % 2 == 1
    ensures P256_ORDER < Pow256(32) && P384_ORDER < Pow256(48)
  {
    PowSquare(16);
    PowSquare(32);
    Pow16();
    assert Pow256(32) == 0x1_00000000_00000000_00000000_00000000_00000000_00000000_00000000_00000000;
    PowAdd(32, 16);
  }

  lemma Pow16()
    ensures Pow256(16) == 0x1_00000000_00000000_00000000_00000000
  {
    assert Pow256(4) == 0x1_00000000;
    PowSquare(4);
    PowSquare(8);
  }

  lemma {:induction false} PowAdd(a: nat, b: nat)
    ensures Pow256(a + b) == Pow256(a) * Pow256(b)
  {
    if a != 0 {
      PowAdd(a - 1, b);
      assert Pow256(a) * Pow256(b) == 256 * (Pow256(a - 1) * Pow256(b));
    }
  }

  lemma PowSquare(a: nat)
    ensures Pow256(a + a) == Pow256(a) * Pow256(a)
  {
    PowAdd(a, a);
  }

  /** The group orders are odd and fit their coordinate size. */
  function Order(c: Classical): (n: nat)
    ensures n % 2 == 1 && n < Pow256(CoordinateSize(c))
  {
    OrdersAreOdd();
    if c == P384 then P384_ORDER else P256_ORDER
  }

  function CoordinateSize(c: Classical): nat {
    if c == P384 then 48 else 32
  }

  function ClassicalSigLen(c: Classical): nat {
    if c == P384 then 96 else 64
  }

  /** Raw `r || s`, each half of the coordinate size. */
  function EncodePair(c: Classical, r: nat, s: nat): (b: Bytes)
    requires r < Pow256(CoordinateSize(c)) && s < Pow256(CoordinateSize(c))
    ensures |b| == 2 * CoordinateSize(c)
  {
    ToBE(r, CoordinateSize(c)) + ToBE(s, CoordinateSize(c))
  }

  function DecodePair(c: Classical, sig: Bytes): (nat, nat)
    requires |sig| == 2 * CoordinateSize(c)
  {
    (FromBE(sig[..CoordinateSize(c)]), FromBE(sig[CoordinateSize(c)..]))
  }

  lemma PairRoundTrip(c: Classical, r: nat, s: nat)
    requires r < Pow256(CoordinateSize(c)) && s < Pow256(CoordinateSize(c))
    ensures DecodePair(c, EncodePair(c, r, s)) == (r, s)
  {
    var size := CoordinateSize(c);
    ToBEThenFromBE(r, size);
    ToBEThenFromBE(s, size);
    assert EncodePair(c, r, s)[..size] == ToBE(r, size) && EncodePair(c, r, s)[size..] == ToBE(s, size);
  }

  /** A pair has one spelling. */
  lemma PairHasOneSpelling(c: Classical, a: Bytes, b: Bytes)
    requires |a| == |b| == 2 * CoordinateSize(c) && DecodePair(c, a) == DecodePair(c, b)
    ensures a == b
  {
    var size := CoordinateSize(c);
    FromBEThenToBE(a[..size]);
    FromBEThenToBE(a[size..]);
    FromBEThenToBE(b[..size]);
    FromBEThenToBE(b[size..]);
    assert a == a[..size] + a[size..] && b == b[..size] + b[size..];
  }

  /** The primitives. `ecSign` and `ecVerify` work on pairs (r, s) and bytes of the public point; the ML-DSA
      calls take FIPS 204's native context. */
  datatype Primitives = Primitives(
    edSign: (Bytes, Bytes) -> Option<Bytes>,
    edVerify: (Bytes, Bytes, Bytes) -> bool,
    ecSign: (Classical, Bytes, Bytes, nat) -> Option<(nat, nat)>,
    ecVerify: (Classical, Bytes, Bytes, nat, nat) -> bool,
    mlSign: (string, Bytes, Bytes, Bytes, nat) -> Option<Bytes>,
    mlVerify: (string, Bytes, Bytes, Bytes, Bytes) -> bool)

  function ClassicalSign(p: Primitives, c: Classical, secret: Bytes, data: Bytes, seed: nat): Option<Bytes> {
    if c == Ed25519 then p.edSign(secret, data)
    else match p.ecSign(c, secret, data, seed)
      case None => None
      case Some((r, s)) =>
        var limit := Pow256(CoordinateSize(c));
        if r >= limit || s > Order(c) || LowS(Order(c), s) >= limit then None
        else Some(EncodePair(c, r, LowS(Order(c), s)))
  }

  predicate ClassicalVerify(p: Primitives, c: Classical, public: Bytes, data: Bytes, sig: Bytes) {
    if c == Ed25519 then p.edVerify(public, data, sig)
    else if |public| != 2 * CoordinateSize(c) || |sig| != 2 * CoordinateSize(c) then false
    else
      var (r, s) := DecodePair(c, sig);
      IsLow(Order(c), s) && p.ecVerify(c, public, data, r, s)
  }

  /** The classical keys match: signatures have their range and verify, and ECDSA does not tell s from its twin. */
  ghost predicate ClassicalMatches(p: Primitives, c: Classical, public: Bytes, secret: Bytes) {
    if c == Ed25519 then
      forall data: Bytes :: p.edSign(secret, data).Some? ==>
        |p.edSign(secret, data).value| == ClassicalSigLen(c) && p.edVerify(public, data, p.edSign(secret, data).value)
    else
      && |public| == 2 * CoordinateSize(c)
      && (forall data: Bytes, seed: nat :: p.ecSign(c, secret, data, seed).Some? ==>
            var (r, s) := p.ecSign(c, secret, data, seed).value;
            0 < r < Order(c) && 0 < s < Order(c) && p.ecVerify(c, public, data, r, s))
      && TwinBlind(p, c, public)
  }

  ghost predicate TwinBlind(p: Primitives, c: Classical, public: Bytes) {
    forall data: Bytes, r: nat, s: nat :: 0 < s < Order(c) ==>
          p.ecVerify(c, public, data, r, s) == p.ecVerify(c, public, data, r, Order(c) - s)
  }

  /** What `sign` emits is low and is always accepted. */
  lemma ClassicalSignThenVerify(p: Primitives, c: Classical, public: Bytes, secret: Bytes, data: Bytes, seed: nat)
    requires ClassicalMatches(p, c, public, secret) && ClassicalSign(p, c, secret, data, seed).Some?
    ensures |ClassicalSign(p, c, secret, data, seed).value| == ClassicalSigLen(c)
    ensures ClassicalVerify(p, c, public, data, ClassicalSign(p, c, secret, data, seed).value)
  {
    if c != Ed25519 {
      var (r, s) := p.ecSign(c, secret, data, seed).value;
      PairRoundTrip(c, r, LowS(Order(c), s));
      assert p.ecVerify(c, public, data, r, s) == p.ecVerify(c, public, data, r, Order(c) - s);
    }
  }

  /** Signing with ECDSA always works when the primitive does, and emits r and the smaller of s and its twin. */
  lemma EcdsaSigns(p: Primitives, c: Classical, secret: Bytes, data: Bytes, seed: nat, r: nat, s: nat)
    requires c != Ed25519 && p.ecSign(c, secret, data, seed) == Some((r, s))
    requires r < Order(c) && s < Order(c)
    ensures ClassicalSign(p, c, secret, data, seed).Some?
    ensures var sig := ClassicalSign(p, c, secret, data, seed).value;
            var order := if c == P384 then P384_ORDER else P256_ORDER;
            && |sig| == 2 * CoordinateSize(c)
            && DecodePair(c, sig) == (r, if s <= order - s then s else order - s)
  {
    PairRoundTrip(c, r, LowS(Order(c), s));
  }

  /** An accepted ECDSA half has both fixed lengths, an s that is at most its twin, and is a valid signature. */
  lemma AcceptedIsLow(p: Primitives, c: Classical, public: Bytes, data: Bytes, sig: Bytes)
    requires c != Ed25519 && ClassicalVerify(p, c, public, data, sig)
    ensures |public| == |sig| == if c == P384 then 96 else 64
    ensures var (r, s) := DecodePair(c, sig);
            2 * s <= (if c == P384 then P384_ORDER else P256_ORDER) && p.ecVerify(c, public, data, r, s)
  {
  }

  /** ECDSA alone accepts every signature twice; here an accepted signature's twin is refused. */
  lemma TwinIsRefused(p: Primitives, c: Classical, public: Bytes, data: Bytes, sig: Bytes, r: nat, s: nat)
    requires c != Ed25519 && TwinBlind(p, c, public)
    requires r < Order(c) && 0 < s < Order(c) && sig == EncodePair(c, r, s)
    requires ClassicalVerify(p, c, public, data, sig)
    ensures p.ecVerify(c, public, data, r, Order(c) - s)
    ensures !ClassicalVerify(p, c, public, data, EncodePair(c, r, Order(c) - s))
  {
    PairRoundTrip(c, r, s);
    PairRoundTrip(c, r, Order(c) - s);
  }

  // ------------------------------------------------------------------ sign and verify

  datatype Error = UnsupportedAlgorithm | BadInput | PrimitiveFailed | VerificationFailed

  function Sign(p: Primitives, algorithm: string, secret: Bytes, message: Bytes, context: Bytes,
                seed: nat): Result<Bytes, Error> {
    match SuiteOf(algorithm)
    case None => Err(UnsupportedAlgorithm)
    case Some(suite) =>
      match SignedInput(algorithm, context, message)
      case None => Err(BadInput)
      case Some(m2) =>
        match suite
        case Plain(pqc) =>
          (match p.mlSign(pqc, secret, m2, Label(), seed)
           case None => Err(PrimitiveFailed)
           case Some(sig) => Ok(sig))
        case Hybrid(classical, pqc) =>
          match Unpack(secret)
          case None => Err(BadInput)
          case Some((cSecret, pSecret)) =>
            match (ClassicalSign(p, classical, cSecret, ClassicalInput(m2), seed),
                   p.mlSign(pqc, pSecret, m2, Label(), seed))
            case (Some(cSig), Some(pSig)) => Ok(cSig + pSig)
            case _ => Err(PrimitiveFailed)
  }

  /** None is success. */
  function Verify(p: Primitives, algorithm: string, public: Bytes, message: Bytes, blob: Bytes,
                  context: Bytes): Option<Error> {
    match SuiteOf(algorithm)
    case None => Some(UnsupportedAlgorithm)
    case Some(suite) =>
      if |context| > MAX_FIELD_LEN || message == [] then Some(VerificationFailed)
      else match SignedInput(algorithm, context, message)
        case None => Some(BadInput)
        case Some(m2) => if VerifyHalves(p, suite, public, m2, blob) then None else Some(VerificationFailed)
  }

  predicate VerifyHalves(p: Primitives, suite: Suite, public: Bytes, m2: Bytes, blob: Bytes) {
    match suite
    case Plain(pqc) => p.mlVerify(pqc, public, m2, blob, Label())
    case Hybrid(classical, pqc) =>
      match Unpack(public)
      case None => false
      case Some((cPublic, pPublic)) =>
        var n := ClassicalSigLen(classical);
        && |blob| > n
        && ClassicalVerify(p, classical, cPublic, ClassicalInput(m2), blob[..n])
        && p.mlVerify(pqc, pPublic, m2, blob[n..], Label())
  }

  ghost predicate MlMatches(p: Primitives, pqc: string, public: Bytes, secret: Bytes) {
    forall m2: Bytes, seed: nat :: p.mlSign(pqc, secret, m2, Label(), seed).Some? ==>
      var sig := p.mlSign(pqc, secret, m2, Label(), seed).value;
      sig != [] && p.mlVerify(pqc, public, m2, sig, Label())
  }

  /** The key pair of a suite; a hybrid's halves are packed. */
  ghost predicate KeysMatch(p: Primitives, suite: Suite, public: Bytes, secret: Bytes) {
    match suite
    case Plain(pqc) => MlMatches(p, pqc, public, secret)
    case Hybrid(classical, pqc) =>
      && Unpack(public).Some? && Unpack(secret).Some?
      && ClassicalMatches(p, classical, Unpack(public).value.0, Unpack(secret).value.0)
      && MlMatches(p, pqc, Unpack(public).value.1, Unpack(secret).value.1)
  }

  /** A signature verifies under the matching key exactly when the message is not empty: `sign` takes an
      empty message, `verify` refuses one. */
  lemma SignThenVerify(p: Primitives, algorithm: string, public: Bytes, secret: Bytes, message: Bytes, context: Bytes,
                       seed: nat)
    requires SuiteOf(algorithm).Some? && KeysMatch(p, SuiteOf(algorithm).value, public, secret)
    requires Sign(p, algorithm, secret, message, context, seed).Ok?
    ensures var blob := Sign(p, algorithm, secret, message, context, seed).value;
            Verify(p, algorithm, public, message, blob, context).None? <==> message != []
  {
    var blob := Sign(p, algorithm, secret, message, context, seed).value;
    var m2 := SignedInput(algorithm, context, message).value;
    match SuiteOf(algorithm).value
    case Plain(_) =>
    case Hybrid(classical, pqc) =>
      var (cSecret, pSecret) := Unpack(secret).value;
      var (cPublic, pPublic) := Unpack(public).value;
      ClassicalSignThenVerify(p, classical, cPublic, cSecret, ClassicalInput(m2), seed);
      var cSig := ClassicalSign(p, classical, cSecret, ClassicalInput(m2), seed).value;
      var pSig := p.mlSign(pqc, pSecret, m2, Label(), seed).value;
      assert blob[..|cSig|] == cSig && blob[|cSig|..] == pSig;
  }

  lemma AsciiConcat(a: string, b: string)
    requires IsAscii(a) && IsAscii(b)
    ensures IsAscii(a + b)
  {
  }

  lemma IdentifiersAreShort(suite: Suite)
    requires InTable(suite)
    ensures IsAscii(BaseName(suite) + "-v2") && |BaseName(suite) + "-v2"| <= 20
  {
    assert IsAscii(suite.pqc) && |suite.pqc| == 9 && IsAscii("-v2");
    if suite.Hybrid? {
      assert IsAscii(ClassicalName(suite.classical)) && |ClassicalName(suite.classical)| <= 7 && IsAscii("+");
      AsciiConcat(ClassicalName(suite.classical), "+");
      AsciiConcat(ClassicalName(suite.classical) + "+", suite.pqc);
    }
    AsciiConcat(BaseName(suite), "-v2");
  }

  /** What signing comes to for every suite in the table: an error for a context over 255 bytes or a hybrid key that
      does not unpack; else both halves sign the same input, the length of the identifier, the identifier, the length
      of the context, the context and the message, under the format's label. */
  lemma SignsExactlyWhen(p: Primitives, suite: Suite, secret: Bytes, message: Bytes, context: Bytes, seed: nat)
    requires InTable(suite)
    ensures var algorithm := BaseName(suite) + "-v2";
            && IsAscii(algorithm) && |algorithm| <= 20
            && var r := Sign(p, algorithm, secret, message, context, seed);
               if |context| > 255 then r == Err(BadInput)
               else
                 var m2: Bytes := [|algorithm|] + AsciiBytes(algorithm) + [|context|] + context + message;
                 if suite.Plain? then
                   r == (if p.mlSign(suite.pqc, secret, m2, Label(), seed).Some?
                         then Ok(p.mlSign(suite.pqc, secret, m2, Label(), seed).value) else Err(PrimitiveFailed))
                 else if Unpack(secret).None? then r == Err(BadInput)
                 else
                   var classical := ClassicalSign(p, suite.classical, Unpack(secret).value.0, Label() + [0] + m2, seed);
                   var pqc := p.mlSign(suite.pqc, Unpack(secret).value.1, m2, Label(), seed);
                   r == if classical.Some? && pqc.Some? then Ok(classical.value + pqc.value) else Err(PrimitiveFailed)
  {
    IdentifiersAreShort(suite);
    IdentifierNamesASuite(BaseName(suite) + "-v2", suite);
  }

  /** An identifier that names no suite is told apart on both sides; every other failure to verify is the one
      verification error. What verifies has a context of at most 255 bytes, a message, and in a hybrid both halves. */
  lemma VerifyFailsHow(p: Primitives, algorithm: string, public: Bytes, message: Bytes, blob: Bytes, context: Bytes,
                       secret: Bytes, seed: nat)
    ensures var r := Verify(p, algorithm, public, message, blob, context);
            && r in {None, Some(UnsupportedAlgorithm), Some(VerificationFailed)}
            && (r == Some(UnsupportedAlgorithm) <==>
                  forall suite :: InTable(suite) ==> algorithm != BaseName(suite) + "-v2")
            && (r == None ==>
                  && |context| <= 255 && message != []
                  && exists suite :: InTable(suite) && algorithm == BaseName(suite) + "-v2"
                       && (suite.Hybrid? ==> |blob| > if suite.classical == P384 then 96 else 64))
    ensures Sign(p, algorithm, secret, message, context, seed) == Err(UnsupportedAlgorithm)
            <==> forall suite :: InTable(suite) ==> algorithm != BaseName(suite) + "-v2"
  {
    match SuiteOf(algorithm)
    case Some(suite) =>
      IdentifierNamesASuite(algorithm, suite);
      IdentifiersAreShort(suite);
    case None =>
      forall suite | InTable(suite)
        ensures algorithm != BaseName(suite) + "-v2"
      {
        IdentifierNamesASuite(algorithm, suite);
      }
  }

  datatype Signing = Signing(algorithm: string, context: Bytes, message: Bytes)

  /** The ideal ML-DSA half: it accepts, under the format's label, only inputs that were signed. */
  ghost predicate Ideal(p: Primitives, pqc: string, public: Bytes, signed: set<Signing>) {
    forall m2: Bytes, sig: Bytes :: p.mlVerify(pqc, public, m2, sig, Label()) ==>
      exists g :: g in signed && SignedInput(g.algorithm, g.context, g.message) == Some(m2)
  }

  function MlPublic(suite: Suite, public: Bytes): Bytes {
    match suite
    case Plain(_) => public
    case Hybrid(_, _) => if Unpack(public).Some? then Unpack(public).value.1 else []
  }

  /** Accepted means signed: this message, in this context, under this algorithm identifier. Even one ML-DSA
      key used under several identifiers keeps them apart, and a broken classical half changes nothing. */
  lemma AcceptedWasSigned(p: Primitives, algorithm: string, public: Bytes, message: Bytes, blob: Bytes,
                          context: Bytes, signed: set<Signing>)
    requires SuiteOf(algorithm).Some?
             && Ideal(p, SuiteOf(algorithm).value.pqc, MlPublic(SuiteOf(algorithm).value, public), signed)
    requires Verify(p, algorithm, public, message, blob, context).None?
    ensures Signing(algorithm, context, message) in signed
  {
    var suite := SuiteOf(algorithm).value;
    var m2 := SignedInput(algorithm, context, message).value;
    var sig := if suite.Plain? then blob else blob[ClassicalSigLen(suite.classical)..];
    assert p.mlVerify(suite.pqc, MlPublic(suite, public), m2, sig, Label());
    var g :| g in signed && SignedInput(g.algorithm, g.context, g.message) == Some(m2);
    SignedInputInjective(algorithm, context, message, g.algorithm, g.context, g.message);
    assert g == Signing(algorithm, context, message);
  }

  function ClassicalInputOf(g: Signing): Option<Bytes> {
    match SignedInput(g.algorithm, g.context, g.message)
    case None => None
    case Some(m2) => Some(ClassicalInput(m2))
  }

  /** The ideal classical half: it accepts only the labelled inputs that were signed. */
  ghost predicate IdealClassical(p: Primitives, c: Classical, public: Bytes, signed: set<Signing>) {
    forall data: Bytes, sig: Bytes :: ClassicalVerify(p, c, public, data, sig) ==>
      exists g :: g in signed && ClassicalInputOf(g) == Some(data)
  }

  /** The same from the classical half alone, should ML-DSA be the broken one. */
  lemma AcceptedWasSignedByTheClassicalHalf(p: Primitives, algorithm: string, classical: Classical, pqc: string,
                                            public: Bytes, cPublic: Bytes, pPublic: Bytes, message: Bytes,
                                            blob: Bytes, context: Bytes, signed: set<Signing>)
    requires SuiteOf(algorithm) == Some(Hybrid(classical, pqc)) && Unpack(public) == Some((cPublic, pPublic))
    requires IdealClassical(p, classical, cPublic, signed)
    requires Verify(p, algorithm, public, message, blob, context).None?
    ensures Signing(algorithm, context, message) in signed
  {
    var m2 := SignedInput(algorithm, context, message).value;
    var sig := blob[..ClassicalSigLen(classical)];
    assert ClassicalVerify(p, classical, cPublic, ClassicalInput(m2), sig);
    var g :| g in signed && ClassicalInputOf(g) == Some(ClassicalInput(m2));
    ClassicalInputInjective(SignedInput(g.algorithm, g.context, g.message).value, m2);
    SignedInputInjective(algorithm, context, message, g.algorithm, g.context, g.message);
    assert g == Signing(algorithm, context, message);
  }
}
