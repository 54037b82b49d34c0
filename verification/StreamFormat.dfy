/**
 The wire format of the streaming envelope (format v3): header, per-chunk AAD and nonce, frames,
 and what a whole stream seals to and opens to on flat byte strings.
 Cryptography is a parameter: `Crypto` bundles the CBOR codec, the KEM, the key derivation and the
 AEAD as functions about which theorems state their hypotheses.
 */
module StreamFormat {
  import opened Common

  const MAGIC: Bytes := [0x51, 0x53, 0x53, 0x33]
  const STREAM_VERSION := 3
  const NONCE_PREFIX_LEN := 7
  const TAG_LEN := 16
  const MIN_CHUNK_SIZE := 1024
  const MAX_CHUNK_SIZE := 16 * 1024 * 1024
  const MAX_HEADER_LEN := 64 * 1024
  const MAX_COUNTER: nat := 0xFFFF_FFFF

  /** The decoded CBOR values a header map can hold. */
  datatype Value =
    | IntValue(i: int)
    | BoolValue(b: bool)
    | FloatValue(f: real)
    | TextValue(s: string)
    | BytesValue(data: Bytes)
    | OtherValue

  datatype StreamError =
    | ChunkSizeOutOfRange
    | UnsupportedSuite
    | AadTooLong
    | TooManyChunks
    | Finished
    | WrongLength
    | InvalidTag
    | TooShort
    | BadMagic
    | HeaderLengthOutOfRange
    | EndedInHeader
    | BadHeader
    | AlgorithmMismatch
    | DecapsulationFailed
    | NoFinalChunk
    | EndedInFrameLength
    | FrameLengthOutOfRange
    | EndedInFrame

  /** How a generator ended: it ran to completion, or it raised. */
  datatype Outcome = Done | Raised(error: StreamError)

  /** One recipient's view of the primitives; `decapsulate` is under the recipient's secret key. */
  datatype Crypto = Crypto(
    dumps: map<string, Value> -> Bytes,
    loads: Bytes -> Option<map<string, Value>>,
    keyAlgorithm: string,
    decapsulate: Bytes -> Option<Bytes>,
    derive: (Bytes, Bytes) -> Bytes,
    encrypt: (Bytes, Bytes, Bytes, Bytes) -> Bytes,
    decrypt: (Bytes, Bytes, Bytes, Bytes) -> Option<Bytes>)

  // ------------------------------------------------------------------ suites

  /** Ciphertext lengths of the post-quantum KEMs of the registry. */
  const PQC_CIPHERTEXTS: map<string, nat> := map[
    "ML-KEM-512" := 768, "ML-KEM-768" := 1088, "ML-KEM-1024" := 1568,
    "BIKE-L1" := 1573, "BIKE-L3" := 3115, "BIKE-L5" := 5154, "HQC-128" := 4433, "HQC-192" := 8978, "HQC-256" := 14421]

  /** Lengths of the classical half of a hybrid ciphertext. */
  const CLASSICAL_CIPHERTEXTS: map<string, nat> := map["X25519" := 32, "P-256" := 65, "P-384" := 97]

  /** The KEM ciphertext length of a suite, None for a suite the stream does not take: pure ML-KEM-1024, X-Wing,
      or a classical and a post-quantum KEM, whose ciphertexts are joined behind a two-byte length. */
  function SuiteCiphertextLen(algorithm: string): Option<nat> {
    if algorithm == "ML-KEM-1024" then Some(1568)
    else if algorithm == "X-Wing" then Some(1120)
    else
      var n := PlusAt(algorithm);
      if n == |algorithm| then None
      else
        var classical, pqc := algorithm[..n], algorithm[n + 1..];
        if classical in CLASSICAL_CIPHERTEXTS && pqc in PQC_CIPHERTEXTS
        then Some(2 + CLASSICAL_CIPHERTEXTS[classical] + PQC_CIPHERTEXTS[pqc])
        else None
  }

  predicate Supported(algorithm: string) {
    SuiteCiphertextLen(algorithm).Some?
  }

  lemma ClassicalNamesHaveNoPlus(classical: string)
    requires classical in CLASSICAL_CIPHERTEXTS
    ensures '+' !in classical
  {
  }

  /** The suites are ML-KEM-1024 and X-Wing alone and every pair of a classical and a post-quantum KEM joined by a
      plus sign; a pair's ciphertext is both with a two-byte length. */
  lemma SuitesExactly(algorithm: string, length: nat)
    ensures SuiteCiphertextLen(algorithm) == Some(length)
            <==>
            || (algorithm == "ML-KEM-1024" && length == 1568)
            || (algorithm == "X-Wing" && length == 1120)
            || exists classical, pqc :: classical in CLASSICAL_CIPHERTEXTS && pqc in PQC_CIPHERTEXTS
                 && algorithm == classical + "+" + pqc
                 && length == 2 + CLASSICAL_CIPHERTEXTS[classical] + PQC_CIPHERTEXTS[pqc]
  {
    var n := PlusAt(algorithm);
    if n < |algorithm| {
      assert algorithm == algorithm[..n] + "+" + algorithm[n + 1..];
      assert algorithm[n] == '+' && '+' !in "ML-KEM-1024" && '+' !in "X-Wing";
    }
    forall classical, pqc | classical in CLASSICAL_CIPHERTEXTS && pqc in PQC_CIPHERTEXTS
                            && algorithm == classical + "+" + pqc
      ensures n < |algorithm| && algorithm[..n] == classical && algorithm[n + 1..] == pqc
    {
      ClassicalNamesHaveNoPlus(classical);
      PlusSplits(classical, pqc);
    }
  }

  /** A suite's name and its KEM ciphertext are short. */
  lemma SuitesAreShort(algorithm: string)
    requires Supported(algorithm)
    ensures |algorithm| <= 18 && SuiteCiphertextLen(algorithm).value <= 14520
  {
  }

  /** What CBOR adds to the values of a header: map and value heads and the five keys, well under 64 bytes. */
  ghost predicate Compact(c: Crypto) {
    forall h: Header :: Supported(h.algorithm) && MIN_CHUNK_SIZE <= h.chunkSize <= MAX_CHUNK_SIZE ==>
      0 < |c.dumps(HeaderMap(h))| <= |h.algorithm| + |h.kemCt| + |h.noncePrefix| + 64
  }

  datatype Header = Header(algorithm: string, kemCt: Bytes, noncePrefix: Bytes, chunkSize: int)

  function HeaderMap(h: Header): map<string, Value> {
    map["v" := IntValue(STREAM_VERSION), "algo" := TextValue(h.algorithm), "kct" := BytesValue(h.kemCt),
        "np" := BytesValue(h.noncePrefix), "cs" := IntValue(h.chunkSize)]
  }

  predicate IsVersion3(v: Value) {
    (v.IntValue? && v.i == STREAM_VERSION) || (v.FloatValue? && v.f == STREAM_VERSION as real)
  }

  /** The strict header parser. A float 3.0 equals the version, a boolean never does. */
  function ParseHeader(c: Crypto, data: Bytes): Result<Header, StreamError> {
    if |data| > MAX_HEADER_LEN then Err(BadHeader)
    else match c.loads(data)
      case None => Err(BadHeader)
      case Some(m) =>
        if m.Keys != {"v", "algo", "kct", "np", "cs"} then Err(BadHeader)
        else if !IsVersion3(m["v"]) then Err(BadHeader)
        else if !m["algo"].TextValue? then Err(BadHeader)
        else if !Supported(m["algo"].s) then Err(BadHeader)
        else if !m["kct"].BytesValue? || !m["np"].BytesValue? || |m["np"].data| != NONCE_PREFIX_LEN then Err(BadHeader)
        else if !m["cs"].IntValue? || !(MIN_CHUNK_SIZE <= m["cs"].i <= MAX_CHUNK_SIZE) then Err(BadHeader)
        else Ok(Header(m["algo"].s, m["kct"].data, m["np"].data, m["cs"].i))
  }

  /** What the cipher of one stream is fixed to: key, nonce prefix, chunk AAD and chunk size. */
  datatype Params = Params(key: Bytes, prefix: Bytes, aad: Bytes, cs: nat)

  function BuildAad(header: Bytes, callerAad: Bytes): Bytes
    requires |header| < U32_LIMIT && |callerAad| < U32_LIMIT
  {
    U32(|header|) + header + U32(|callerAad|) + callerAad
  }

  function Nonce(p: Params, counter: nat, last: bool): Bytes
    requires counter <= MAX_COUNTER
  {
    p.prefix + U32(counter) + [if last then 1 else 0]
  }

  function Frame(ct: Bytes): Bytes
    requires |ct| < U32_LIMIT
  {
    U32(|ct|) + ct
  }

  lemma BuildAadInjective(h1: Bytes, a1: Bytes, h2: Bytes, a2: Bytes)
    requires |h1| < U32_LIMIT && |h2| < U32_LIMIT && |a1| < U32_LIMIT && |a2| < U32_LIMIT
    requires BuildAad(h1, a1) == BuildAad(h2, a2)
    ensures h1 == h2 && a1 == a2
  {
    assert BuildAad(h1, a1) == U32(|h1|) + h1 + (U32(|a1|) + a1);
    assert BuildAad(h2, a2) == U32(|h2|) + h2 + (U32(|a2|) + a2);
    LengthPrefixInjective(h1, U32(|a1|) + a1, h2, U32(|a2|) + a2);
    assert U32(|a1|) + a1 + [] == U32(|a1|) + a1;
    assert U32(|a2|) + a2 + [] == U32(|a2|) + a2;
    LengthPrefixInjective(a1, [], a2, []);
  }

  lemma NonceInjective(p: Params, i: nat, l1: bool, j: nat, l2: bool)
    requires i <= MAX_COUNTER && j <= MAX_COUNTER
    requires Nonce(p, i, l1) == Nonce(p, j, l2)
    ensures i == j && l1 == l2
  {
    var b1: Bytes := [if l1 then 1 else 0];
    var b2: Bytes := [if l2 then 1 else 0];
    assert Nonce(p, i, l1) == p.prefix + (U32(i) + b1);
    assert Nonce(p, j, l2) == p.prefix + (U32(j) + b2);
    SplitEqual(p.prefix, U32(i) + b1, p.prefix, U32(j) + b2);
    SplitEqual(U32(i), b1, U32(j), b2);
    Widths();
    ToBEInjective(i, j, 4);
    assert b1[0] == b2[0];
  }

  /** The nonce is the prefix, the counter as four bytes with the highest first, and the flag. */
  lemma NonceLayout(p: Params, counter: nat, last: bool)
    requires counter <= MAX_COUNTER
    ensures var nonce, n := Nonce(p, counter, last), |p.prefix|;
            && |nonce| == n + 5 && nonce[..n] == p.prefix && nonce[n + 4] == (if last then 1 else 0)
            && counter == nonce[n] as int * 16777216 + nonce[n + 1] as int * 65536 + nonce[n + 2] as int * 256
                       + nonce[n + 3] as int
  {
    var b := U32(counter);
    U32ThenFromBE(counter);
    FourBytes(b);
    assert Nonce(p, counter, last) == p.prefix + (b + [if last then 1 else 0]);
  }

  lemma FourBytes(b: Bytes)
    requires |b| == 4
    ensures FromBE(b) == b[0] as int * 16777216 + b[1] as int * 65536 + b[2] as int * 256 + b[3] as int
  {
    assert b[..3][..2][..1][..0] == [];
    assert b[..3][2] == b[2] && b[..3][..2][1] == b[1] && b[..3][..2][..1][0] == b[0];
    assert FromBE(b[..3][..2][..1]) == b[0];
    assert FromBE(b[..3][..2]) == b[0] as int * 256 + b[1] as int;
    assert FromBE(b[..3]) == (b[0] as int * 256 + b[1] as int) * 256 + b[2] as int;
  }

  /** The chunk AAD is the header and the caller's AAD, each behind its length. */
  lemma AadLayout(header: Bytes, aad: Bytes)
    requires |header| < U32_LIMIT && |aad| < U32_LIMIT
    ensures var built, n := BuildAad(header, aad), |header|;
            && |built| == 8 + n + |aad| && FromBE(built[..4]) == n && built[4..4 + n] == header
            && FromBE(built[4 + n..8 + n]) == |aad| && built[8 + n..] == aad
  {
    var built, n := BuildAad(header, aad), |header|;
    U32ThenFromBE(n);
    U32ThenFromBE(|aad|);
    assert built[..4] == U32(n) && built[4 + n..8 + n] == U32(|aad|);
  }

  /** Prefixes of one length: the nonce determines all three parts. */
  lemma NonceParts(p: Params, i: nat, l1: bool, q: Params, j: nat, l2: bool)
    requires i <= MAX_COUNTER && j <= MAX_COUNTER && |p.prefix| == |q.prefix|
    requires Nonce(p, i, l1) == Nonce(q, j, l2)
    ensures p.prefix == q.prefix && i == j && l1 == l2
  {
    var b1: Bytes := [if l1 then 1 else 0];
    var b2: Bytes := [if l2 then 1 else 0];
    assert Nonce(p, i, l1) == p.prefix + (U32(i) + b1);
    assert Nonce(q, j, l2) == q.prefix + (U32(j) + b2);
    SplitEqual(p.prefix, U32(i) + b1, q.prefix, U32(j) + b2);
    NonceInjective(p, i, l1, j, l2);
  }

  // ------------------------------------------------------------------ sealing

  /** The chunks a plaintext is cut into: all but the last are full, the last is never dropped. */
  function Chunks(data: Bytes, cs: nat): (r: seq<Bytes>)
    requires cs > 0
    ensures |r| > 0
  {
    if |data| <= cs then [data] else [data[..cs]] + Chunks(data[cs..], cs)
  }

  /** One call of the AEAD by the sealer. */
  datatype Call = Call(nonce: Bytes, aad: Bytes, plaintext: Bytes, ciphertext: Bytes)

  function CallFor(c: Crypto, p: Params, counter: nat, last: bool, chunk: Bytes): Call
    requires counter <= MAX_COUNTER
  {
    Call(Nonce(p, counter, last), p.aad, chunk, c.encrypt(p.key, Nonce(p, counter, last), p.aad, chunk))
  }

  /** The calls whose ciphertexts are emitted for `data` when the next chunk has number `counter`.
      A chunk that would need a counter beyond the u32 limit ends the run. */
  function Emitted(c: Crypto, p: Params, counter: nat, data: Bytes): seq<Call>
    requires p.cs > 0 && counter <= MAX_COUNTER
    decreases |data|
  {
    if |data| <= p.cs then [CallFor(c, p, counter, true, data)]
    else if counter == MAX_COUNTER then []
    else [CallFor(c, p, counter, false, data[..p.cs])] + Emitted(c, p, counter + 1, data[p.cs..])
  }

  function SealOutcome(counter: nat, data: Bytes, cs: nat): Outcome
    requires cs > 0 && counter <= MAX_COUNTER
    decreases |data|
  {
    if |data| <= cs then Done
    else if counter == MAX_COUNTER then Raised(TooManyChunks)
    else SealOutcome(counter + 1, data[cs..], cs)
  }

  /** An AEAD whose ciphertext is the plaintext's length plus the tag. */
  ghost predicate TagLengths(c: Crypto) {
    forall k: Bytes, n: Bytes, a: Bytes, p: Bytes :: |c.encrypt(k, n, a, p)| == |p| + TAG_LEN
  }

  ghost predicate Framable(calls: seq<Call>) {
    forall i :: 0 <= i < |calls| ==> |calls[i].ciphertext| < U32_LIMIT
  }

  ghost function Frames(calls: seq<Call>): (r: seq<Bytes>)
    requires Framable(calls)
  {
    seq(|calls|, i requires 0 <= i < |calls| => Frame(calls[i].ciphertext))
  }

  /** The concatenated frames of a list of calls. */
  ghost function Wire(calls: seq<Call>): Bytes
    requires Framable(calls)
  {
    Join(Frames(calls))
  }

  // ------------------------------------------------------------------ opening

  /** Whether a ciphertext of this length may be opened at this position. */
  predicate LengthOk(n: nat, last: bool, cs: nat) {
    if last then TAG_LEN <= n <= cs + TAG_LEN else n == cs + TAG_LEN
  }

  /** What `open_stream` yields from the frames in `wire`, and how it ends. */
  function OpenFrames(c: Crypto, p: Params, counter: nat, wire: Bytes): (seq<Bytes>, Outcome)
    requires counter <= MAX_COUNTER
    decreases |wire|
  {
    if wire == [] then ([], Raised(NoFinalChunk))
    else if |wire| < 4 then ([], Raised(EndedInFrameLength))
    else
      var n := FromBE(wire[..4]);
      if n < TAG_LEN || n > p.cs + TAG_LEN then ([], Raised(FrameLengthOutOfRange))
      else if |wire| < 4 + n then ([], Raised(EndedInFrame))
      else
        var last := |wire| == 4 + n;
        if !LengthOk(n, last, p.cs) then ([], Raised(WrongLength))
        else match c.decrypt(p.key, Nonce(p, counter, last), p.aad, wire[4..4 + n])
          case None => ([], Raised(InvalidTag))
          case Some(pt) =>
            if last then ([pt], Done)
            else if counter == MAX_COUNTER then ([], Raised(TooManyChunks))
            else
              var (rest, outcome) := OpenFrames(c, p, counter + 1, wire[4 + n..]);
              ([pt] + rest, outcome)
  }

  /** The constructor of the opener: header, key match, decapsulation, key derivation, AAD. */
  function OpenerParams(c: Crypto, header: Bytes, expectedAad: Bytes): Result<Params, StreamError> {
    match ParseHeader(c, header)
    case Err(e) => Err(e)
    case Ok(h) =>
      if h.algorithm != c.keyAlgorithm then Err(AlgorithmMismatch)
      else match c.decapsulate(h.kemCt)
        case None => Err(DecapsulationFailed)
        case Some(secret) =>
          if |expectedAad| >= U32_LIMIT then Err(AadTooLong)
          else Ok(Params(c.derive(secret, header), h.noncePrefix, BuildAad(header, expectedAad), h.chunkSize))
  }

  /** What `open_stream` yields from a whole wire, and how it ends. */
  function OpenSpec(c: Crypto, wire: Bytes, expectedAad: Bytes): (seq<Bytes>, Outcome) {
    if |wire| < 8 then ([], Raised(TooShort))
    else if wire[..4] != MAGIC then ([], Raised(BadMagic))
    else
      var n := FromBE(wire[4..8]);
      if n == 0 || n > MAX_HEADER_LEN then ([], Raised(HeaderLengthOutOfRange))
      else if |wire| < 8 + n then ([], Raised(EndedInHeader))
      else match OpenerParams(c, wire[8..8 + n], expectedAad)
        case Err(e) => ([], Raised(e))
        case Ok(p) => OpenFrames(c, p, 0, wire[8 + n..])
  }
}
