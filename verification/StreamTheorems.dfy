/**
 The two theorems of the streaming envelope. Round trip: opening what was sealed yields exactly the
 plaintext. Integrity: under an ideal AEAD the only byte strings that open to completion are the
 sealed streams themselves, and a failing one yields no more than a prefix of a sealed plaintext.
 */
module StreamTheorems {
  import opened Common
  import opened StreamFormat

  // ------------------------------------------------------------------ how data is cut

  lemma {:induction false} ChunksJoinToData(data: Bytes, cs: nat)
    requires cs > 0
    ensures Join(Chunks(data, cs)) == data
    decreases |data|
  {
    if |data| > cs {
      ChunksJoinToData(data[cs..], cs);
      assert data == data[..cs] + data[cs..];
    } else {
      assert Join([data]) == data + Join([]);
    }
  }

  lemma {:induction false} ChunkSizes(data: Bytes, cs: nat)
    requires cs > 0
    ensures forall i :: 0 <= i < |Chunks(data, cs)| - 1 ==> |Chunks(data, cs)[i]| == cs
    ensures var last := Chunks(data, cs)[|Chunks(data, cs)| - 1];
            |last| <= cs && (last == [] <==> data == [])
    decreases |data|
  {
    if |data| > cs {
      ChunkSizes(data[cs..], cs);
      var rest := Chunks(data[cs..], cs);
      assert Chunks(data, cs) == [data[..cs]] + rest;
      assert (([data[..cs]] + rest)[|rest|]) == rest[|rest| - 1];
    }
  }

  /** There are max(1, ceil(N / cs)) chunks: the count is the n with (n - 1) * cs < N <= n * cs. */
  lemma {:induction false} ChunkCount(data: Bytes, cs: nat)
    requires cs > 0
    ensures var n := |Chunks(data, cs)|;
            if data == [] then n == 1 else (n - 1) * cs < |data| <= n * cs
    decreases |data|
  {
    if |data| > cs {
      ChunkCount(data[cs..], cs);
      var n := |Chunks(data[cs..], cs)|;
      assert (n - 1) * cs + cs == n * cs;
      assert n * cs + cs == (n + 1) * cs;
    }
  }

  // ------------------------------------------------------------------ what is emitted

  /** The chunks from `counter` on fit the 32-bit chunk counter. */
  predicate Fits(counter: nat, data: Bytes, cs: nat)
    requires cs > 0
  {
    counter + |Chunks(data, cs)| <= U32_LIMIT
  }

  /** Sealing completes exactly when the chunk count fits the counter. */
  lemma {:induction false} SealsExactlyWhenItFits(counter: nat, data: Bytes, cs: nat)
    requires cs > 0 && counter <= MAX_COUNTER
    ensures SealOutcome(counter, data, cs) == if Fits(counter, data, cs) then Done else Raised(TooManyChunks)
    decreases |data|
  {
    if |data| > cs && counter < MAX_COUNTER {
      SealsExactlyWhenItFits(counter + 1, data[cs..], cs);
    }
  }

  /** Call number i encrypts chunk i under counter i, and only the last call carries the last flag. */
  lemma {:induction false} EmittedCalls(c: Crypto, p: Params, counter: nat, data: Bytes)
    requires p.cs > 0 && counter <= MAX_COUNTER && Fits(counter, data, p.cs)
    ensures |Emitted(c, p, counter, data)| == |Chunks(data, p.cs)|
    ensures forall i :: 0 <= i < |Chunks(data, p.cs)| ==>
              Emitted(c, p, counter, data)[i]
              == CallFor(c, p, counter + i, i == |Chunks(data, p.cs)| - 1, Chunks(data, p.cs)[i])
    decreases |data|
  {
    if |data| > p.cs {
      var rest := data[p.cs..];
      EmittedCalls(c, p, counter + 1, rest);
      forall i | 0 <= i < |Chunks(data, p.cs)|
        ensures Emitted(c, p, counter, data)[i]
             == CallFor(c, p, counter + i, i == |Chunks(data, p.cs)| - 1, Chunks(data, p.cs)[i])
      {
        if i > 0 {
          assert Emitted(c, p, counter, data)[i] == Emitted(c, p, counter + 1, rest)[i - 1];
          assert Chunks(data, p.cs)[i] == Chunks(rest, p.cs)[i - 1];
        }
      }
    }
  }

  lemma {:induction false} EmittedFramable(c: Crypto, p: Params, counter: nat, data: Bytes)
    requires 0 < p.cs <= MAX_CHUNK_SIZE && counter <= MAX_COUNTER && TagLengths(c)
    ensures Framable(Emitted(c, p, counter, data))
    decreases |data|
  {
    if |data| > p.cs && counter < MAX_COUNTER {
      EmittedFramable(c, p, counter + 1, data[p.cs..]);
    }
  }

  lemma WireCons(calls: seq<Call>)
    requires Framable(calls) && calls != []
    ensures Wire(calls) == Frame(calls[0].ciphertext) + Wire(calls[1..])
  {
    assert Frames(calls)[1..] == Frames(calls[1..]);
  }

  lemma WireFrom(calls: seq<Call>, i: nat)
    requires Framable(calls) && i < |calls|
    ensures Wire(calls[i..]) == Frame(calls[i].ciphertext) + Wire(calls[i + 1..])
    ensures i == |calls| - 1 ==> Wire(calls[i..]) == Frame(calls[i].ciphertext)
  {
    WireCons(calls[i..]);
    assert calls[i..][1..] == calls[i + 1..];
  }

  // ------------------------------------------------------------------ round trip

  /** The recorded ciphertexts decrypt to the plaintexts they were made from. */
  ghost predicate Decrypts(c: Crypto, key: Bytes, calls: seq<Call>) {
    forall i :: 0 <= i < |calls| ==>
      c.decrypt(key, calls[i].nonce, calls[i].aad, calls[i].ciphertext) == Some(calls[i].plaintext)
  }

  lemma FirstFrame(ct: Bytes, rest: Bytes)
    requires |ct| < U32_LIMIT
    ensures var w := Frame(ct) + rest;
            && |w| == 4 + |ct| + |rest|
            && FromBE(w[..4]) == |ct|
            && w[4..4 + |ct|] == ct
            && w[4 + |ct|..] == rest
  {
    var w := Frame(ct) + rest;
    assert w[..4] == U32(|ct|);
    U32ThenFromBE(|ct|);
  }

  lemma {:induction false} FramesRoundTrip(c: Crypto, p: Params, counter: nat, data: Bytes)
    requires 0 < p.cs <= MAX_CHUNK_SIZE && counter <= MAX_COUNTER && Fits(counter, data, p.cs)
    requires TagLengths(c) && Framable(Emitted(c, p, counter, data))
    requires Decrypts(c, p.key, Emitted(c, p, counter, data))
    ensures OpenFrames(c, p, counter, Wire(Emitted(c, p, counter, data))) == (Chunks(data, p.cs), Done)
    decreases |data|
  {
    var calls := Emitted(c, p, counter, data);
    WireCons(calls);
    FirstFrame(calls[0].ciphertext, Wire(calls[1..]));
    assert c.decrypt(p.key, calls[0].nonce, calls[0].aad, calls[0].ciphertext) == Some(calls[0].plaintext);
    if |data| <= p.cs {
      assert calls[1..] == [];
    } else {
      var rest := Emitted(c, p, counter + 1, data[p.cs..]);
      assert calls[1..] == rest;
      forall i | 0 <= i < |rest|
        ensures c.decrypt(p.key, rest[i].nonce, rest[i].aad, rest[i].ciphertext) == Some(rest[i].plaintext)
      {
        assert rest[i] == calls[i + 1];
      }
      FramesRoundTrip(c, p, counter + 1, data[p.cs..]);
      EmittedCalls(c, p, counter + 1, data[p.cs..]);
      WireCons(rest);
    }
  }

  /** One use of the sealer: the KEM output it got, its random prefix and its arguments. */
  datatype Session = Session(algorithm: string, kemCt: Bytes, secret: Bytes, prefix: Bytes, cs: nat, aad: Bytes)

  /** A stream: the session it was sealed in and its plaintext. */
  datatype Sealed = Sealed(session: Session, data: Bytes)

  function HeaderOf(c: Crypto, s: Session): Bytes {
    c.dumps(HeaderMap(Header(s.algorithm, s.kemCt, s.prefix, s.cs)))
  }

  function ParamsOf(c: Crypto, s: Session): Params
    requires |HeaderOf(c, s)| < U32_LIMIT && |s.aad| < U32_LIMIT
  {
    Params(c.derive(s.secret, HeaderOf(c, s)), s.prefix, BuildAad(HeaderOf(c, s), s.aad), s.cs)
  }

  /** The sealer's own checks passed: suite, chunk size, prefix, and lengths that struct.pack takes. The KEM gave a
      ciphertext of its suite's length. */
  predicate Accepted(c: Crypto, s: Session) {
    && SuiteCiphertextLen(s.algorithm) == Some(|s.kemCt|)
    && MIN_CHUNK_SIZE <= s.cs <= MAX_CHUNK_SIZE
    && |s.prefix| == NONCE_PREFIX_LEN
    && 0 < |HeaderOf(c, s)| < U32_LIMIT
    && |s.aad| < U32_LIMIT
  }

  function Prelude(header: Bytes): Bytes
    requires |header| < U32_LIMIT
  {
    MAGIC + U32(|header|) + header
  }

  function CallsOf(c: Crypto, s: Sealed): seq<Call>
    requires Accepted(c, s.session)
  {
    Emitted(c, ParamsOf(c, s.session), 0, s.data)
  }

  ghost function SealedWire(c: Crypto, s: Sealed): Bytes
    requires Accepted(c, s.session) && Framable(CallsOf(c, s))
  {
    Prelude(HeaderOf(c, s.session)) + Wire(CallsOf(c, s))
  }

  /** The recipient holds the matching secret key, and CBOR decoding undoes encoding. */
  predicate Addressed(c: Crypto, s: Session) {
    && c.keyAlgorithm == s.algorithm
    && c.decapsulate(s.kemCt) == Some(s.secret)
    && c.loads(HeaderOf(c, s)) == Some(HeaderMap(Header(s.algorithm, s.kemCt, s.prefix, s.cs)))
  }

  lemma PreludeParses(header: Bytes, rest: Bytes)
    requires |header| < U32_LIMIT
    ensures var w := Prelude(header) + rest;
            && |w| == 8 + |header| + |rest|
            && w[..4] == MAGIC
            && FromBE(w[4..8]) == |header|
            && w[8..8 + |header|] == header
            && w[8 + |header|..] == rest
  {
    var w := Prelude(header) + rest;
    assert w == MAGIC + (U32(|header|) + (header + rest));
    assert w[4..8] == U32(|header|);
    U32ThenFromBE(|header|);
  }

  lemma OpenerAgrees(c: Crypto, s: Session)
    requires Accepted(c, s) && Addressed(c, s) && |HeaderOf(c, s)| <= MAX_HEADER_LEN
    ensures OpenerParams(c, HeaderOf(c, s), s.aad) == Ok(ParamsOf(c, s))
  {
    var m := HeaderMap(Header(s.algorithm, s.kemCt, s.prefix, s.cs));
    assert m.Keys == {"v", "algo", "kct", "np", "cs"};
    assert ParseHeader(c, HeaderOf(c, s)) == Ok(Header(s.algorithm, s.kemCt, s.prefix, s.cs));
  }

  /** Every header a sealer makes is within the limit the opener sets: the sealer need not check it. */
  lemma HeaderFits(c: Crypto, s: Session)
    requires Compact(c) && Accepted(c, s)
    ensures |HeaderOf(c, s)| <= MAX_HEADER_LEN
  {
    SuitesAreShort(s.algorithm);
    var h := Header(s.algorithm, s.kemCt, s.prefix, s.cs);
    assert Supported(h.algorithm) && MIN_CHUNK_SIZE <= h.chunkSize <= MAX_CHUNK_SIZE;
    assert |c.dumps(HeaderMap(h))| <= |h.algorithm| + |h.kemCt| + |h.noncePrefix| + 64;
  }

  /** Round trip: the sealed wire opens to exactly the plaintext, for every supported suite and legal chunk size,
      provided the chunk count fits the counter. */
  lemma RoundTrip(c: Crypto, s: Sealed)
    requires TagLengths(c) && Compact(c) && Accepted(c, s.session) && Addressed(c, s.session)
    requires Fits(0, s.data, s.session.cs)
    requires Decrypts(c, ParamsOf(c, s.session).key, CallsOf(c, s))
    ensures Framable(CallsOf(c, s))
    ensures OpenSpec(c, SealedWire(c, s), s.session.aad) == (Chunks(s.data, s.session.cs), Done)
    ensures Join(OpenSpec(c, SealedWire(c, s), s.session.aad).0) == s.data
  {
    var p := ParamsOf(c, s.session);
    HeaderFits(c, s.session);
    EmittedFramable(c, p, 0, s.data);
    PreludeParses(HeaderOf(c, s.session), Wire(CallsOf(c, s)));
    OpenerAgrees(c, s.session);
    FramesRoundTrip(c, p, 0, s.data);
    ChunksJoinToData(s.data, s.session.cs);
  }

  // ------------------------------------------------------------------ integrity

  /** One use of a sealer object, to any recipient: the chunks it has sealed so far and whether the last of them
      ended the stream. A stream may have been abandoned, or stopped at the counter limit. */
  datatype Stream = Stream(session: Session, chunks: seq<Bytes>, ended: bool)

  predicate IsLast(u: Stream, i: nat) {
    u.ended && i == |u.chunks| - 1
  }

  /** The AEAD calls of a stream: chunk i under counter i. */
  function StreamCalls(c: Crypto, u: Stream): (calls: seq<Call>)
    requires Accepted(c, u.session) && |u.chunks| <= U32_LIMIT
    ensures |calls| == |u.chunks|
  {
    seq(|u.chunks|, i requires 0 <= i < |u.chunks| => CallFor(c, ParamsOf(c, u.session), i, IsLast(u, i), u.chunks[i]))
  }

  /** What `seal_stream` makes is a stream of this kind, with the plaintext's chunks and ended. */
  lemma SealedIsAStream(c: Crypto, s: Sealed)
    requires Accepted(c, s.session) && Fits(0, s.data, s.session.cs)
    ensures CallsOf(c, s) == StreamCalls(c, Stream(s.session, Chunks(s.data, s.session.cs), true))
  {
    EmittedCalls(c, ParamsOf(c, s.session), 0, s.data);
  }

  /** The bytes of a stream as far as it was sealed. */
  ghost function StreamWire(c: Crypto, u: Stream): Bytes
    requires Accepted(c, u.session) && |u.chunks| <= U32_LIMIT && Framable(StreamCalls(c, u))
  {
    Prelude(HeaderOf(c, u.session)) + Wire(StreamCalls(c, u))
  }

  /** The call is one the sealer of `u` made under its key. */
  ghost predicate Recorded(c: Crypto, u: Stream, key: Bytes, call: Call)
    requires Accepted(c, u.session) && |u.chunks| <= U32_LIMIT
  {
    key == ParamsOf(c, u.session).key && call in StreamCalls(c, u)
  }

  /** All streams in use anywhere: each accepted by its sealer and within the counter, with frames that
      struct.pack takes, and headers that differ (every header holds a fresh KEM ciphertext and a fresh random
      prefix). */
  ghost predicate InUse(c: Crypto, streams: set<Stream>) {
    && (forall u :: u in streams ==> Accepted(c, u.session) && |u.chunks| <= U32_LIMIT && Framable(StreamCalls(c, u)))
    && (forall u, v :: u in streams && v in streams && HeaderOf(c, u.session) == HeaderOf(c, v.session) ==> u == v)
  }

  /** Ideal AEAD: under any key at all, only calls the sealers made decrypt. */
  ghost predicate Authentic(c: Crypto, streams: set<Stream>)
    requires InUse(c, streams)
  {
    forall key: Bytes, n: Bytes, a: Bytes, ct: Bytes ::
      c.decrypt(key, n, a, ct).Some? ==>
        exists u :: u in streams && Recorded(c, u, key, Call(n, a, c.decrypt(key, n, a, ct).value, ct))
  }

  /** The call behind an accepted ciphertext: which stream it belongs to and its place there. */
  lemma AcceptedCall(c: Crypto, streams: set<Stream>, header: Bytes, aad: Bytes, key: Bytes, n: Bytes, ct: Bytes)
    returns (t: Stream, i: nat)
    requires InUse(c, streams) && Authentic(c, streams)
    requires |header| < U32_LIMIT && |aad| < U32_LIMIT
    requires c.decrypt(key, n, BuildAad(header, aad), ct).Some?
    ensures t in streams && HeaderOf(c, t.session) == header && t.session.aad == aad
            && key == ParamsOf(c, t.session).key
    ensures i < |t.chunks| && i <= MAX_COUNTER
    ensures n == Nonce(ParamsOf(c, t.session), i, IsLast(t, i))
    ensures ct == StreamCalls(c, t)[i].ciphertext
    ensures c.decrypt(key, n, BuildAad(header, aad), ct).value == t.chunks[i]
  {
    var call := Call(n, BuildAad(header, aad), c.decrypt(key, n, BuildAad(header, aad), ct).value, ct);
    t :| t in streams && Recorded(c, t, key, call);
    i :| 0 <= i < |StreamCalls(c, t)| && StreamCalls(c, t)[i] == call;
    assert call == CallFor(c, ParamsOf(c, t.session), i, IsLast(t, i), t.chunks[i]);
    BuildAadInjective(header, aad, HeaderOf(c, t.session), t.session.aad);
  }

  /** A frame that decrypts under the opener's AAD is the chunk of the stream with that header at the opener's
      counter, and the last flag agrees. Nothing is assumed about the opener's key or prefix. */
  lemma AcceptedChunkIsInPlace(c: Crypto, streams: set<Stream>, u: Stream, p: Params, counter: nat, last: bool,
                               ct: Bytes)
    requires InUse(c, streams) && Authentic(c, streams) && u in streams
    requires counter <= MAX_COUNTER
    requires p.aad == ParamsOf(c, u.session).aad && |p.prefix| == NONCE_PREFIX_LEN
    requires c.decrypt(p.key, Nonce(p, counter, last), p.aad, ct).Some?
    ensures counter < |u.chunks| && p.prefix == u.session.prefix
    ensures p.key == ParamsOf(c, u.session).key
    ensures last <==> IsLast(u, counter)
    ensures ct == StreamCalls(c, u)[counter].ciphertext
    ensures c.decrypt(p.key, Nonce(p, counter, last), p.aad, ct).value == u.chunks[counter]
  {
    var t, i := AcceptedCall(c, streams, HeaderOf(c, u.session), u.session.aad, p.key, Nonce(p, counter, last), ct);
    assert u == t;
    NonceParts(p, counter, last, ParamsOf(c, t.session), i, IsLast(t, i));
  }

  /** Under the opener's key and AAD, only the sealed ciphertexts decrypt, each at its own counter
      and with the last flag only at the end of an ended stream. */
  ghost predicate OnlyInPlace(c: Crypto, p: Params, calls: seq<Call>, u: Stream) {
    && |calls| == |u.chunks|
    && forall k: nat, last: bool, ct: Bytes ::
         k <= MAX_COUNTER && c.decrypt(p.key, Nonce(p, k, last), p.aad, ct).Some? ==>
           && k < |calls|
           && (last <==> IsLast(u, k))
           && ct == calls[k].ciphertext
           && c.decrypt(p.key, Nonce(p, k, last), p.aad, ct).value == u.chunks[k]
  }

  lemma StreamIsInPlace(c: Crypto, streams: set<Stream>, u: Stream, p: Params)
    requires InUse(c, streams) && Authentic(c, streams) && u in streams
    requires p.aad == ParamsOf(c, u.session).aad && |p.prefix| == NONCE_PREFIX_LEN
    ensures OnlyInPlace(c, p, StreamCalls(c, u), u)
  {
    forall k: nat, last: bool, ct: Bytes
      | k <= MAX_COUNTER && c.decrypt(p.key, Nonce(p, k, last), p.aad, ct).Some?
      ensures && k < |u.chunks|
              && (last <==> IsLast(u, k))
              && ct == StreamCalls(c, u)[k].ciphertext
              && c.decrypt(p.key, Nonce(p, k, last), p.aad, ct).value == u.chunks[k]
    {
      AcceptedChunkIsInPlace(c, streams, u, p, k, last, ct);
    }
  }

  lemma FrontOfWire(wire: Bytes)
    requires |wire| >= 4 && |wire| >= 4 + FromBE(wire[..4])
    ensures var n := FromBE(wire[..4]);
            n < U32_LIMIT && wire == Frame(wire[4..4 + n]) + wire[4 + n..]
  {
    FromBEThenU32(wire[..4]);
    var n := FromBE(wire[..4]);
    assert wire == wire[..4] + wire[4..4 + n] + wire[4 + n..];
  }

  /** What is claimed of a run that starts at chunk `counter`: completion means the stream was ended and the wire
      is the rest of its frames, and any run yields a prefix of the remaining chunks. */
  ghost predicate Faithful(calls: seq<Call>, u: Stream, counter: nat, wire: Bytes, run: (seq<Bytes>, Outcome))
    requires Framable(calls) && counter <= |calls| == |u.chunks|
  {
    && run.0 <= u.chunks[counter..]
    && (run.1 == Done ==> u.ended && wire == Wire(calls[counter..]) && run.0 == u.chunks[counter..])
  }

  lemma FaithfulStep(calls: seq<Call>, u: Stream, counter: nat, wire: Bytes, rest: Bytes, run: (seq<Bytes>, Outcome))
    requires Framable(calls) && counter < |calls| == |u.chunks|
    requires wire == Frame(calls[counter].ciphertext) + rest
    requires Faithful(calls, u, counter + 1, rest, run)
    ensures Faithful(calls, u, counter, wire, ([u.chunks[counter]] + run.0, run.1))
  {
    WireFrom(calls, counter);
    assert u.chunks[counter..] == [u.chunks[counter]] + u.chunks[counter + 1..];
  }

  lemma {:induction false} FramesIntegrity(c: Crypto, p: Params, calls: seq<Call>, u: Stream, counter: nat, wire: Bytes)
    requires OnlyInPlace(c, p, calls, u) && Framable(calls)
    requires counter <= |calls| && counter <= MAX_COUNTER
    ensures Faithful(calls, u, counter, wire, OpenFrames(c, p, counter, wire))
    decreases |wire|
  {
    var n := if |wire| >= 4 then FromBE(wire[..4]) else 0;
    var last := |wire| == 4 + n;
    if |wire| >= 4 + n && c.decrypt(p.key, Nonce(p, counter, last), p.aad, wire[4..4 + n]).Some? {
      FrontOfWire(wire);
      var rest := wire[4 + n..];
      if last {
        FaithfulStep(calls, u, counter, wire, rest, ([], Done));
      } else if counter < MAX_COUNTER {
        FramesIntegrity(c, p, calls, u, counter + 1, rest);
        FaithfulStep(calls, u, counter, wire, rest, OpenFrames(c, p, counter + 1, rest));
      }
    }
  }

  /** Without a stream in use that has this header and AAD, no frame opens. */
  lemma NothingOpensElsewhere(c: Crypto, streams: set<Stream>, header: Bytes, aad: Bytes, p: Params, wire: Bytes)
    requires InUse(c, streams) && Authentic(c, streams)
    requires |header| < U32_LIMIT && |aad| < U32_LIMIT && p.aad == BuildAad(header, aad)
    requires forall u :: u in streams ==> HeaderOf(c, u.session) != header || u.session.aad != aad
    ensures OpenFrames(c, p, 0, wire).0 == [] && OpenFrames(c, p, 0, wire).1 != Done
  {
    forall n: Bytes, ct: Bytes | c.decrypt(p.key, n, p.aad, ct).Some?
      ensures false
    {
      var t, i := AcceptedCall(c, streams, header, aad, p.key, n, ct);
    }
  }

  /** Splitting an accepted wire at its header. */
  lemma WireFromPrelude(wire: Bytes)
    requires |wire| >= 8 && wire[..4] == MAGIC && FromBE(wire[4..8]) < U32_LIMIT && |wire| >= 8 + FromBE(wire[4..8])
    ensures var n := FromBE(wire[4..8]); wire == Prelude(wire[8..8 + n]) + wire[8 + n..]
  {
    var n := FromBE(wire[4..8]);
    FromBEThenU32(wire[4..8]);
    assert wire == wire[..4] + wire[4..8] + wire[8..8 + n] + wire[8 + n..];
  }

  /** What opening a wire may come to: nothing yielded and no completion, or one stream in use under its own AAD,
      ended and equal to the wire if the opening completed, and otherwise yielded up to some chunk. */
  ghost predicate Genuine(c: Crypto, streams: set<Stream>, wire: Bytes, aad: Bytes, run: (seq<Bytes>, Outcome))
    requires InUse(c, streams)
  {
    || (run.0 == [] && run.1 != Done)
    || exists u :: u in streams && u.session.aad == aad && run.0 <= u.chunks
                   && (run.1 == Done ==> u.ended && wire == StreamWire(c, u) && run.0 == u.chunks)
  }

  lemma FramesAreGenuine(c: Crypto, streams: set<Stream>, header: Bytes, rest: Bytes, aad: Bytes, p: Params)
    requires InUse(c, streams) && Authentic(c, streams)
    requires |header| < U32_LIMIT && |aad| < U32_LIMIT
    requires p.aad == BuildAad(header, aad) && |p.prefix| == NONCE_PREFIX_LEN
    ensures Genuine(c, streams, Prelude(header) + rest, aad, OpenFrames(c, p, 0, rest))
  {
    if exists u :: u in streams && HeaderOf(c, u.session) == header && u.session.aad == aad {
      var u :| u in streams && HeaderOf(c, u.session) == header && u.session.aad == aad;
      var calls := StreamCalls(c, u);
      StreamIsInPlace(c, streams, u, p);
      FramesIntegrity(c, p, calls, u, 0, rest);
      assert calls[0..] == calls && u.chunks[0..] == u.chunks;
    } else {
      NothingOpensElsewhere(c, streams, header, aad, p, rest);
    }
  }

  /** Integrity: whatever bytes arrive, under whatever key the opener comes to, opening completes only if the wire
      is byte for byte an ended stream in use and the expected AAD is the one it was sealed with; then what was
      yielded is its chunks. A run that fails has yielded a prefix of one stream's chunks. */
  lemma Integrity(c: Crypto, streams: set<Stream>, wire: Bytes, aad: Bytes)
    requires InUse(c, streams) && Authentic(c, streams)
    ensures Genuine(c, streams, wire, aad, OpenSpec(c, wire, aad))
  {
    if |wire| >= 8 && wire[..4] == MAGIC {
      var n := FromBE(wire[4..8]);
      if 0 < n <= MAX_HEADER_LEN && |wire| >= 8 + n {
        WireFromPrelude(wire);
        var header := wire[8..8 + n];
        if OpenerParams(c, header, aad).Ok? {
          FramesAreGenuine(c, streams, header, wire[8 + n..], aad, OpenerParams(c, header, aad).value);
        }
      }
    }
  }

  /** Any change to a sealed wire that does not turn it into another ended stream is refused:
      truncation, extension, reordering, duplication and edits all fail. */
  lemma TamperingFails(c: Crypto, streams: set<Stream>, wire: Bytes, aad: Bytes)
    requires InUse(c, streams) && Authentic(c, streams)
    requires forall u :: u in streams && u.ended && u.session.aad == aad ==> wire != StreamWire(c, u)
    ensures OpenSpec(c, wire, aad).1.Raised?
  {
    Integrity(c, streams, wire, aad);
  }

  // ------------------------------------------------------------------ what is refused, and how

  /** The header parser takes exactly the CBOR maps a sealer writes, with the version as an integer or a float: no
      other key, type, version, suite, prefix length or chunk size. */
  lemma HeaderIsStrict(c: Crypto, data: Bytes, h: Header)
    ensures ParseHeader(c, data) == Ok(h)
            <==>
            && |data| <= 65536 && c.loads(data).Some?
            && c.loads(data).value in {HeaderMap(h), HeaderMap(h)["v" := FloatValue(3.0)]}
            && Supported(h.algorithm) && |h.noncePrefix| == 7 && 1024 <= h.chunkSize <= 16777216
    ensures ParseHeader(c, data).Err? ==> ParseHeader(c, data).error == BadHeader
  {
    if c.loads(data).Some? {
      MapOfHeader(c.loads(data).value, h);
    }
  }

  lemma MapOfHeader(m: map<string, Value>, h: Header)
    ensures m in {HeaderMap(h), HeaderMap(h)["v" := FloatValue(3.0)]}
            <==>
            && m.Keys == {"v", "algo", "kct", "np", "cs"} && IsVersion3(m["v"])
            && m["algo"] == TextValue(h.algorithm) && m["kct"] == BytesValue(h.kemCt)
            && m["np"] == BytesValue(h.noncePrefix) && m["cs"] == IntValue(h.chunkSize)
  {
    var plain := HeaderMap(h);
    assert plain.Keys == {"v", "algo", "kct", "np", "cs"};
    if m.Keys == {"v", "algo", "kct", "np", "cs"} && IsVersion3(m["v"])
       && m["algo"] == plain["algo"] && m["kct"] == plain["kct"] && m["np"] == plain["np"] && m["cs"] == plain["cs"] {
      if m["v"].IntValue? {
        assert m == plain;
      } else {
        assert m == plain["v" := FloatValue(3.0)];
      }
    }
  }

  /** What the opener's constructor raises for a header: it is malformed, it is for another algorithm, or its KEM
      ciphertext does not decapsulate, in this order; or the caller's AAD does not fit its length field. */
  lemma ConstructorFailsHow(c: Crypto, header: Bytes, aad: Bytes)
    ensures match ParseHeader(c, header)
            case Err(_) => OpenerParams(c, header, aad) == Err(BadHeader)
            case Ok(h) =>
              var r := OpenerParams(c, header, aad);
              if h.algorithm != c.keyAlgorithm then r == Err(AlgorithmMismatch)
              else if c.decapsulate(h.kemCt).None? then r == Err(DecapsulationFailed)
              else if |aad| >= 4294967296 then r == Err(AadTooLong)
              else r.Ok? && r.value.cs == h.chunkSize && r.value.prefix == h.noncePrefix
                   && r.value.aad == BuildAad(header, aad)
  {
    HeaderErrors(c, header);
  }

  lemma HeaderErrors(c: Crypto, data: Bytes)
    ensures ParseHeader(c, data).Err? ==> ParseHeader(c, data).error == BadHeader
    ensures ParseHeader(c, data).Ok? ==> |data| <= 65536
  {
  }

  /** Nothing is yielded, and nothing completes, unless the wire begins with a well-formed header for the
      recipient's own algorithm whose KEM ciphertext decapsulates. */
  lemma OpeningNeedsTheKey(c: Crypto, wire: Bytes, aad: Bytes) returns (header: Bytes, h: Header, rest: Bytes)
    requires OpenSpec(c, wire, aad).0 != [] || OpenSpec(c, wire, aad).1 == Done
    ensures 0 < |header| <= 65536 && wire == Prelude(header) + rest
    ensures ParseHeader(c, header) == Ok(h) && h.algorithm == c.keyAlgorithm && c.decapsulate(h.kemCt).Some?
  {
    var n := FromBE(wire[4..8]);
    WireFromPrelude(wire);
    header, rest := wire[8..8 + n], wire[8 + n..];
    h := ParseHeader(c, header).value;
  }

  /** The key is bound to the header: if the key derivation never maps two inputs to one key, another header or
      another shared secret means another key, for the sealer and for the opener. */
  lemma KeyIsBoundToTheHeader(c: Crypto, s: Session, t: Session, header: Bytes, aad: Bytes)
    requires forall x1, h1, x2, h2 :: c.derive(x1, h1) == c.derive(x2, h2) ==> x1 == x2 && h1 == h2
    requires |HeaderOf(c, s)| < U32_LIMIT && |s.aad| < U32_LIMIT && |HeaderOf(c, t)| < U32_LIMIT && |t.aad| < U32_LIMIT
    ensures ParamsOf(c, s).key == ParamsOf(c, t).key ==> s.secret == t.secret && HeaderOf(c, s) == HeaderOf(c, t)
    ensures OpenerParams(c, header, aad).Ok? && OpenerParams(c, header, aad).value.key == ParamsOf(c, s).key ==>
              header == HeaderOf(c, s)
              && c.decapsulate(ParseHeader(c, header).value.kemCt) == Some(s.secret)
  {
  }

  /** What a sealed stream comes to when only the first `k` bytes of its frames arrive: the chunks whose frames are
      followed by another byte, and the error of the place where the bytes end. */
  function Truncated(data: Bytes, cs: nat, k: nat): (seq<Bytes>, Outcome)
    requires cs > 0
    decreases |data|
  {
    var whole := 4 + TAG_LEN + if |data| <= cs then |data| else cs;
    if k == 0 then ([], Raised(NoFinalChunk))
    else if k < 4 then ([], Raised(EndedInFrameLength))
    else if k < whole then ([], Raised(EndedInFrame))
    else if |data| <= cs || k == whole then ([], Raised(InvalidTag))
    else
      var (rest, outcome) := Truncated(data[cs..], cs, k - whole);
      ([data[..cs]] + rest, outcome)
  }

  /** Only the last ciphertext decrypts under a nonce with the last flag. */
  ghost predicate LastIsMarked(c: Crypto, p: Params, counter: nat, calls: seq<Call>) {
    forall i :: 0 <= i < |calls| - 1 && counter + i <= MAX_COUNTER ==>
      c.decrypt(p.key, Nonce(p, counter + i, true), p.aad, calls[i].ciphertext) == None
  }

  lemma CutFrame(ct: Bytes, rest: Bytes, k: nat)
    requires |ct| < U32_LIMIT && k <= 4 + |ct| + |rest|
    ensures var w := (Frame(ct) + rest)[..k];
            && |w| == k
            && (k >= 4 ==> FromBE(w[..4]) == |ct|)
            && (k >= 4 + |ct| ==> w[4..4 + |ct|] == ct && w[4 + |ct|..] == rest[..k - 4 - |ct|])
  {
    FirstFrame(ct, rest);
    var whole := Frame(ct) + rest;
    assert k >= 4 ==> whole[..k][..4] == whole[..4];
    assert k >= 4 + |ct| ==> whole[..k][4..4 + |ct|] == whole[4..4 + |ct|];
    assert k >= 4 + |ct| ==> whole[..k][4 + |ct|..] == whole[4 + |ct|..][..k - 4 - |ct|];
  }

  /** One frame of a cut wire: cut inside it, cut right after it, or cut later. */
  lemma CutInsideFrame(c: Crypto, p: Params, counter: nat, ct: Bytes, rest: Bytes, k: nat)
    requires counter <= MAX_COUNTER && TAG_LEN <= |ct| <= p.cs + TAG_LEN && |ct| < U32_LIMIT && k < 4 + |ct|
    ensures OpenFrames(c, p, counter, (Frame(ct) + rest)[..k])
            == ([], Raised(if k == 0 then NoFinalChunk else if k < 4 then EndedInFrameLength else EndedInFrame))
  {
    CutFrame(ct, rest, k);
  }

  lemma CutAfterFrame(c: Crypto, p: Params, counter: nat, ct: Bytes, rest: Bytes)
    requires counter <= MAX_COUNTER && TAG_LEN <= |ct| <= p.cs + TAG_LEN && |ct| < U32_LIMIT
    requires c.decrypt(p.key, Nonce(p, counter, true), p.aad, ct) == None
    ensures OpenFrames(c, p, counter, (Frame(ct) + rest)[..4 + |ct|]) == ([], Raised(InvalidTag))
  {
    CutFrame(ct, rest, 4 + |ct|);
  }

  lemma CutLater(c: Crypto, p: Params, counter: nat, ct: Bytes, rest: Bytes, k: nat, pt: Bytes)
    requires counter < MAX_COUNTER && |ct| == p.cs + TAG_LEN < U32_LIMIT && 4 + |ct| < k <= 4 + |ct| + |rest|
    requires c.decrypt(p.key, Nonce(p, counter, false), p.aad, ct) == Some(pt)
    ensures var (later, outcome) := OpenFrames(c, p, counter + 1, rest[..k - 4 - |ct|]);
            OpenFrames(c, p, counter, (Frame(ct) + rest)[..k]) == ([pt] + later, outcome)
  {
    CutFrame(ct, rest, k);
  }

  lemma FirstDecrypts(c: Crypto, p: Params, counter: nat, data: Bytes)
    requires 0 < p.cs && counter <= MAX_COUNTER && Decrypts(c, p.key, Emitted(c, p, counter, data))
    requires |data| > p.cs && counter < MAX_COUNTER && LastIsMarked(c, p, counter, Emitted(c, p, counter, data))
    requires Fits(counter, data, p.cs)
    ensures var ct := Emitted(c, p, counter, data)[0].ciphertext;
            && c.decrypt(p.key, Nonce(p, counter, false), p.aad, ct) == Some(data[..p.cs])
            && c.decrypt(p.key, Nonce(p, counter, true), p.aad, ct) == None
    ensures Decrypts(c, p.key, Emitted(c, p, counter + 1, data[p.cs..]))
    ensures LastIsMarked(c, p, counter + 1, Emitted(c, p, counter + 1, data[p.cs..]))
  {
    var calls, rest := Emitted(c, p, counter, data), Emitted(c, p, counter + 1, data[p.cs..]);
    EmittedCalls(c, p, counter + 1, data[p.cs..]);
    assert calls[0] == CallFor(c, p, counter, false, data[..p.cs]);
    assert c.decrypt(p.key, Nonce(p, counter + 0, true), p.aad, calls[0].ciphertext) == None;
    forall i | 0 <= i < |rest|
      ensures c.decrypt(p.key, rest[i].nonce, rest[i].aad, rest[i].ciphertext) == Some(rest[i].plaintext)
    {
      assert rest[i] == calls[i + 1];
    }
    forall i | 0 <= i < |rest| - 1 && counter + 1 + i <= MAX_COUNTER
      ensures c.decrypt(p.key, Nonce(p, counter + 1 + i, true), p.aad, rest[i].ciphertext) == None
    {
      assert rest[i] == calls[i + 1];
      assert counter + (i + 1) == counter + 1 + i;
    }
  }

  lemma {:induction false} FramesTruncated(c: Crypto, p: Params, counter: nat, data: Bytes, k: nat)
    requires 0 < p.cs <= MAX_CHUNK_SIZE && counter <= MAX_COUNTER && Fits(counter, data, p.cs)
    requires TagLengths(c) && Framable(Emitted(c, p, counter, data))
    requires Decrypts(c, p.key, Emitted(c, p, counter, data))
    requires LastIsMarked(c, p, counter, Emitted(c, p, counter, data))
    requires k < |Wire(Emitted(c, p, counter, data))|
    ensures OpenFrames(c, p, counter, Wire(Emitted(c, p, counter, data))[..k]) == Truncated(data, p.cs, k)
    decreases |data|
  {
    var calls := Emitted(c, p, counter, data);
    var ct, later := calls[0].ciphertext, Wire(calls[1..]);
    WireCons(calls);
    if |data| <= p.cs {
      assert calls[1..] == [];
      CutInsideFrame(c, p, counter, ct, later, k);
    } else {
      assert calls[1..] == Emitted(c, p, counter + 1, data[p.cs..]);
      FirstDecrypts(c, p, counter, data);
      if k < 4 + |ct| {
        CutInsideFrame(c, p, counter, ct, later, k);
      } else if k == 4 + |ct| {
        CutAfterFrame(c, p, counter, ct, later);
      } else {
        FramesTruncated(c, p, counter + 1, data[p.cs..], k - 4 - |ct|);
        CutLater(c, p, counter, ct, later, k, data[..p.cs]);
      }
    }
  }

  lemma AuthenticMarksLast(c: Crypto, streams: set<Stream>, s: Sealed)
    requires InUse(c, streams) && Authentic(c, streams)
    requires Accepted(c, s.session) && Fits(0, s.data, s.session.cs)
    requires Stream(s.session, Chunks(s.data, s.session.cs), true) in streams
    ensures LastIsMarked(c, ParamsOf(c, s.session), 0, CallsOf(c, s))
  {
    var u := Stream(s.session, Chunks(s.data, s.session.cs), true);
    var p := ParamsOf(c, s.session);
    SealedIsAStream(c, s);
    forall i | 0 <= i < |CallsOf(c, s)| - 1 && 0 + i <= MAX_COUNTER
      ensures c.decrypt(p.key, Nonce(p, 0 + i, true), p.aad, CallsOf(c, s)[i].ciphertext) == None
    {
      if c.decrypt(p.key, Nonce(p, i, true), p.aad, CallsOf(c, s)[i].ciphertext).Some? {
        AcceptedChunkIsInPlace(c, streams, u, p, i, true, CallsOf(c, s)[i].ciphertext);
        assert false;
      }
    }
  }

  lemma CutPrelude(c: Crypto, header: Bytes, frames: Bytes, aad: Bytes, k: nat)
    requires 0 < |header| <= MAX_HEADER_LEN && k <= |Prelude(header) + frames|
    ensures var run := OpenSpec(c, (Prelude(header) + frames)[..k], aad);
            && (k < 8 ==> run == ([], Raised(TooShort)))
            && (8 <= k < 8 + |header| ==> run == ([], Raised(EndedInHeader)))
            && (k >= 8 + |header| && OpenerParams(c, header, aad).Ok? ==>
                  run == OpenFrames(c, OpenerParams(c, header, aad).value, 0, frames[..k - 8 - |header|]))
  {
    var wire := Prelude(header) + frames;
    PreludeParses(header, frames);
    if k >= 8 + |header| {
      assert wire[..k] == Prelude(header) + frames[..k - 8 - |header|];
      PreludeParses(header, frames[..k - 8 - |header|]);
    } else if k >= 8 {
      assert wire[..k][..4] == wire[..4] && wire[..k][4..8] == wire[4..8];
    }
  }

  /** The exact outcome of every truncation of a sealed stream: which error is raised, and which chunks were yielded
      before it. No cut, not even one between two frames, is taken for the end. */
  lemma EveryTruncationIsNoticed(c: Crypto, streams: set<Stream>, s: Sealed, k: nat)
    requires TagLengths(c) && Compact(c) && Accepted(c, s.session) && Addressed(c, s.session)
    requires Fits(0, s.data, s.session.cs) && Framable(CallsOf(c, s))
    requires Decrypts(c, ParamsOf(c, s.session).key, CallsOf(c, s))
    requires InUse(c, streams) && Authentic(c, streams)
    requires Stream(s.session, Chunks(s.data, s.session.cs), true) in streams
    requires k < |SealedWire(c, s)|
    ensures var head := 8 + |HeaderOf(c, s.session)|;
            OpenSpec(c, SealedWire(c, s)[..k], s.session.aad) ==
            if k < 8 then ([], Raised(TooShort))
            else if k < head then ([], Raised(EndedInHeader))
            else Truncated(s.data, s.session.cs, k - head)
  {
    var p, header := ParamsOf(c, s.session), HeaderOf(c, s.session);
    var frames := Wire(CallsOf(c, s));
    HeaderFits(c, s.session);
    CutPrelude(c, header, frames, s.session.aad, k);
    if k >= 8 + |header| {
      OpenerAgrees(c, s.session);
      AuthenticMarksLast(c, streams, s);
      FramesTruncated(c, p, 0, s.data, k - 8 - |header|);
    }
  }

  // ------------------------------------------------------------------ the hypotheses can be met

  const ZERO_TAG: Bytes := seq(TAG_LEN, _ => 0)

  /** A toy AEAD: the tag is sixteen zero bytes, and a ciphertext decrypts only if it was recorded. */
  ghost predicate Known(c: Crypto, streams: set<Stream>, key: Bytes, n: Bytes, a: Bytes, ct: Bytes) {
    && |ct| >= TAG_LEN
    && exists u :: u in streams && Accepted(c, u.session) && |u.chunks| <= U32_LIMIT
                   && Recorded(c, u, key, Call(n, a, ct[..|ct| - TAG_LEN], ct))
  }

  ghost function ToyDecrypt(c: Crypto, streams: set<Stream>, key: Bytes, n: Bytes, a: Bytes, ct: Bytes): Option<Bytes> {
    if Known(c, streams, key, n, a, ct) then Some(ct[..|ct| - TAG_LEN]) else None
  }

  ghost function Idealised(c: Crypto, streams: set<Stream>): Crypto {
    c.(decrypt := (key: Bytes, n: Bytes, a: Bytes, ct: Bytes) => ToyDecrypt(c, streams, key, n, a, ct))
  }

  ghost predicate ToyEncrypts(c: Crypto) {
    forall k: Bytes, n: Bytes, a: Bytes, pt: Bytes :: c.encrypt(k, n, a, pt) == pt + ZERO_TAG
  }

  lemma ToyDecrypts(c: Crypto, streams: set<Stream>, u: Stream, i: nat)
    requires InUse(c, streams) && u in streams && ToyEncrypts(c) && i < |u.chunks|
    ensures var call := StreamCalls(c, u)[i];
            ToyDecrypt(c, streams, ParamsOf(c, u.session).key, call.nonce, call.aad, call.ciphertext)
                == Some(call.plaintext)
  {
    var call := StreamCalls(c, u)[i];
    assert call.ciphertext[..|call.ciphertext| - TAG_LEN] == call.plaintext;
    assert Recorded(c, u, ParamsOf(c, u.session).key, call);
  }

  /** Only the decryption function differs, so both sides agree on every stream's calls. */
  lemma SameCalls(c: Crypto, streams: set<Stream>, u: Stream)
    requires Accepted(c, u.session) && |u.chunks| <= U32_LIMIT
    ensures var d := Idealised(c, streams);
            Accepted(d, u.session) && ParamsOf(c, u.session) == ParamsOf(d, u.session)
                && StreamCalls(c, u) == StreamCalls(d, u)
  {
    var d := Idealised(c, streams);
    assert ParamsOf(c, u.session) == ParamsOf(d, u.session);
    forall i | 0 <= i < |u.chunks|
      ensures StreamCalls(c, u)[i] == StreamCalls(d, u)[i]
    {
    }
  }

  lemma ToyAuthentic(c: Crypto, streams: set<Stream>, key: Bytes, n: Bytes, a: Bytes, ct: Bytes)
    requires InUse(c, streams) && InUse(Idealised(c, streams), streams)
    requires Known(c, streams, key, n, a, ct)
    ensures exists u :: u in streams
              && Recorded(Idealised(c, streams), u, key, Call(n, a, ct[..|ct| - TAG_LEN], ct))
  {
    var u :| u in streams && Accepted(c, u.session) && |u.chunks| <= U32_LIMIT
             && Recorded(c, u, key, Call(n, a, ct[..|ct| - TAG_LEN], ct));
    SameCalls(c, streams, u);
    assert Recorded(Idealised(c, streams), u, key, Call(n, a, ct[..|ct| - TAG_LEN], ct));
  }

  lemma StillInUse(c: Crypto, streams: set<Stream>)
    requires InUse(c, streams)
    ensures InUse(Idealised(c, streams), streams)
  {
    var d := Idealised(c, streams);
    forall u | u in streams
      ensures Accepted(d, u.session) && Framable(StreamCalls(d, u))
    {
      SameCalls(c, streams, u);
    }
    forall u, v | u in streams && v in streams && HeaderOf(d, u.session) == HeaderOf(d, v.session)
      ensures u == v
    {
      assert HeaderOf(c, u.session) == HeaderOf(c, v.session);
    }
  }

  /** The hypotheses of both theorems are consistent: some cipher meets them all at once, for any streams in use,
      and it takes nothing away from who a stream is addressed to. */
  lemma HypothesesConsistent(c: Crypto, streams: set<Stream>)
    requires InUse(c, streams) && ToyEncrypts(c)
    ensures var d := Idealised(c, streams);
            && TagLengths(d) && InUse(d, streams) && Authentic(d, streams)
            && (Compact(c) ==> Compact(d))
            && forall u :: u in streams ==>
                 Decrypts(d, ParamsOf(d, u.session).key, StreamCalls(d, u))
                     && (Addressed(c, u.session) ==> Addressed(d, u.session))
  {
    var d := Idealised(c, streams);
    StillInUse(c, streams);
    forall key: Bytes, n: Bytes, a: Bytes, ct: Bytes | d.decrypt(key, n, a, ct).Some?
      ensures exists u :: u in streams && Recorded(d, u, key, Call(n, a, d.decrypt(key, n, a, ct).value, ct))
    {
      ToyAuthentic(c, streams, key, n, a, ct);
    }
    forall u | u in streams
      ensures Decrypts(d, ParamsOf(d, u.session).key, StreamCalls(d, u))
    {
      SameCalls(c, streams, u);
      forall i | 0 <= i < |StreamCalls(d, u)|
        ensures var call := StreamCalls(d, u)[i];
                d.decrypt(ParamsOf(d, u.session).key, call.nonce, call.aad, call.ciphertext) == Some(call.plaintext)
      {
        ToyDecrypts(c, streams, u, i);
      }
    }
  }
}
