/**
 The nonce state machine shared by the sealer and the opener of a stream, and the two objects built
 on it. One class stands for `StreamSealer` and `StreamOpener`; an object is used in one role.
 */
module StreamCipher {
  import opened Common
  import opened StreamFormat

  /** `nonces` lists every nonce handed to AES-GCM so far, in order. */
  datatype State = State(counter: nat, finished: bool, nonces: seq<Bytes>)

  const START := State(0, false, [])

  /** After a chunk: finish, step the counter, or finish with an error at the counter limit. */
  function Advance(st: State, last: bool): (State, bool) {
    if last then (st.(finished := true), true)
    else if st.counter == MAX_COUNTER then (st.(finished := true), false)
    else (st.(counter := st.counter + 1), true)
  }

  function SealStep(c: Crypto, p: Params, st: State, plaintext: Bytes, last: bool): (State, Result<Bytes, StreamError>)
    requires st.counter <= MAX_COUNTER
  {
    if st.finished then (st, Err(Finished))
    else if |plaintext| > p.cs || (!last && |plaintext| != p.cs) then (st, Err(WrongLength))
    else
      var nonce := Nonce(p, st.counter, last);
      var (next, ok) := Advance(st.(nonces := st.nonces + [nonce]), last);
      (next, if ok then Ok(c.encrypt(p.key, nonce, p.aad, plaintext)) else Err(TooManyChunks))
  }

  function OpenStep(c: Crypto, p: Params, st: State, ciphertext: Bytes, last: bool): (State, Result<Bytes, StreamError>)
    requires st.counter <= MAX_COUNTER
  {
    if st.finished then (st, Err(Finished))
    else if !LengthOk(|ciphertext|, last, p.cs) then (st.(finished := true), Err(WrongLength))
    else
      var nonce := Nonce(p, st.counter, last);
      var used := st.(nonces := st.nonces + [nonce]);
      match c.decrypt(p.key, nonce, p.aad, ciphertext)
      case None => (used.(finished := true), Err(InvalidTag))
      case Some(pt) =>
        var (next, ok) := Advance(used, last);
        (next, if ok then Ok(pt) else Err(TooManyChunks))
  }

  class Cipher {
    const crypto: Crypto
    const params: Params
    var counter: nat
    var finished: bool
    ghost var nonces: seq<Bytes>

    ghost function St(): State
      reads this
    {
      State(counter, finished, nonces)
    }

    constructor (crypto: Crypto, params: Params)
      ensures this.crypto == crypto && this.params == params && St() == START
    {
      this.crypto := crypto;
      this.params := params;
      counter := 0;
      finished := false;
      nonces := [];
    }

    method Next(last: bool) returns (ok: bool)
      requires counter <= MAX_COUNTER
      modifies this`counter, this`finished
      ensures (St(), ok) == Advance(old(St()), last)
      ensures counter <= MAX_COUNTER
    {
      ok := true;
      if last {
        finished := true;
      } else {
        if counter == MAX_COUNTER {
          finished := true;
          return false;
        }
        counter := counter + 1;
      }
    }

    method Seal(plaintext: Bytes, last: bool) returns (r: Result<Bytes, StreamError>)
      requires counter <= MAX_COUNTER
      modifies this
      ensures (St(), r) == SealStep(crypto, params, old(St()), plaintext, last)
      ensures counter <= MAX_COUNTER
    {
      if finished {
        return Err(Finished);
      }
      if |plaintext| > params.cs || (!last && |plaintext| != params.cs) {
        return Err(WrongLength);
      }
      var nonce := Nonce(params, counter, last);
      var out := crypto.encrypt(params.key, nonce, params.aad, plaintext);
      nonces := nonces + [nonce];
      var ok := Next(last);
      r := if ok then Ok(out) else Err(TooManyChunks);
    }

    method Open(ciphertext: Bytes, last: bool) returns (r: Result<Bytes, StreamError>)
      requires counter <= MAX_COUNTER
      modifies this
      ensures (St(), r) == OpenStep(crypto, params, old(St()), ciphertext, last)
      ensures counter <= MAX_COUNTER
    {
      if finished {
        return Err(Finished);
      }
      if !LengthOk(|ciphertext|, last, params.cs) {
        finished := true;
        return Err(WrongLength);
      }
      var nonce := Nonce(params, counter, last);
      var plaintext := crypto.decrypt(params.key, nonce, params.aad, ciphertext);
      nonces := nonces + [nonce];
      if plaintext.None? {
        finished := true;
        return Err(InvalidTag);
      }
      var ok := Next(last);
      r := if ok then Ok(plaintext.value) else Err(TooManyChunks);
    }
  }

  // ------------------------------------------------------------------ call sequences

  /** One call on the object, with any argument. */
  datatype Request = SealChunk(plaintext: Bytes, last: bool) | OpenChunk(ciphertext: Bytes, last: bool)

  function Do(c: Crypto, p: Params, st: State, r: Request): (State, Result<Bytes, StreamError>)
    requires st.counter <= MAX_COUNTER
  {
    match r
    case SealChunk(pt, last) => SealStep(c, p, st, pt, last)
    case OpenChunk(ct, last) => OpenStep(c, p, st, ct, last)
  }

  /** The number of nonces used so far: one per counter value passed, at most one more. */
  ghost predicate Ordered(p: Params, st: State) {
    && st.counter <= MAX_COUNTER
    && st.counter <= |st.nonces| <= st.counter + 1
    && (!st.finished ==> |st.nonces| == st.counter)
    && (forall i :: 0 <= i < |st.nonces| ==> IsNonceOf(p, i, st.nonces[i]))
  }

  ghost predicate IsNonceOf(p: Params, i: nat, nonce: Bytes) {
    i <= MAX_COUNTER && (nonce == Nonce(p, i, false) || nonce == Nonce(p, i, true))
  }

  lemma StepKeepsOrder(c: Crypto, p: Params, st: State, r: Request)
    requires Ordered(p, st)
    ensures Ordered(p, Do(c, p, st, r).0)
  {
    var next := Do(c, p, st, r).0;
    assert next.nonces == st.nonces || (!st.finished && next.nonces == st.nonces + [Nonce(p, st.counter, r.last)]);
    if next.nonces != st.nonces {
      assert IsNonceOf(p, st.counter, Nonce(p, st.counter, r.last));
    }
  }

  function Run(c: Crypto, p: Params, st: State, requests: seq<Request>): State
    requires st.counter <= MAX_COUNTER
    decreases |requests|
  {
    if requests == [] then st else
      var next := Do(c, p, st, requests[0]).0;
      assert next.counter <= MAX_COUNTER;
      Run(c, p, next, requests[1..])
  }

  lemma {:induction false} RunKeepsOrder(c: Crypto, p: Params, st: State, requests: seq<Request>)
    requires Ordered(p, st)
    ensures Ordered(p, Run(c, p, st, requests))
    decreases |requests|
  {
    if requests != [] {
      StepKeepsOrder(c, p, st, requests[0]);
      RunKeepsOrder(c, p, Do(c, p, st, requests[0]).0, requests[1..]);
    }
  }

  /** In every call sequence all nonces passed to the cipher are pairwise distinct. */
  lemma NoncesNeverRepeat(c: Crypto, p: Params, requests: seq<Request>, i: nat, j: nat)
    requires i < j < |Run(c, p, START, requests).nonces|
    ensures Run(c, p, START, requests).nonces[i] != Run(c, p, START, requests).nonces[j]
  {
    RunKeepsOrder(c, p, START, requests);
    var nonces := Run(c, p, START, requests).nonces;
    if nonces[i] == nonces[j] {
      var l1 := nonces[i] == Nonce(p, i, true);
      var l2 := nonces[j] == Nonce(p, j, true);
      NonceInjective(p, i, l1, j, l2);
      assert false;
    }
  }

  /** A finished or failed object never processes another chunk: every later call is refused and
      uses no nonce. */
  lemma {:induction false} FinishedIsFinal(c: Crypto, p: Params, st: State, requests: seq<Request>, r: Request)
    requires Ordered(p, st) && st.finished
    ensures Run(c, p, st, requests) == st
    ensures Do(c, p, Run(c, p, st, requests), r) == (st, Err(Finished))
    decreases |requests|
  {
    if requests != [] {
      FinishedIsFinal(c, p, st, requests[1..], r);
    }
  }

  /** A failed open, or a seal that ran out of counters, ends the stream for good. */
  lemma FailureIsPermanent(c: Crypto, p: Params, st: State, r: Request, requests: seq<Request>, later: Request)
    requires Ordered(p, st)
    requires Do(c, p, st, r).1.Err? && (r.OpenChunk? || Do(c, p, st, r).1 == Err(TooManyChunks))
    ensures var failed := Do(c, p, st, r).0;
            Ordered(p, failed) && Run(c, p, failed, requests) == failed
            && Do(c, p, failed, later) == (failed, Err(Finished))
  {
    StepKeepsOrder(c, p, st, r);
    FinishedIsFinal(c, p, Do(c, p, st, r).0, requests, later);
  }

  // ------------------------------------------------------------------ a sealer and an opener

  /** Decryption undoes encryption. */
  ghost predicate Inverse(c: Crypto) {
    forall k: Bytes, n: Bytes, a: Bytes, pt: Bytes :: c.decrypt(k, n, a, c.encrypt(k, n, a, pt)) == Some(pt)
  }

  /** A sealer takes a chunk exactly when an opener at the same place would take its ciphertext's length and the
      counter has room. A chunk of the wrong length costs no nonce and leaves the stream usable; one chunk too many
      ends it. */
  lemma SealsExactlyWhatCanBeOpened(c: Crypto, p: Params, st: State, plaintext: Bytes, last: bool)
    requires st.counter <= MAX_COUNTER
    ensures var (next, r) := SealStep(c, p, st, plaintext, last);
            if st.finished then r == Err(Finished) && next == st
            else if !LengthOk(|plaintext| + TAG_LEN, last, p.cs) then r == Err(WrongLength) && next == st
            else if !last && st.counter == MAX_COUNTER then r == Err(TooManyChunks) && next.finished
            else r.Ok? && next.nonces == st.nonces + [Nonce(p, st.counter, last)]
                 && (next.counter, next.finished) == if last then (st.counter, true) else (st.counter + 1, false)
  {
  }

  /** An opener refuses once it is finished, a ciphertext of the wrong length, one that does not decrypt, and one
      chunk too many; all but the first end it. */
  lemma OpenFailsHow(c: Crypto, p: Params, st: State, ciphertext: Bytes, last: bool)
    requires st.counter <= MAX_COUNTER
    ensures var (next, r) := OpenStep(c, p, st, ciphertext, last);
            if st.finished then r == Err(Finished) && next == st
            else if !(if last then 16 <= |ciphertext| <= p.cs + 16 else |ciphertext| == p.cs + 16) then
              r == Err(WrongLength) && next == st.(finished := true)
            else if c.decrypt(p.key, Nonce(p, st.counter, last), p.aad, ciphertext).None? then
              r == Err(InvalidTag) && next.finished
            else if !last && st.counter == MAX_COUNTER then r == Err(TooManyChunks) && next.finished
            else r.Ok? && (next.counter, next.finished) == if last then (st.counter, true) else (st.counter + 1, false)
  {
  }

  /** An opener in the sealer's state opens what the sealer made and is again in the sealer's state. */
  lemma SealedChunkOpens(c: Crypto, p: Params, st: State, plaintext: Bytes, last: bool)
    requires st.counter <= MAX_COUNTER && TagLengths(c) && Inverse(c)
    requires SealStep(c, p, st, plaintext, last).1.Ok?
    ensures var (next, r) := SealStep(c, p, st, plaintext, last);
            OpenStep(c, p, st, r.value, last) == (next, Ok(plaintext))
  {
    SealsExactlyWhatCanBeOpened(c, p, st, plaintext, last);
    assert c.decrypt(p.key, Nonce(p, st.counter, last), p.aad,
                     c.encrypt(p.key, Nonce(p, st.counter, last), p.aad, plaintext)) == Some(plaintext);
  }

  /** A chunk and whether it is the last. */
  datatype Chunk = Chunk(data: Bytes, last: bool)

  /** Seal these chunks one after another, as long as that works. */
  function SealAll(c: Crypto, p: Params, st: State, chunks: seq<Chunk>): (State, Option<seq<Chunk>>)
    requires st.counter <= MAX_COUNTER
    decreases |chunks|
  {
    if chunks == [] then (st, Some([])) else
      var (next, r) := SealStep(c, p, st, chunks[0].data, chunks[0].last);
      if r.Err? then (next, None) else
        var (end, rest) := SealAll(c, p, next, chunks[1..]);
        (end, if rest.None? then None else Some([Chunk(r.value, chunks[0].last)] + rest.value))
  }

  /** The chunks as requests to the object. */
  function Requests(chunks: seq<Chunk>): (r: seq<Request>)
    ensures |r| == |chunks| && forall i :: 0 <= i < |r| ==> r[i] == SealChunk(chunks[i].data, chunks[i].last)
  {
    seq(|chunks|, i requires 0 <= i < |chunks| => SealChunk(chunks[i].data, chunks[i].last))
  }

  /** Which sequences of chunks a sealer takes: every chunk full but the last, which is the only one marked so and may
      be shorter, and as many as the counter counts. */
  ghost predicate Takes(p: Params, counter: nat, chunks: seq<Chunk>) {
    forall i :: 0 <= i < |chunks| ==>
      && |chunks[i].data| <= p.cs && (!chunks[i].last ==> |chunks[i].data| == p.cs)
      && (chunks[i].last ==> i == |chunks| - 1) && (!chunks[i].last ==> counter + i < MAX_COUNTER)
  }

  lemma TakesOne(p: Params, counter: nat, chunks: seq<Chunk>)
    requires chunks != [] && !chunks[0].last
    ensures Takes(p, counter, chunks)
            <==> Takes(p, counter + 1, chunks[1..]) && |chunks[0].data| == p.cs && counter < MAX_COUNTER
  {
    if Takes(p, counter + 1, chunks[1..]) && |chunks[0].data| == p.cs && counter < MAX_COUNTER {
      forall i | 0 < i < |chunks|
        ensures && |chunks[i].data| <= p.cs && (!chunks[i].last ==> |chunks[i].data| == p.cs)
                && (chunks[i].last ==> i == |chunks| - 1) && (!chunks[i].last ==> counter + i < MAX_COUNTER)
      {
        assert chunks[1..][i - 1] == chunks[i];
      }
    }
    if Takes(p, counter, chunks) {
      forall i | 0 <= i < |chunks[1..]|
        ensures && |chunks[1..][i].data| <= p.cs && (!chunks[1..][i].last ==> |chunks[1..][i].data| == p.cs)
                && (chunks[1..][i].last ==> i == |chunks[1..]| - 1)
                && (!chunks[1..][i].last ==> counter + 1 + i < MAX_COUNTER)
      {
        assert chunks[1..][i] == chunks[i + 1];
      }
    }
  }

  lemma {:induction false} SealerTakesExactly(c: Crypto, p: Params, st: State, chunks: seq<Chunk>)
    requires st.counter <= MAX_COUNTER && !st.finished
    ensures SealAll(c, p, st, chunks).1.Some? <==> Takes(p, st.counter, chunks)
    decreases |chunks|
  {
    if chunks != [] {
      var (next, r) := SealStep(c, p, st, chunks[0].data, chunks[0].last);
      SealsExactlyWhatCanBeOpened(c, p, st, chunks[0].data, chunks[0].last);
      if r.Ok? && !chunks[0].last {
        TakesOne(p, st.counter, chunks);
        SealerTakesExactly(c, p, next, chunks[1..]);
      } else if r.Ok? && |chunks| > 1 {
        assert SealStep(c, p, next, chunks[1].data, chunks[1].last).1.Err?;
        assert SealAll(c, p, next, chunks[1..]).1.None?;
      } else if !chunks[0].last {
        TakesOne(p, st.counter, chunks);
      }
    }
  }

  /** The nonces of these chunks, one each. */
  function NoncesOf(p: Params, counter: nat, chunks: seq<Chunk>): seq<Bytes>
    requires counter + |chunks| <= U32_LIMIT
  {
    seq(|chunks|, i requires 0 <= i < |chunks| => Nonce(p, counter + i, chunks[i].last))
  }

  lemma NoncesCons(p: Params, counter: nat, chunks: seq<Chunk>)
    requires chunks != [] && counter + |chunks| <= U32_LIMIT
    ensures NoncesOf(p, counter, chunks) == [Nonce(p, counter, chunks[0].last)] + NoncesOf(p, counter + 1, chunks[1..])
  {
  }

  lemma RunOnRequests(c: Crypto, p: Params, st: State, chunks: seq<Chunk>)
    requires st.counter <= MAX_COUNTER && chunks != []
    ensures Run(c, p, st, Requests(chunks))
            == Run(c, p, SealStep(c, p, st, chunks[0].data, chunks[0].last).0, Requests(chunks[1..]))
  {
    assert Requests(chunks)[1..] == Requests(chunks[1..]);
  }

  /** Sealing them is a run of the object, and uses the nonce of each chunk's own number, one per chunk. */
  lemma {:induction false} SealingIsARun(c: Crypto, p: Params, st: State, chunks: seq<Chunk>)
    requires st.counter <= MAX_COUNTER && !st.finished && Takes(p, st.counter, chunks)
    ensures SealAll(c, p, st, chunks).0 == Run(c, p, st, Requests(chunks))
    ensures st.counter + |chunks| <= U32_LIMIT
    ensures SealAll(c, p, st, chunks).0.nonces == st.nonces + NoncesOf(p, st.counter, chunks)
    decreases |chunks|
  {
    if chunks != [] {
      var (next, r) := SealStep(c, p, st, chunks[0].data, chunks[0].last);
      SealsExactlyWhatCanBeOpened(c, p, st, chunks[0].data, chunks[0].last);
      RunOnRequests(c, p, st, chunks);
      if chunks[0].last {
        assert chunks[1..] == [] && Requests(chunks[1..]) == [];
        assert NoncesOf(p, st.counter, chunks) == [Nonce(p, st.counter, true)];
      } else {
        TakesOne(p, st.counter, chunks);
        SealingIsARun(c, p, next, chunks[1..]);
        NoncesCons(p, st.counter, chunks);
        var first, rest := [Nonce(p, st.counter, false)], NoncesOf(p, st.counter + 1, chunks[1..]);
        assert st.nonces + first + rest == st.nonces + (first + rest);
      }
    }
  }

  function OpenAll(c: Crypto, p: Params, st: State, chunks: seq<Chunk>): (State, Option<seq<Chunk>>)
    requires st.counter <= MAX_COUNTER
    decreases |chunks|
  {
    if chunks == [] then (st, Some([])) else
      var (next, r) := OpenStep(c, p, st, chunks[0].data, chunks[0].last);
      if r.Err? then (next, None) else
        var (end, rest) := OpenAll(c, p, next, chunks[1..]);
        (end, if rest.None? then None else Some([Chunk(r.value, chunks[0].last)] + rest.value))
  }

  /** The two objects in step: any chunks a sealer takes, an opener of the same stream opens, in order. */
  lemma {:induction false} OpenerFollowsSealer(c: Crypto, p: Params, st: State, chunks: seq<Chunk>)
    requires st.counter <= MAX_COUNTER && TagLengths(c) && Inverse(c)
    requires SealAll(c, p, st, chunks).1.Some?
    ensures var (end, sealed) := SealAll(c, p, st, chunks);
            OpenAll(c, p, st, sealed.value) == (end, Some(chunks))
    decreases |chunks|
  {
    if chunks != [] {
      var (next, r) := SealStep(c, p, st, chunks[0].data, chunks[0].last);
      var sealed := SealAll(c, p, st, chunks).1.value;
      SealedChunkOpens(c, p, st, chunks[0].data, chunks[0].last);
      OpenerFollowsSealer(c, p, next, chunks[1..]);
      assert sealed[0] == Chunk(r.value, chunks[0].last) && sealed[1..] == SealAll(c, p, next, chunks[1..]).1.value;
      assert chunks == [chunks[0]] + chunks[1..];
    }
  }
}
