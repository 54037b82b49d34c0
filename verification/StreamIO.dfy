/**
 The two generators of the streaming envelope, `seal_stream` and `open_stream`, and the buffering
 reader between them and a source that delivers its bytes in pieces of any size.
 A generator is a method that returns the pieces it yields and how it ended.
 */
module StreamIO {
  import opened Common
  import opened StreamFormat
  import opened StreamCipher
  import opened StreamTheorems

  /** A file-like object is read until it returns nothing; anything else is iterated. */
  datatype Source = FileLike(blocks: seq<Bytes>) | Items(items: seq<Bytes>)

  function Pieces(source: Source): seq<Bytes> {
    match source
    case FileLike(blocks) => UntilEmpty(blocks)
    case Items(items) => items
  }

  function UntilEmpty(blocks: seq<Bytes>): seq<Bytes> {
    if blocks == [] || blocks[0] == [] then [] else [blocks[0]] + UntilEmpty(blocks[1..])
  }

  function Content(source: Source): Bytes {
    Join(Pieces(source))
  }

  /** Block `k` is the first empty one, or there is none and `k` is their number. */
  predicate EndsAt(blocks: seq<Bytes>, k: int) {
    0 <= k <= |blocks| && [] !in blocks[..k] && (k < |blocks| ==> blocks[k] == [])
  }

  /** The source delivers these bytes: all items, or all blocks up to the first empty one or the end. */
  ghost predicate Delivers(source: Source, data: Bytes) {
    match source
    case Items(items) => Join(items) == data
    case FileLike(blocks) =>
      exists k :: EndsAt(blocks, k) && Join(blocks[..k]) == data
  }

  lemma {:induction false} ReadToTheFirstEmptyBlock(blocks: seq<Bytes>, k: nat)
    requires EndsAt(blocks, k)
    ensures UntilEmpty(blocks) == blocks[..k]
  {
    if k > 0 {
      assert blocks[..k][0] == blocks[0] && blocks[..k][1..] == blocks[1..][..k - 1];
      forall block | block in blocks[1..][..k - 1]
        ensures block in blocks[..k]
      {
      }
      ReadToTheFirstEmptyBlock(blocks[1..], k - 1);
    }
  }

  lemma {:induction false} SomeBlockEnds(blocks: seq<Bytes>) returns (k: nat)
    ensures EndsAt(blocks, k)
  {
    k := 0;
    if blocks != [] && blocks[0] != [] {
      k := SomeBlockEnds(blocks[1..]);
      k := k + 1;
      assert blocks[..k] == [blocks[0]] + blocks[1..][..k - 1];
    }
  }

  /** What a source is read as is exactly what it delivers. */
  lemma ContentIsDelivered(source: Source, data: Bytes)
    ensures Delivers(source, data) <==> Content(source) == data
  {
    if source.FileLike? {
      var k := SomeBlockEnds(source.blocks);
      ReadToTheFirstEmptyBlock(source.blocks, k);
      if j :| EndsAt(source.blocks, j) && Join(source.blocks[..j]) == data {
        ReadToTheFirstEmptyBlock(source.blocks, j);
      }
    }
  }

  /** A file read in blocks, none of them empty before its end, is read whole. */
  lemma FileIsReadWhole(blocks: seq<Bytes>, rest: seq<Bytes>)
    requires [] !in blocks && (rest != [] ==> rest[0] == [])
    ensures Content(FileLike(blocks + rest)) == Join(blocks)
  {
    assert (blocks + rest)[..|blocks|] == blocks;
    ReadToTheFirstEmptyBlock(blocks + rest, |blocks|);
  }

  // ------------------------------------------------------------------ sealing

  /** The frames that are emitted for `data` from chunk `counter` on. */
  ghost function FramesFor(c: Crypto, p: Params, counter: nat, data: Bytes): seq<Bytes>
    requires 0 < p.cs <= MAX_CHUNK_SIZE && counter <= MAX_COUNTER && TagLengths(c)
  {
    EmittedFramable(c, p, counter, data);
    Frames(Emitted(c, p, counter, data))
  }

  /** When more than a chunk is left, sealing its first chunk leads to the same frames. */
  lemma FullChunk(c: Crypto, p: Params, counter: nat, data: Bytes)
    requires 0 < p.cs <= MAX_CHUNK_SIZE && counter <= MAX_COUNTER && TagLengths(c)
    requires |data| > p.cs
    ensures counter == MAX_COUNTER ==> FramesFor(c, p, counter, data) == []
    ensures counter < MAX_COUNTER ==>
              FramesFor(c, p, counter, data)
              == [Frame(CallFor(c, p, counter, false, data[..p.cs]).ciphertext)] + FramesFor(c, p, counter + 1,
                      data[p.cs..])
  {
    EmittedFramable(c, p, counter, data);
    if counter < MAX_COUNTER {
      EmittedFramable(c, p, counter + 1, data[p.cs..]);
    }
  }

  lemma LastChunk(c: Crypto, p: Params, counter: nat, data: Bytes)
    requires 0 < p.cs <= MAX_CHUNK_SIZE && counter <= MAX_COUNTER && TagLengths(c)
    requires |data| <= p.cs
    ensures FramesFor(c, p, counter, data) == [Frame(CallFor(c, p, counter, true, data).ciphertext)]
  {
    EmittedFramable(c, p, counter, data);
  }

  /** The invariant of sealing: what was yielded, with what the rest seals to, is what the whole
      plaintext seals to. */
  ghost predicate OnCourse(c: Crypto, p: Params, frames: seq<Bytes>, counter: nat, rest: Bytes, data: Bytes)
    requires 0 < p.cs <= MAX_CHUNK_SIZE && counter <= MAX_COUNTER && TagLengths(c)
  {
    && frames + FramesFor(c, p, counter, rest) == FramesFor(c, p, 0, data)
    && SealOutcome(counter, rest, p.cs) == SealOutcome(0, data, p.cs)
  }

  lemma StayOnCourse(c: Crypto, p: Params, frames: seq<Bytes>, counter: nat, rest: Bytes, data: Bytes)
    requires 0 < p.cs <= MAX_CHUNK_SIZE && counter < MAX_COUNTER && TagLengths(c)
    requires |rest| > p.cs && OnCourse(c, p, frames, counter, rest, data)
    ensures var ct := CallFor(c, p, counter, false, rest[..p.cs]).ciphertext;
            OnCourse(c, p, frames + [Frame(ct)], counter + 1, rest[p.cs..], data)
  {
    FullChunk(c, p, counter, rest);
    var f := Frame(CallFor(c, p, counter, false, rest[..p.cs]).ciphertext);
    var tail := FramesFor(c, p, counter + 1, rest[p.cs..]);
    assert frames + [f] + tail == frames + ([f] + tail);
  }

  /** Seal one full chunk that is known not to be the last. */
  method SealFull(sealer: Cipher, frames: seq<Bytes>, chunk: Bytes, ghost after: Bytes, ghost data: Bytes)
    returns (out: seq<Bytes>, ok: bool)
    requires TagLengths(sealer.crypto) && 0 < sealer.params.cs <= MAX_CHUNK_SIZE
    requires sealer.counter <= MAX_COUNTER && !sealer.finished
    requires |chunk| == sealer.params.cs && after != []
    requires OnCourse(sealer.crypto, sealer.params, frames, sealer.counter, chunk + after, data)
    modifies sealer
    ensures sealer.counter <= MAX_COUNTER
    ensures ok ==> !sealer.finished && OnCourse(sealer.crypto, sealer.params, out, sealer.counter, after, data)
    ensures !ok ==> out == FramesFor(sealer.crypto, sealer.params, 0, data)
                    && SealOutcome(0, data, sealer.params.cs) == Raised(TooManyChunks)
  {
    ghost var rest := chunk + after;
    assert rest[..|chunk|] == chunk && rest[|chunk|..] == after;
    FullChunk(sealer.crypto, sealer.params, sealer.counter, rest);
    if sealer.counter < MAX_COUNTER {
      StayOnCourse(sealer.crypto, sealer.params, frames, sealer.counter, rest, data);
    }
    var r := sealer.Seal(chunk, false);
    if r.Err? {
      return frames, false;
    }
    out, ok := frames + [Frame(r.value)], true;
  }

  lemma CompleteFirst(pending: Bytes, view: Bytes, ahead: Bytes, pos: nat)
    requires pos <= |view|
    ensures pending + view + ahead == (pending + view[..pos]) + (view[pos..] + ahead)
  {
    assert view == view[..pos] + view[pos..];
  }

  lemma SplitNext(view: Bytes, ahead: Bytes, pos: nat, next: nat)
    requires pos <= next <= |view|
    ensures view[pos..] + ahead == view[pos..next] + (view[next..] + ahead)
  {
    assert view[pos..] == view[pos..next] + view[next..];
  }

  /** Emit full chunks out of `view` from `start` on while more of the piece lies beyond them. */
  method SealWhole(sealer: Cipher, frames: seq<Bytes>, view: Bytes, start: nat, ghost ahead: Bytes, ghost data: Bytes)
    returns (out: seq<Bytes>, pos: nat, ok: bool)
    requires TagLengths(sealer.crypto) && 0 < sealer.params.cs <= MAX_CHUNK_SIZE
    requires sealer.counter <= MAX_COUNTER && !sealer.finished && start <= |view|
    requires OnCourse(sealer.crypto, sealer.params, frames, sealer.counter, view[start..] + ahead, data)
    modifies sealer
    ensures sealer.counter <= MAX_COUNTER
    ensures ok ==> !sealer.finished && start <= pos <= |view| && |view| - pos <= sealer.params.cs
                   && OnCourse(sealer.crypto, sealer.params, out, sealer.counter, view[pos..] + ahead, data)
    ensures !ok ==> out == FramesFor(sealer.crypto, sealer.params, 0, data)
                    && SealOutcome(0, data, sealer.params.cs) == Raised(TooManyChunks)
  {
    var cs := sealer.params.cs;
    out, pos, ok := frames, start, true;
    while |view| - pos > cs
      invariant start <= pos <= |view| && ok
      invariant sealer.counter <= MAX_COUNTER && !sealer.finished
      invariant OnCourse(sealer.crypto, sealer.params, out, sealer.counter, view[pos..] + ahead, data)
    {
      SplitNext(view, ahead, pos, pos + cs);
      out, ok := SealFull(sealer, out, view[pos..pos + cs], view[pos + cs..] + ahead, data);
      if !ok {
        return;
      }
      pos := pos + cs;
    }
  }

  /** The body of the sealing loop for one input piece: emit every full chunk beyond which more
      input exists and carry the rest over. `carried` is the largest the carry-over buffer gets.
      A piece that does not fill the carried-over chunk is appended to it whole. */
  method SealPiece(sealer: Cipher, frames: seq<Bytes>, pending: Bytes, view: Bytes, ghost ahead: Bytes,
                   ghost data: Bytes)
    returns (out: seq<Bytes>, left: Bytes, ok: bool, ghost carried: nat)
    requires TagLengths(sealer.crypto) && 0 < sealer.params.cs <= MAX_CHUNK_SIZE
    requires sealer.counter <= MAX_COUNTER && !sealer.finished && |pending| <= sealer.params.cs
    requires OnCourse(sealer.crypto, sealer.params, frames, sealer.counter, pending + view + ahead, data)
    modifies sealer
    ensures sealer.counter <= MAX_COUNTER && |left| <= sealer.params.cs && carried <= sealer.params.cs
    ensures ok ==> !sealer.finished && OnCourse(sealer.crypto, sealer.params, out, sealer.counter, left + ahead, data)
    ensures !ok ==> out == FramesFor(sealer.crypto, sealer.params, 0, data)
                    && SealOutcome(0, data, sealer.params.cs) == Raised(TooManyChunks)
  {
    var cs := sealer.params.cs;
    out, left, ok, carried := frames, pending, true, |pending|;
    var pos := 0;
    if pending != [] && |pending| + |view| > cs {
      pos := cs - |pending|;
      CompleteFirst(pending, view, ahead, pos);
      left := pending + view[..pos];
      carried := |left|;
      out, ok := SealFull(sealer, frames, left, view[pos..] + ahead, data);
      left := [];
      if !ok {
        return;
      }
    } else if pending == [] {
      assert pending + view + ahead == view[0..] + ahead;
    } else {
      left := pending + view;
      carried := |left|;
      return;
    }
    out, pos, ok := SealWhole(sealer, out, view, pos, ahead, data);
    if !ok {
      return;
    }
    left := view[pos..];
    carried := if |left| > carried then |left| else carried;
  }

  /** The loop over the pieces, and the last chunk. */
  method SealPieces(sealer: Cipher, pieces: seq<Bytes>)
    returns (frames: seq<Bytes>, outcome: Outcome, ghost carried: nat)
    requires TagLengths(sealer.crypto) && 0 < sealer.params.cs <= MAX_CHUNK_SIZE
    requires sealer.counter == 0 && !sealer.finished
    modifies sealer
    ensures frames == FramesFor(sealer.crypto, sealer.params, 0, Join(pieces))
    ensures outcome == SealOutcome(0, Join(pieces), sealer.params.cs)
    ensures carried <= sealer.params.cs
  {
    ghost var data := Join(pieces);
    var cs, pending := sealer.params.cs, [];
    var i, ok := 0, true;
    frames, carried := [], 0;
    assert pieces[0..] == pieces && pending + Join(pieces) == data;
    while i < |pieces|
      invariant 0 <= i <= |pieces|
      invariant sealer.counter <= MAX_COUNTER && !sealer.finished
      invariant |pending| <= cs && carried <= cs
      invariant OnCourse(sealer.crypto, sealer.params, frames, sealer.counter, pending + Join(pieces[i..]), data)
    {
      ghost var ahead := Join(pieces[i + 1..]);
      assert pieces[i..][1..] == pieces[i + 1..];
      assert pending + (pieces[i] + ahead) == pending + pieces[i] + ahead;
      ghost var peak;
      frames, pending, ok, peak := SealPiece(sealer, frames, pending, pieces[i], ahead, data);
      carried := if peak > carried then peak else carried;
      if !ok {
        return frames, Raised(TooManyChunks), carried;
      }
      i := i + 1;
    }
    assert pending + Join(pieces[i..]) == pending;
    LastChunk(sealer.crypto, sealer.params, sealer.counter, pending);
    var last := sealer.Seal(pending, true);
    frames, outcome := frames + [Frame(last.value)], Done;
  }

  /** `seal_stream`. The yielded pieces depend only on the joined input, never on how it was cut, and
      `carried`, the largest carry-over between pieces, is at most one chunk. */
  method SealStream(c: Crypto, s: Session, source: Source)
    returns (yielded: seq<Bytes>, outcome: Outcome, ghost carried: nat)
    requires TagLengths(c) && |HeaderOf(c, s)| < U32_LIMIT
    ensures !(MIN_CHUNK_SIZE <= s.cs <= MAX_CHUNK_SIZE) ==> yielded == [] && outcome == Raised(ChunkSizeOutOfRange)
    ensures MIN_CHUNK_SIZE <= s.cs <= MAX_CHUNK_SIZE && !Supported(s.algorithm) ==>
              yielded == [] && outcome == Raised(UnsupportedSuite)
    ensures MIN_CHUNK_SIZE <= s.cs <= MAX_CHUNK_SIZE && Supported(s.algorithm) && |s.aad| >= U32_LIMIT ==>
              yielded == [] && outcome == Raised(AadTooLong)
    ensures MIN_CHUNK_SIZE <= s.cs <= MAX_CHUNK_SIZE && Supported(s.algorithm) && |s.aad| < U32_LIMIT ==>
              && yielded == [Prelude(HeaderOf(c, s))] + FramesFor(c, ParamsOf(c, s), 0, Content(source))
              && outcome == SealOutcome(0, Content(source), s.cs)
    ensures carried <= s.cs
  {
    carried := 0;
    if !(MIN_CHUNK_SIZE <= s.cs <= MAX_CHUNK_SIZE) {
      return [], Raised(ChunkSizeOutOfRange), 0;
    }
    if !Supported(s.algorithm) {
      return [], Raised(UnsupportedSuite), 0;
    }
    if |s.aad| >= U32_LIMIT {
      return [], Raised(AadTooLong), 0;
    }
    var p := ParamsOf(c, s);
    var sealer := new Cipher(c, p);
    var prelude := Prelude(HeaderOf(c, s));
    var frames;
    frames, outcome, carried := SealPieces(sealer, Pieces(source));
    yielded := [prelude] + frames;
  }

  // ------------------------------------------------------------------ the reader

  /** Buffers the pieces of a source and hands out exact byte counts, in order. */
  class Reader {
    var upcoming: seq<Bytes>
    var views: seq<Bytes>
    var size: nat
    var ended: bool

    /** The size is that of the buffered views, none of which is empty. */
    ghost predicate Valid()
      reads this
    {
      && size == |Join(views)|
      && (forall i :: 0 <= i < |views| ==> views[i] != [])
      && (ended ==> upcoming == [])
    }

    ghost function Buffered(): Bytes
      reads this
    {
      Join(views)
    }

    /** All bytes not yet handed out: the flat queue this object stands for. */
    ghost function Queue(): Bytes
      reads this
    {
      Join(views) + Join(upcoming)
    }

    constructor (source: Source)
      ensures Valid() && Buffered() == [] && Queue() == Content(source)
    {
      upcoming := Pieces(source);
      views := [];
      size := 0;
      ended := false;
    }

    /** Buffer at least `n` bytes, or all there are; the queue is unchanged. */
    method Fill(n: nat)
      requires Valid()
      modifies this
      ensures Valid() && Queue() == old(Queue())
      ensures old(Buffered()) <= Buffered()
      ensures size >= n || Buffered() == Queue()
      ensures old(size) >= n ==> unchanged(this)
    {
      while !ended && size < n
        invariant Valid() && Queue() == old(Queue()) && old(Buffered()) <= Buffered()
        invariant old(size) >= n ==> unchanged(this)
        decreases !ended, |upcoming|
      {
        if upcoming == [] {
          ended := true;
        } else {
          var piece := upcoming[0];
          ghost var before, rest := views, Join(upcoming[1..]);
          upcoming := upcoming[1..];
          if piece != [] {
            JoinSnoc(views, piece);
            views := views + [piece];
            size := size + |piece|;
            assert Join(before) + (piece + rest) == Join(before) + piece + rest;
          } else {
            assert piece + rest == rest;
          }
        }
      }
    }

    /** Join the first `n` bytes out of several views; fewer if fewer are buffered. */
    method Gather(n: nat) returns (parts: Bytes)
      requires Valid()
      modifies this`views
      ensures |parts| <= n && (|parts| < n ==> views == [])
      ensures old(Buffered()) == parts + Buffered()
      ensures forall i :: 0 <= i < |views| ==> views[i] != []
    {
      ghost var all := Join(views);
      parts := [];
      while views != [] && |parts| < n
        invariant forall i :: 0 <= i < |views| ==> views[i] != []
        invariant |parts| <= n && all == parts + Join(views)
        decreases |views|, n - |parts|
      {
        var head := views[0];
        ghost var before, tail := parts, Join(views[1..]);
        var need := n - |parts|;
        if |head| <= need {
          parts := parts + head;
          views := views[1..];
          assert before + (head + tail) == parts + tail;
        } else {
          parts := parts + head[..need];
          JoinAppend([head[need..]], views[1..]);
          views := [head[need..]] + views[1..];
          assert Join([head[need..]]) == head[need..] + [];
          assert before + (head + tail) == parts + (head[need..] + tail);
        }
      }
    }

    /** Remove and return the first `n` buffered bytes, or fewer if fewer are buffered. */
    method TakeView(n: nat) returns (out: Bytes)
      requires Valid()
      modifies this`views, this`size
      ensures Valid()
      ensures |out| == if n <= |old(Buffered())| then n else |old(Buffered())|
      ensures old(Buffered()) == out + Buffered()
      ensures old(Queue()) == out + Queue()
    {
      ghost var all := Join(views);
      if views != [] && |views[0]| >= n {
        var head := views[0];
        ghost var tail := Join(views[1..]);
        out := head[..n];
        if |head| == n {
          views := views[1..];
        } else {
          JoinAppend([head[n..]], views[1..]);
          views := [head[n..]] + views[1..];
          assert Join([head[n..]]) == head[n..] + [];
        }
        assert head + tail == head[..n] + (head[n..] + tail);
        size := size - n;
      } else {
        out := Gather(n);
        size := size - |out|;
      }
      assert out + Join(views) + Join(upcoming) == out + (Join(views) + Join(upcoming));
    }

    /** The next four buffered bytes as a big-endian number, without consuming them. */
    method PeekU32() returns (n: nat)
      requires Valid() && size >= 4
      ensures n == FromBE(Buffered()[..4])
    {
      var head: Bytes := [];
      var i := 0;
      assert views[0..] == views;
      while i < |views| && |head| < 4
        invariant 0 <= i <= |views| && |head| <= 4
        invariant |head| < 4 ==> Join(views) == head + Join(views[i..])
        invariant |head| == 4 ==> head == Join(views)[..4]
      {
        var view := views[i];
        var want := 4 - |head|;
        ghost var tail := Join(views[i + 1..]);
        assert views[i..][1..] == views[i + 1..];
        assert Join(views) == head + (view + tail);
        if |view| <= want {
          assert head + (view + tail) == head + view + tail;
          head := head + view;
        } else {
          assert head + (view + tail) == head + view[..want] + (view[want..] + tail);
          head := head + view[..want];
        }
        i := i + 1;
      }
      assert |head| < 4 ==> Join(views) == head + [];
      n := FromBE(head);
    }
  }

  // ------------------------------------------------------------------ opening

  /** The invariant of opening: what was yielded, with what the rest opens to, is what the whole
      wire opens to. */
  ghost predicate Reading(c: Crypto, p: Params, yielded: seq<Bytes>, counter: nat, rest: Bytes,
                          whole: (seq<Bytes>, Outcome))
    requires counter <= MAX_COUNTER
  {
    var (parts, outcome) := OpenFrames(c, p, counter, rest);
    whole == (yielded + parts, outcome)
  }

  /** Opening the first frame of a queue is one step of the opener. */
  lemma FrameStep(c: Crypto, p: Params, st: State, queue: Bytes, prefix: Bytes, ct: Bytes, rest: Bytes)
    requires st.counter <= MAX_COUNTER && !st.finished
    requires |prefix| == 4 && queue == prefix + (ct + rest)
    requires FromBE(prefix) == |ct| && TAG_LEN <= |ct| <= p.cs + TAG_LEN
    ensures var (next, r) := OpenStep(c, p, st, ct, rest == []);
            && next.counter <= MAX_COUNTER
            && (r.Ok? && rest != [] ==> !next.finished)
            && OpenFrames(c, p, st.counter, queue) ==
                 if r.Err? then ([], Raised(r.error))
                 else if rest == [] then ([r.value], Done)
                 else ([r.value] + OpenFrames(c, p, next.counter, rest).0, OpenFrames(c, p, next.counter, rest).1)
  {
    assert queue[..4] == prefix && queue[4..4 + |ct|] == ct && queue[4 + |ct|..] == rest;
  }

  /** A queue that ends inside a frame fails the way `open_stream` reports it. */
  lemma ShortQueue(c: Crypto, p: Params, counter: nat, queue: Bytes)
    requires counter <= MAX_COUNTER
    ensures queue == [] ==> OpenFrames(c, p, counter, queue) == ([], Raised(NoFinalChunk))
    ensures 0 < |queue| < 4 ==> OpenFrames(c, p, counter, queue) == ([], Raised(EndedInFrameLength))
    ensures |queue| >= 4 ==>
              var n := FromBE(queue[..4]);
              && (n < TAG_LEN || n > p.cs + TAG_LEN ==>
                  OpenFrames(c, p, counter, queue) == ([], Raised(FrameLengthOutOfRange)))
              && (TAG_LEN <= n <= p.cs + TAG_LEN && |queue| < 4 + n ==>
                  OpenFrames(c, p, counter, queue) == ([], Raised(EndedInFrame)))
  {
  }

  /** Read one frame with one byte of lookahead and open it; `last` says no byte follows it. */
  method OpenNext(opener: Cipher, r: Reader) returns (plain: Result<Bytes, StreamError>, last: bool)
    requires r.Valid() && opener.counter <= MAX_COUNTER && !opener.finished
    modifies opener, r
    ensures opener.counter <= MAX_COUNTER
    ensures var (parts, outcome) := OpenFrames(opener.crypto, opener.params, old(opener.counter), old(r.Queue()));
            if plain.Err? then parts == [] && outcome == Raised(plain.error)
            else if last then parts == [plain.value] && outcome == Done
            else
              && r.Valid() && !opener.finished && |r.Queue()| < |old(r.Queue())|
              && parts == [plain.value] + OpenFrames(opener.crypto, opener.params, opener.counter, r.Queue()).0
              && outcome == OpenFrames(opener.crypto, opener.params, opener.counter, r.Queue()).1
  {
    ghost var queue := r.Queue();
    last := false;
    r.Fill(4);
    ShortQueue(opener.crypto, opener.params, opener.counter, queue);
    assert r.size < 4 ==> |r.Buffered()| == |queue|;
    if r.size == 0 {
      return Err(NoFinalChunk), false;
    }
    if r.size < 4 {
      return Err(EndedInFrameLength), false;
    }
    assert r.Buffered()[..4] == queue[..4];
    var n := r.PeekU32();
    if n < TAG_LEN || n > opener.params.cs + TAG_LEN {
      return Err(FrameLengthOutOfRange), false;
    }
    r.Fill(4 + n + 1);
    assert r.size < 4 + n ==> |r.Buffered()| == |queue|;
    if r.size < 4 + n {
      return Err(EndedInFrame), false;
    }
    var prefix := r.TakeView(4);
    var ciphertext := r.TakeView(n);
    last := r.size == 0;
    assert prefix == queue[..4];
    assert last <==> r.Queue() == [];
    FrameStep(opener.crypto, opener.params, opener.St(), queue, prefix, ciphertext, r.Queue());
    plain := opener.Open(ciphertext, last);
  }

  lemma YieldOne(before: seq<Bytes>, plain: Bytes)
    ensures forall rest: seq<Bytes> {:trigger [plain] + rest} :: before + ([plain] + rest) == before + [plain] + rest
  {
  }

  /** The frame loop of `open_stream`. */
  method OpenAllFrames(opener: Cipher, r: Reader, ghost whole: (seq<Bytes>, Outcome))
    returns (yielded: seq<Bytes>, outcome: Outcome)
    requires opener.St() == START && r.Valid()
    requires whole == OpenFrames(opener.crypto, opener.params, 0, r.Queue())
    modifies opener, r
    ensures (yielded, outcome) == whole
  {
    yielded := [];
    assert [] + whole.0 == whole.0;
    while true
      invariant r.Valid() && opener.counter <= MAX_COUNTER && !opener.finished
      invariant Reading(opener.crypto, opener.params, yielded, opener.counter, r.Queue(), whole)
      decreases |r.Queue()|
    {
      var plain, last := OpenNext(opener, r);
      if plain.Err? {
        assert yielded + [] == yielded;
        return yielded, Raised(plain.error);
      }
      YieldOne(yielded, plain.value);
      yielded := yielded + [plain.value];
      if last {
        return yielded, Done;
      }
    }
  }

  /** How the start of a wire fails. */
  lemma ShortPrelude(c: Crypto, aad: Bytes, wire: Bytes)
    ensures |wire| < 8 ==> OpenSpec(c, wire, aad) == ([], Raised(TooShort))
    ensures |wire| >= 8 && wire[..4] != MAGIC ==> OpenSpec(c, wire, aad) == ([], Raised(BadMagic))
    ensures |wire| >= 8 && wire[..4] == MAGIC ==>
              var n := FromBE(wire[4..8]);
              && (n == 0 || n > MAX_HEADER_LEN ==> OpenSpec(c, wire, aad) == ([], Raised(HeaderLengthOutOfRange)))
              && (0 < n <= MAX_HEADER_LEN && |wire| < 8 + n ==> OpenSpec(c, wire, aad) == ([], Raised(EndedInHeader)))
  {
  }

  lemma PreludeParts(lengthBytes: Bytes, header: Bytes, rest: Bytes)
    requires |lengthBytes| == 4 && FromBE(lengthBytes) == |header|
    ensures |header| < U32_LIMIT
    ensures MAGIC + (lengthBytes + (header + rest)) == Prelude(header) + rest
  {
    FromBEThenU32(lengthBytes);
  }

  /** Read magic, header length and header off a fresh reader. */
  method ReadHeader(r: Reader, ghost c: Crypto, ghost aad: Bytes) returns (h: Result<Bytes, StreamError>)
    requires r.Valid()
    modifies r
    ensures h.Err? ==> OpenSpec(c, old(r.Queue()), aad) == ([], Raised(h.error))
    ensures h.Ok? ==> r.Valid() && 0 < |h.value| <= MAX_HEADER_LEN && old(r.Queue()) == Prelude(h.value) + r.Queue()
  {
    ghost var wire := r.Queue();
    ShortPrelude(c, aad, wire);
    r.Fill(8);
    assert r.size < 8 ==> |r.Buffered()| == |wire|;
    if r.size < 8 {
      return Err(TooShort);
    }
    var magic := r.TakeView(4);
    ghost var tail := r.Queue();
    assert magic == wire[..4] && wire == magic + tail;
    if magic != MAGIC {
      return Err(BadMagic);
    }
    var headerLen := r.PeekU32();
    var lengthBytes := r.TakeView(4);
    ghost var body := r.Queue();
    assert tail == lengthBytes + body;
    assert lengthBytes == wire[4..8];
    if headerLen == 0 || headerLen > MAX_HEADER_LEN {
      return Err(HeaderLengthOutOfRange);
    }
    r.Fill(headerLen);
    assert r.size < headerLen ==> |r.Buffered()| == |body|;
    if r.size < headerLen {
      return Err(EndedInHeader);
    }
    var header := r.TakeView(headerLen);
    PreludeParts(lengthBytes, header, r.Queue());
    h := Ok(header);
  }

  /** `open_stream`: whatever pieces the source delivers, the result is that of the flat wire. */
  method OpenStream(c: Crypto, source: Source, expectedAad: Bytes)
    returns (yielded: seq<Bytes>, outcome: Outcome)
    ensures (yielded, outcome) == OpenSpec(c, Content(source), expectedAad)
  {
    var r := new Reader(source);
    var header := ReadHeader(r, c, expectedAad);
    if header.Err? {
      return [], Raised(header.error);
    }
    PreludeParses(header.value, r.Queue());
    var params := OpenerParams(c, header.value, expectedAad);
    if params.Err? {
      return [], Raised(params.error);
    }
    var opener := new Cipher(c, params.value);
    yielded, outcome := OpenAllFrames(opener, r, OpenFrames(c, params.value, 0, r.Queue()));
  }

  // ------------------------------------------------------------------ both sides together

  /** Seal what a source delivers, whether a file or pieces cut any way, let the sealed bytes arrive from any other
      source, and open them: what comes out is what went in. */
  method SealThenOpen(c: Crypto, s: Session, source: Source, arrive: seq<Bytes> -> Source, ghost data: Bytes)
    returns (plain: seq<Bytes>, outcome: Outcome)
    requires TagLengths(c) && Compact(c) && Accepted(c, s) && Addressed(c, s)
    requires Delivers(source, data) && Fits(0, data, s.cs)
    requires Decrypts(c, ParamsOf(c, s).key, CallsOf(c, Sealed(s, data)))
    requires forall pieces: seq<Bytes> :: Delivers(arrive(pieces), Join(pieces))
    ensures outcome == Done && Join(plain) == data
    ensures plain == Chunks(data, s.cs)
  {
    ContentIsDelivered(source, data);
    var sealed, sealing, _ := SealStream(c, s, source);
    RoundTrip(c, Sealed(s, data));
    assert Join(sealed) == SealedWire(c, Sealed(s, data));
    ContentIsDelivered(arrive(sealed), Join(sealed));
    plain, outcome := OpenStream(c, arrive(sealed), s.aad);
  }

  /** Files on both sides: blocks of any sizes up to the first empty read. */
  method SealThenOpenFile(c: Crypto, s: Session, blocks: seq<Bytes>, rest: seq<Bytes>,
                          arrive: seq<Bytes> -> seq<Bytes>)
    returns (plain: seq<Bytes>, outcome: Outcome)
    requires TagLengths(c) && Compact(c) && Accepted(c, s) && Addressed(c, s)
    requires [] !in blocks && (rest != [] ==> rest[0] == []) && Fits(0, Join(blocks), s.cs)
    requires Decrypts(c, ParamsOf(c, s).key, CallsOf(c, Sealed(s, Join(blocks))))
    requires forall pieces: seq<Bytes> :: Join(arrive(pieces)) == Join(pieces) && [] !in arrive(pieces)
    ensures outcome == Done && Join(plain) == Join(blocks)
  {
    FileIsReadWhole(blocks, rest);
    ContentIsDelivered(FileLike(blocks + rest), Join(blocks));
    forall pieces: seq<Bytes>
      ensures Delivers(FileLike(arrive(pieces)), Join(pieces))
    {
      assert arrive(pieces)[..|arrive(pieces)|] == arrive(pieces);
      assert EndsAt(arrive(pieces), |arrive(pieces)|);
    }
    plain, outcome := SealThenOpen(c, s, FileLike(blocks + rest), (pieces: seq<Bytes>) => FileLike(arrive(pieces)),
                                   Join(blocks));
  }
}
