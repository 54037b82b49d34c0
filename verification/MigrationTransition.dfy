/**
 `transition` on a compare-and-set store as the loop it is, with other calls acting between any two of its
 steps: whatever they do, the loop is a run of the protocol in MigrationCas.
 */
module MigrationTransition {
  import opened Common
  import opened MigrationState
  import opened MigrationCas

  lemma {:induction false} RunAppend(c: Codec, s: Sys, a: seq<Event>, b: seq<Event>)
    ensures Run(c, s, a + b) == Run(c, Run(c, s, a), b)
    decreases |a|
  {
    if a == [] {
      assert a + b == b;
    } else {
      assert (a + b)[1..] == a[1..] + b;
      RunAppend(c, Next(c, s, a[0]), a[1..], b);
    }
  }

  lemma RunSnoc(c: Codec, s: Sys, a: seq<Event>, e: Event)
    ensures Run(c, s, a + [e]) == Next(c, Run(c, s, a), e)
  {
    RunAppend(c, s, a, [e]);
    var t := Run(c, s, a);
    assert Run(c, t, [e]) == Run(c, Next(c, t, e), [e][1..]);
  }

  predicate ByOthers(w: nat, events: seq<Event>) {
    forall e :: e in events ==> e.w != w
  }

  lemma {:induction false} OthersLeaveCaller(c: Codec, s: Sys, events: seq<Event>, w: nat)
    requires ByOthers(w, events) && w < |s.callers|
    ensures w < |Run(c, s, events).callers| && Run(c, s, events).callers[w] == s.callers[w]
    decreases |events|
  {
    if events != [] {
      assert events[0] in events;
      assert forall e :: e in events[1..] ==> e in events;
      OthersLeaveCaller(c, Next(c, s, events[0]), events[1..], w);
    }
  }

  /** The shared world as call `w` finds it; `past` is everything that has happened since `start`. */
  class Manager {
    const c: Codec
    const w: nat
    const start: Sys
    var world: Sys
    ghost var past: seq<Event>

    ghost predicate Valid()
      reads this
    {
      w < |world.callers| && world == Run(c, start, past)
    }

    constructor (c: Codec, w: nat, start: Sys)
      requires w < |start.callers|
      ensures Valid() && this.c == c && this.w == w && this.start == start && world == start && past == []
    {
      this.c := c;
      this.w := w;
      this.start := start;
      world := start;
      past := [];
    }

    /** The other calls run for a while. */
    method Others(events: seq<Event>)
      requires Valid() && ByOthers(w, events)
      modifies this
      ensures Valid() && world.callers[w] == old(world.callers[w])
    {
      OthersLeaveCaller(c, world, events, w);
      RunAppend(c, start, past, events);
      world := Run(c, world, events);
      past := past + events;
    }

    /** The store's atomic operation on the history entry. */
    method CompareAndSet(expected: Option<Bytes>, value: Bytes) returns (written: bool)
      modifies this`world
      ensures written <==> old(world.store.history) == expected
      ensures world == if written then old(world).(store := old(world).store.(history := Some(value))) else old(world)
    {
      if world.store.history != expected {
        return false;
      }
      world := world.(store := world.store.(history := Some(value)));
      written := true;
    }

    /** Where this call now is; `before` is the world before the step that got it there. */
    method Note(ghost before: Sys, now: Sys, clock: int)
      requires w < |before.callers| && before == Run(c, start, past) && now == Next(c, before, Step(w, clock))
      modifies this
      ensures Valid() && world == now
    {
      world := now;
      past := past + [Step(w, clock)];
      RunSnoc(c, start, old(past), Step(w, clock));
    }

    /** Where an attempt left this call: it lost and may try again, returned a record, or raised. */
    predicate Left(n: nat, request: Request, r: Option<Result<Record, MigrationError>>)
      requires w < |world.callers|
      reads this
    {
      && world.callers[w].request == request
      && world.callers[w].pc == match r
         case None => if n == MAX_CAS_ATTEMPTS then Failed(TooContended) else Start(n + 1)
         case Some(Ok(record)) => Returned(record)
         case Some(Err(e)) => Failed(e)
    }

    /** The second half of an attempt: compare-and-set, then the copy. */
    method TryCommit(n: nat, request: Request, raw: Option<Bytes>, history: seq<Entry>, clock: int,
                     others: (nat, nat) -> seq<Event>)
      returns (r: Option<Result<Record, MigrationError>>)
      requires Valid() && world.callers[w].pc == Checked(n, raw, history) && world.callers[w].request == request
      requires forall i, j :: ByOthers(w, others(i, j))
      modifies this
      ensures Valid() && Left(n, request, r)
    {
      Others(others(n, 2));
      var record := NewRecord(request, w, n, clock);
      ghost var before := world;
      var written := CompareAndSet(raw, c.dumps(history + [Good(record)]));
      if written {
        Note(before, AtPc(world, w, Committed(record)).(log := world.log + [record]), clock);
        Others(others(n, 3));
        Note(world, AtPc(world, w, Returned(record)).(store := world.store.(current := Some(c.dumpRecord(record)))),
             clock);
        return Some(Ok(record));
      }
      Note(before, AtPc(world, w, if n == MAX_CAS_ATTEMPTS then Failed(TooContended) else Start(n + 1)), clock);
      r := None;
    }

    /** One attempt: read and check the history, then try to commit. */
    method Attempt(n: nat, request: Request, clock: int, others: (nat, nat) -> seq<Event>)
      returns (r: Option<Result<Record, MigrationError>>)
      requires Valid() && world.callers[w].pc == Start(n) && world.callers[w].request == request
      requires forall i, j :: ByOthers(w, others(i, j))
      modifies this
      ensures Valid() && Left(n, request, r)
    {
      Others(others(n, 0));
      var raw := world.store.history;
      Note(world, DoRead(world, w, n), clock);
      Others(others(n, 1));
      var history := HistoryForWrite(c, raw);
      if history.None? {
        Note(world, AtPc(world, w, Failed(HistoryUnreadable)), clock);
        return Some(Err(HistoryUnreadable));
      }
      var current := StateFrom(c, history.value, world.store.current);
      if current.Some? && current.value != request.from {
        Note(world, AtPc(world, w, Failed(StaleState)), clock);
        return Some(Err(StaleState));
      }
      Note(world, AtPc(world, w, Checked(n, raw, history.value)), clock);
      r := TryCommit(n, request, raw, history.value, clock, others);
    }

    /** `transition`: up to twenty attempts to read, check, compare-and-set and copy; `others` says what the
        other calls do before each step. What comes back is where the protocol has this call. */
    method Transition(clock: int, others: (nat, nat) -> seq<Event>) returns (r: Result<Record, MigrationError>)
      requires Valid() && world.callers[w].pc == Idle
      requires forall i, j :: ByOthers(w, others(i, j))
      modifies this
      ensures Valid()
      ensures world.callers[w].pc == if r.Ok? then Returned(r.value) else Failed(r.error)
    {
      var request := world.callers[w].request;
      var invalid := Validate(request);
      if invalid.Some? {
        Note(world, AtPc(world, w, Failed(invalid.value)), clock);
        return Err(invalid.value);
      }
      Note(world, AtPc(world, w, Start(1)), clock);
      for n := 1 to MAX_CAS_ATTEMPTS + 1
        invariant Valid() && world.callers[w].request == request
        invariant world.callers[w].pc == if n <= MAX_CAS_ATTEMPTS then Start(n) else Failed(TooContended)
      {
        var done := Attempt(n, request, clock, others);
        if done.Some? {
          return done.value;
        }
      }
      r := Err(TooContended);
    }

    /** So the theorems about runs hold of the loop: it returns having appended its own record, which is what was
        asked for, and no other, or raises having appended none; the history is still a chain, and one that cannot
        be read is refused and kept. */
    method TransitionFromFresh(clock: int, others: (nat, nat) -> seq<Event>) returns (r: Result<Record, MigrationError>)
      requires Valid() && world == start && Initial(start) && RoundTrips(c)
      requires forall n, i :: ByOthers(w, others(n, i))
      modifies this
      ensures Valid()
      ensures if r.Ok? then Owns(world.log, w, r.value) && Asked(r.value, start.callers) else Quiet(world.log, w)
      ensures Unreadable(c, start.store.history) ==> r.Err? && world.store.history == start.store.history
      ensures world.store.history == HistoryAt(c, start.store, world.log)
              && Chain(StartState(c, start.store), world.log)
    {
      r := Transition(clock, others);
      OneRecordPerReturn(c, start, past, w);
      HistoriesAreChains(c, start, past);
      if r.Ok? {
        var i :| 0 <= i < |world.log| && world.log[i] == r.value;
        EveryRecordWasAskedFor(c, start, past, i);
      }
      if Unreadable(c, start.store.history) {
        UnreadableIsKept(c, start, [], past);
      }
    }
  }
}
