/**
 The in-memory store with an atomic compare-and-set, and `transition` over a plain dict, where the
 `_current` entry decides the check and a crash may fall between its two writes.
 */
module MigrationStore {
  import opened Common
  import opened MigrationState

  function Lookup(items: map<string, Bytes>, key: string): Option<Bytes> {
    if key in items then Some(items[key]) else None
  }

  const HISTORY := "_history"
  const CURRENT := "_current"

  /** The two entries of one key in a store. */
  function View(items: map<string, Bytes>, keyId: string): Store {
    Store(Lookup(items, keyId + HISTORY), Lookup(items, keyId + CURRENT))
  }

  lemma NamesDiffer(a: string, b: string)
    ensures a + HISTORY != b + CURRENT
    ensures a != b ==> a + HISTORY != b + HISTORY && a + CURRENT != b + CURRENT
  {
    var history, current := a + HISTORY, b + CURRENT;
    assert history[|history| - 1] == 'y' && current[|current| - 1] == 't';
    if a + HISTORY == b + HISTORY {
      assert (a + HISTORY)[..|a|] == a && (b + HISTORY)[..|b|] == b;
    }
    if a + CURRENT == b + CURRENT {
      assert (a + CURRENT)[..|a|] == a && (b + CURRENT)[..|b|] == b;
    }
  }

  /** How a plain-dict call ended. */
  datatype PlainOutcome = Done(record: Record) | Raised(error: MigrationError) | CrashedBetweenWrites

  /** `transition` without compare-and-set on the entries of one key. With `crash`, the process dies
      after the history is written and before `_current` is. */
  function PlainStep(c: Codec, store: Store, r: Request, id: nat, clock: int, crash: bool): (Store, PlainOutcome) {
    match Validate(r)
    case Some(e) => (store, Raised(e))
    case None =>
      if !Agrees(StateOf(LegacyCurrent(c, store.current)), r.from) then (store, Raised(StaleState))
      else match HistoryForWrite(c, store.history)
        case None => (store, Raised(HistoryUnreadable))
        case Some(entries) =>
          var record := NewRecord(r, id, 1, clock);
          var written := store.(history := Some(c.dumps(entries + [Good(record)])));
          if crash then (written, CrashedBetweenWrites)
          else (written.(current := Some(c.dumpRecord(record))), Done(record))
  }

  class MemoryMigrationStore {
    var items: map<string, Bytes>

    constructor (initial: map<string, Bytes>)
      ensures items == initial
    {
      items := initial;
    }

    /** Set `key` only if its current value is exactly `expected` (None: the key must not exist). */
    method CompareAndSet(key: string, expected: Option<Bytes>, value: Bytes) returns (written: bool)
      modifies this
      ensures written <==> match expected
                case None => key !in old(items)
                case Some(v) => key in old(items) && old(items)[key] == v
      ensures items == if written then old(items)[key := value] else old(items)
    {
      if Lookup(items, key) != expected {
        return false;
      }
      items := items[key := value];
      written := true;
    }

    /** `transition` on this store used as a plain dict; other keys keep both their entries. */
    method TransitionPlain(c: Codec, keyId: string, r: Request, id: nat, clock: int, crash: bool)
      returns (outcome: PlainOutcome)
      modifies this
      ensures (View(items, keyId), outcome) == PlainStep(c, View(old(items), keyId), r, id, clock, crash)
      ensures forall other :: other != keyId ==> View(items, other) == View(old(items), other)
    {
      forall other: string
        ensures keyId + HISTORY != other + CURRENT && other + HISTORY != keyId + CURRENT
        ensures other != keyId ==> other + HISTORY != keyId + HISTORY && other + CURRENT != keyId + CURRENT
      {
        NamesDiffer(keyId, other);
        NamesDiffer(other, keyId);
      }
      var invalid := Validate(r);
      if invalid.Some? {
        return Raised(invalid.value);
      }
      var current := StateOf(LegacyCurrent(c, Lookup(items, keyId + CURRENT)));
      if current.Some? && current.value != r.from {
        return Raised(StaleState);
      }
      var record := NewRecord(r, id, 1, clock);
      var history := HistoryForWrite(c, Lookup(items, keyId + HISTORY));
      if history.None? {
        return Raised(HistoryUnreadable);
      }
      items := items[keyId + HISTORY := c.dumps(history.value + [Good(record)])];
      if crash {
        return CrashedBetweenWrites;
      }
      items := items[keyId + CURRENT := c.dumpRecord(record)];
      outcome := Done(record);
    }
  }

  // ------------------------------------------------------------------ one call, in terms of the stored bytes

  /** What `_current` shows: the record in it if the loader can read one. */
  ghost predicate Shows(c: Codec, current: Option<Bytes>, shown: Option<Record>) {
    match shown
    case Some(r) => ShowsRecord(c, current, r)
    case None => forall r :: !ShowsRecord(c, current, r)
  }

  /** A call is taken exactly when the request may be asked for, `_current` shows no other state, and the history is
      absent or a list the loader can read. Then its record is appended to the entries found, and copied unless the
      process dies first; otherwise both entries stay as they were. */
  lemma PlainCallExactly(c: Codec, store: Store, r: Request, id: nat, clock: int, crash: bool, entries: seq<Entry>,
                         shown: Option<Record>)
    requires HoldsEntries(c, store.history, entries) || Unreadable(c, store.history)
    requires Shows(c, store.current, shown)
    ensures var (after, outcome) := PlainStep(c, store, r, id, clock, crash);
            var record := Record(id, 1, r.from, r.to, r.reason, r.details, clock);
            if MayAsk(r) && (shown.None? || shown.value.to == r.from) && HoldsEntries(c, store.history, entries) then
              && outcome == (if crash then CrashedBetweenWrites else Done(record))
              && after.history == Some(c.dumps(entries + [Good(record)]))
              && after.current == if crash then store.current else Some(c.dumpRecord(record))
            else
              && after == store && outcome.Raised?
              && (MayAsk(r) ==> outcome.error == if shown.Some? && shown.value.to != r.from then StaleState
                                                 else HistoryUnreadable)
  {
    ValidExactlyWhen(r);
    StoredHistoryMeans(c, store, entries);
    match LegacyCurrent(c, store.current)
    case Some(rec) => assert ShowsRecord(c, store.current, rec);
    case None =>
  }

  // ------------------------------------------------------------------ when plain-dict histories chain

  /** The state the history ends in. */
  function HistoryState(c: Codec, store: Store): Option<MState> {
    var entries := ParseHistory(c, store.history);
    if EndsInRecord(entries) then Some(entries[|entries| - 1].record.to) else None
  }

  predicate Appended(outcome: PlainOutcome) {
    outcome.Done? || outcome.CrashedBetweenWrites?
  }

  /** The state `_current` shows: None when the entry is absent or cannot be read. */
  function CurrentState(c: Codec, store: Store): Option<MState> {
    StateOf(LegacyCurrent(c, store.current))
  }

  /** Acceptance looks at `_current` only, whether it is readable, unreadable or absent; whether the record then
      chains is about the end of the history. */
  lemma AcceptedAndChained(c: Codec, store: Store, r: Request, id: nat, clock: int, crash: bool)
    requires RoundTrips(c)
    ensures var (after, outcome) := PlainStep(c, store, r, id, clock, crash);
            && (Appended(outcome) <==> Validate(r).None? && HistoryForWrite(c, store.history).Some?
                                       && (CurrentState(c, store).None? || CurrentState(c, store).value == r.from))
            && (Appended(outcome) ==>
                  && after.history.Some?
                  && c.decode(after.history.value)
                     == Entries(ParseHistory(c, store.history) + [Good(NewRecord(r, id, 1, clock))]))
            && (!Appended(outcome) ==> after == store)
  {
    var entries := ParseHistory(c, store.history) + [Good(NewRecord(r, id, 1, clock))];
    assert c.decode(c.dumps(entries)) == Entries(entries);
  }

  /** Every call a store accepts chains. */
  ghost predicate OnlyChains(c: Codec, store: Store) {
    forall r: Request, id: nat, clock: int, crash: bool ::
      Appended(PlainStep(c, store, r, id, clock, crash).1) ==> Agrees(HistoryState(c, store), r.from)
  }

  /** The entries are in step: no record yet, or `_current` shows the state the history ends in. A `_current` of
      PQC_ONLY will do as well, since it accepts nothing. */
  predicate InStep(c: Codec, store: Store) {
    || HistoryState(c, store).None?
    || (CurrentState(c, store).Some? && CurrentState(c, store).value in {HistoryState(c, store).value, PqcOnly})
  }

  /** A request that leaves the given state and passes the checks that need no store. */
  function Leave(from: MState): Request {
    var to := match from
      case ClassicalOnly => HybridTransition
      case HybridTransition => PqcPreferred
      case _ => PqcOnly;
    Request(from, to, false, "", "")
  }

  /** For every store, whatever its two entries hold: all accepted calls chain exactly when the entries are in
      step. An absent or unreadable `_current` beside a history is out of step. */
  lemma PlainChainsExactlyWhenInSync(c: Codec, store: Store)
    ensures OnlyChains(c, store) <==> InStep(c, store)
  {
    if !InStep(c, store) {
      var end := HistoryState(c, store).value;
      var from := match CurrentState(c, store)
        case Some(state) => state
        case None => if end == ClassicalOnly then HybridTransition else ClassicalOnly;
      assert Validate(Leave(from)).None?;
      assert Appended(PlainStep(c, store, Leave(from), 0, 0, false).1);
      assert !Agrees(HistoryState(c, store), Leave(from).from);
    }
  }

  /** A call that completes leaves the two entries in step, if what it wrote is readable. */
  lemma CompletedCallSyncs(c: Codec, store: Store, r: Request, id: nat, clock: int)
    requires RoundTrips(c) && PlainStep(c, store, r, id, clock, false).1.Done?
    ensures var after := PlainStep(c, store, r, id, clock, false).0;
            HistoryForWrite(c, after.history).Some? && LegacyCurrent(c, after.current).Some? ==>
              HistoryState(c, after) == Some(r.to) && CurrentState(c, after) == Some(r.to) && InStep(c, after)
  {
    var record := NewRecord(r, id, 1, clock);
    var entries := ParseHistory(c, store.history) + [Good(record)];
    assert c.decode(c.dumps(entries)) == Entries(entries);
    assert c.decodeRecord(c.dumpRecord(record)) == Some(record);
  }

  /** After a crash between the two writes the crashed call can be repeated. The next accepted call chains exactly
      when there was no readable `_current` before the crash and it starts where the crashed record ended: with a
      readable `_current` no accepted call chains. */
  lemma CrashBreaksTheChain(c: Codec, store: Store, r: Request, id: nat, clock: int,
                            next: Request, id2: nat, clock2: int, crash2: bool)
    requires RoundTrips(c)
    requires PlainStep(c, store, r, id, clock, true).1 == CrashedBetweenWrites
    ensures var after := PlainStep(c, store, r, id, clock, true).0;
            && (HistoryForWrite(c, after.history).Some? ==>
                  HistoryState(c, after) == Some(r.to) && PlainStep(c, after, r, id2, clock2, false).1.Done?)
            && (Appended(PlainStep(c, after, next, id2, clock2, crash2).1) ==>
                  (Agrees(HistoryState(c, after), next.from) <==> CurrentState(c, store).None? && next.from == r.to))
  {
    var entries := ParseHistory(c, store.history) + [Good(NewRecord(r, id, 1, clock))];
    assert c.decode(c.dumps(entries)) == Entries(entries);
    StateGraphIsAPath(r.from, r.to);
  }

  // ------------------------------------------------------------------ runs of plain-dict calls

  datatype PlainCall = PlainCall(request: Request, id: nat, clock: int, crash: bool)

  /** A record a run appended: whether its call crashed before writing `_current`, and the state the call's check
      saw in `_current`. */
  datatype Kept = Kept(record: Record, crashed: bool, seen: Option<MState>)

  datatype PlainSys = PlainSys(store: Store, log: seq<Kept>)

  function PlainNext(c: Codec, s: PlainSys, call: PlainCall): PlainSys {
    var (after, outcome) := PlainStep(c, s.store, call.request, call.id, call.clock, call.crash);
    if !Appended(outcome) then PlainSys(after, s.log)
    else
      var record := NewRecord(call.request, call.id, 1, call.clock);
      PlainSys(after, s.log + [Kept(record, call.crash, CurrentState(c, s.store))])
  }

  function PlainRun(c: Codec, s: PlainSys, calls: seq<PlainCall>): PlainSys
    decreases |calls|
  {
    if calls == [] then s else PlainRun(c, PlainNext(c, s, calls[0]), calls[1..])
  }

  function Records(log: seq<Kept>): (r: seq<Record>)
    ensures |r| == |log| && forall i :: 0 <= i < |log| ==> r[i] == log[i].record
  {
    seq(|log|, i requires 0 <= i < |log| => log[i].record)
  }

  /** The loader takes the record's bytes. */
  predicate Readable(c: Codec, r: Record) {
    |c.dumpRecord(r)| <= MAX_PAYLOAD_BYTES
  }

  /** What `_current` shows after a record was appended. */
  function Shown(c: Codec, k: Kept): Option<MState> {
    if k.crashed then k.seen else if Readable(c, k.record) then Some(k.record.to) else None
  }

  /** What the check of record `i` saw, or what `_current` shows now when `i` is the length of the log. */
  function ShownAt(c: Codec, init: Store, log: seq<Kept>, i: nat): Option<MState>
    requires i <= |log|
  {
    if i == 0 then CurrentState(c, init) else Shown(c, log[i - 1])
  }

  predicate KeptInv(c: Codec, init: Store, log: seq<Kept>, i: nat)
    requires i < |log|
  {
    && log[i].seen == ShownAt(c, init, log, i)
    && Allowed(log[i].record.from, log[i].record.to) && Agrees(log[i].seen, log[i].record.from)
  }

  ghost predicate PlainInv(c: Codec, init: Store, s: PlainSys) {
    && s.store.history == (if s.log == [] then init.history
                           else Some(c.dumps(ParseHistory(c, init.history) + AsEntries(Records(s.log)))))
    && CurrentState(c, s.store) == ShownAt(c, init, s.log, |s.log|)
    && forall i :: 0 <= i < |s.log| ==> KeptInv(c, init, s.log, i)
  }

  /** The history a call finds and appends to. */
  lemma FoundEntries(c: Codec, init: Store, s: PlainSys)
    requires RoundTrips(c) && PlainInv(c, init, s) && HistoryForWrite(c, s.store.history).Some?
    ensures HistoryForWrite(c, s.store.history).value == ParseHistory(c, init.history) + AsEntries(Records(s.log))
  {
    var entries := ParseHistory(c, init.history) + AsEntries(Records(s.log));
    if s.log == [] {
      assert entries == ParseHistory(c, init.history);
    } else {
      assert c.decode(c.dumps(entries)) == Entries(entries);
    }
  }

  lemma EntriesSnoc(base: seq<Entry>, log: seq<Kept>, k: Kept)
    ensures base + AsEntries(Records(log)) + [Good(k.record)] == base + AsEntries(Records(log + [k]))
  {
  }

  lemma KeptSnoc(c: Codec, init: Store, log: seq<Kept>, k: Kept)
    requires forall i :: 0 <= i < |log| ==> KeptInv(c, init, log, i)
    requires KeptInv(c, init, log + [k], |log|)
    ensures forall i :: 0 <= i < |log + [k]| ==> KeptInv(c, init, log + [k], i)
  {
    forall i | 0 <= i < |log|
      ensures KeptInv(c, init, log + [k], i)
    {
      assert KeptInv(c, init, log, i);
    }
  }

  lemma PlainNextKeepsInv(c: Codec, init: Store, s: PlainSys, call: PlainCall)
    requires RoundTrips(c) && PlainInv(c, init, s)
    ensures PlainInv(c, init, PlainNext(c, s, call))
  {
    var (after, outcome) := PlainStep(c, s.store, call.request, call.id, call.clock, call.crash);
    AcceptedAndChained(c, s.store, call.request, call.id, call.clock, call.crash);
    if Appended(outcome) {
      var record := NewRecord(call.request, call.id, 1, call.clock);
      var k := Kept(record, call.crash, CurrentState(c, s.store));
      FoundEntries(c, init, s);
      EntriesSnoc(ParseHistory(c, init.history), s.log, k);
      assert c.decodeRecord(c.dumpRecord(record)) == Some(record);
      KeptSnoc(c, init, s.log, k);
    }
  }

  lemma {:induction false} PlainRunKeepsInv(c: Codec, init: Store, s: PlainSys, calls: seq<PlainCall>)
    requires RoundTrips(c) && PlainInv(c, init, s)
    ensures PlainInv(c, init, PlainRun(c, s, calls))
    decreases |calls|
  {
    if calls != [] {
      PlainNextKeepsInv(c, init, s, calls[0]);
      PlainRunKeepsInv(c, init, PlainNext(c, s, calls[0]), calls[1..]);
    }
  }

  /** Record `i` does not lead the next call astray: its `_current` was written and reads, or the call saw no
      state at all and started at the right one. */
  predicate NextIsSafe(c: Codec, log: seq<Kept>, i: nat)
    requires i + 1 < |log|
  {
    || (!log[i].crashed && Readable(c, log[i].record))
    || (log[i + 1].seen.None? && log[i + 1].record.from == log[i].record.to)
  }

  lemma LinkedExactlyWhenSafe(c: Codec, init: Store, log: seq<Kept>, i: nat)
    requires i + 1 < |log| && KeptInv(c, init, log, i) && KeptInv(c, init, log, i + 1)
    ensures log[i + 1].record.from == log[i].record.to <==> NextIsSafe(c, log, i)
  {
    StateGraphIsAPath(log[i].record.from, log[i].record.to);
  }

  /** For every sequence of plain-dict calls with crashes anywhere, from any store: what the run appended is a
      chain exactly when its first record starts where the history ended and every record that has a successor
      had its `_current` written and readable, or was followed by a call that saw no state and started right. */
  lemma PlainHistoriesChainExactly(c: Codec, init: Store, calls: seq<PlainCall>)
    requires RoundTrips(c)
    ensures var t := PlainRun(c, PlainSys(init, []), calls);
            && t.store.history == (if t.log == [] then init.history
                                   else Some(c.dumps(ParseHistory(c, init.history) + AsEntries(Records(t.log)))))
            && (Chain(HistoryState(c, init), Records(t.log))
                <==> (t.log != [] ==> Agrees(HistoryState(c, init), t.log[0].record.from))
                     && forall i :: 0 <= i < |t.log| - 1 ==> NextIsSafe(c, t.log, i))
  {
    var t := PlainRun(c, PlainSys(init, []), calls);
    PlainRunKeepsInv(c, init, PlainSys(init, []), calls);
    ChainExactly(c, init, t.log);
  }

  lemma ChainExactly(c: Codec, init: Store, log: seq<Kept>)
    requires forall i :: 0 <= i < |log| ==> KeptInv(c, init, log, i)
    ensures Chain(HistoryState(c, init), Records(log))
            <==> (log != [] ==> Agrees(HistoryState(c, init), log[0].record.from))
                 && forall i :: 0 <= i < |log| - 1 ==> NextIsSafe(c, log, i)
  {
    var start, records := HistoryState(c, init), Records(log);
    forall i | 0 <= i < |log|
      ensures Linked(start, records, i)
              <==> if i == 0 then Agrees(start, log[0].record.from) else NextIsSafe(c, log, i - 1)
    {
      assert KeptInv(c, init, log, i);
      if i > 0 {
        LinkedExactlyWhenSafe(c, init, log, i - 1);
      }
    }
    if Chain(start, records) {
      forall i | 0 <= i < |log| - 1
        ensures NextIsSafe(c, log, i)
      {
        assert Linked(start, records, i + 1);
      }
      assert log != [] ==> Linked(start, records, 0);
    }
  }

  lemma {:induction false} SeenFromTheStart(c: Codec, init: Store, log: seq<Kept>, i: nat)
    requires CurrentState(c, init).Some? && i < |log|
    requires forall j :: 0 <= j < |log| ==> KeptInv(c, init, log, j) && Readable(c, log[j].record)
    ensures log[i].seen.Some?
  {
    assert KeptInv(c, init, log, i);
    if i > 0 {
      SeenFromTheStart(c, init, log, i - 1);
      assert Readable(c, log[i - 1].record);
    }
  }

  lemma {:induction false} NoneCrashed(c: Codec, s: PlainSys, calls: seq<PlainCall>)
    requires forall call :: call in calls ==> !call.crash
    requires forall i :: 0 <= i < |s.log| ==> !s.log[i].crashed
    ensures forall i :: 0 <= i < |PlainRun(c, s, calls).log| ==> !PlainRun(c, s, calls).log[i].crashed
    decreases |calls|
  {
    if calls != [] {
      var next := PlainNext(c, s, calls[0]);
      assert calls[0] in calls;
      NoneCrashed(c, next, calls[1..]);
      assert PlainRun(c, s, calls) == PlainRun(c, next, calls[1..]);
    }
  }

  /** From a store whose `_current` shows the end of its history, with records the loader takes: the run's history
      is a chain exactly when no record left behind by a crash has a successor. */
  lemma PlainHistoriesChainFromInStep(c: Codec, init: Store, calls: seq<PlainCall>)
    requires RoundTrips(c)
    requires CurrentState(c, init).Some? && HistoryState(c, init) == CurrentState(c, init)
    requires var log := PlainRun(c, PlainSys(init, []), calls).log;
             forall i :: 0 <= i < |log| ==> Readable(c, log[i].record)
    ensures var log := PlainRun(c, PlainSys(init, []), calls).log;
            Chain(HistoryState(c, init), Records(log)) <==> forall i :: 0 <= i < |log| - 1 ==> !log[i].crashed
  {
    var log := PlainRun(c, PlainSys(init, []), calls).log;
    PlainHistoriesChainExactly(c, init, calls);
    PlainRunKeepsInv(c, init, PlainSys(init, []), calls);
    assert log != [] ==> KeptInv(c, init, log, 0);
    forall i | 0 <= i < |log|
      ensures log[i].seen.Some?
    {
      SeenFromTheStart(c, init, log, i);
    }
    forall i | 0 <= i < |log| - 1
      ensures NextIsSafe(c, log, i) <==> !log[i].crashed
    {
      assert log[i + 1].seen.Some?;
    }
  }

  /** From an empty store, where every key starts, with records the loader takes: without a crash the run's history
      is a chain. */
  lemma PlainHistoriesChainFromEmpty(c: Codec, calls: seq<PlainCall>)
    requires RoundTrips(c) && forall call :: call in calls ==> !call.crash
    requires var log := PlainRun(c, PlainSys(Store(None, None), []), calls).log;
             forall i :: 0 <= i < |log| ==> Readable(c, log[i].record)
    ensures Chain(None, Records(PlainRun(c, PlainSys(Store(None, None), []), calls).log))
  {
    PlainHistoriesChainExactly(c, Store(None, None), calls);
    NoneCrashed(c, PlainSys(Store(None, None), []), calls);
  }

  /** A history that is over the loader's limit or is no list is never overwritten in this mode either. */
  lemma {:induction false} UnreadableIsKept(c: Codec, s: PlainSys, calls: seq<PlainCall>)
    requires Unreadable(c, s.store.history)
    ensures PlainRun(c, s, calls) == s
    decreases |calls|
  {
    if calls != [] {
      StoredHistoryMeans(c, s.store, []);
      UnreadableIsKept(c, s, calls[1..]);
    }
  }

  /** The record is what one of the calls asked for, and that call may ask for it. */
  predicate Asked(r: Record, calls: seq<PlainCall>) {
    exists call :: call in calls && MayAsk(call.request)
      && r == Record(call.id, 1, call.request.from, call.request.to, call.request.reason, call.request.details,
                     call.clock)
  }

  /** Every record a run appends was asked for: a step up, or an authorised step down with its reason. */
  lemma {:induction false} EveryRecordWasAskedFor(c: Codec, s: PlainSys, calls: seq<PlainCall>, i: nat)
    requires |s.log| <= i < |PlainRun(c, s, calls).log|
    ensures Asked(PlainRun(c, s, calls).log[i].record, calls)
    decreases |calls|
  {
    if calls != [] {
      var next := PlainNext(c, s, calls[0]);
      assert PlainRun(c, s, calls) == PlainRun(c, next, calls[1..]);
      if i < |next.log| {
        ValidExactlyWhen(calls[0].request);
        PlainLogGrows(c, next, calls[1..]);
        assert PlainRun(c, next, calls[1..]).log[i] == next.log[i];
        assert calls[0] in calls;
      } else {
        EveryRecordWasAskedFor(c, next, calls[1..], i);
        assert forall call :: call in calls[1..] ==> call in calls;
      }
    }
  }

  lemma {:induction false} PlainLogGrows(c: Codec, s: PlainSys, calls: seq<PlainCall>)
    ensures s.log <= PlainRun(c, s, calls).log
    decreases |calls|
  {
    if calls != [] {
      PlainLogGrows(c, PlainNext(c, s, calls[0]), calls[1..]);
    }
  }
}
