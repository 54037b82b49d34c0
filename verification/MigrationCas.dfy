/**
 Concurrent `transition` calls on one key over a store with an atomic compare-and-set. Every call is
 a small state machine (validate, read, check, compare-and-set, write `_current`) and a system runs
 any number of them in any interleaving, with crashes between any two steps.
 */
module MigrationCas {
  import opened Common
  import opened MigrationState

  const MAX_CAS_ATTEMPTS := 20

  /** Where a call is; `n` counts its attempts from 1. */
  datatype Pc =
    | Idle
    | Start(n: nat)
    | Read(n: nat, raw: Option<Bytes>)
    | Checked(n: nat, raw: Option<Bytes>, entries: seq<Entry>)
    | Committed(record: Record)
    | Returned(record: Record)
    | Failed(error: MigrationError)
    | Crashed(done: Option<Record>)

  /** One call. Three auxiliary numbers take no part in its steps: the number of commits at its
      first read, at its latest read, and at the read of the attempt it lost last. */
  datatype Caller = Caller(request: Request, pc: Pc, first: nat, seen: nat, lost: nat)

  /** The store, the calls, and the records committed so far, oldest first (auxiliary). */
  datatype Sys = Sys(store: Store, callers: seq<Caller>, log: seq<Record>)

  datatype Event = Step(w: nat, clock: int) | Crash(w: nat)

  function AtPc(s: Sys, w: nat, pc: Pc): Sys
    requires w < |s.callers|
  {
    s.(callers := s.callers[w := s.callers[w].(pc := pc)])
  }

  /** The read of the history that opens attempt `n`. */
  function DoRead(s: Sys, w: nat, n: nat): Sys
    requires w < |s.callers|
  {
    var k := s.callers[w];
    s.(callers := s.callers[w :=
      k.(pc := Read(n, s.store.history), first := if n == 1 then |s.log| else k.first, seen := |s.log|,
         lost := k.seen)])
  }

  /** Parse what was read and compare the state with `from_state`; may read `_current`. */
  function DoCheck(c: Codec, s: Sys, w: nat, n: nat, raw: Option<Bytes>): Sys
    requires w < |s.callers|
  {
    match HistoryForWrite(c, raw)
    case None => AtPc(s, w, Failed(HistoryUnreadable))
    case Some(entries) =>
      if Agrees(StateFrom(c, entries, s.store.current), s.callers[w].request.from)
      then AtPc(s, w, Checked(n, raw, entries))
      else AtPc(s, w, Failed(StaleState))
  }

  /** The atomic compare-and-set on the history entry. */
  function DoCas(c: Codec, s: Sys, w: nat, n: nat, raw: Option<Bytes>, entries: seq<Entry>, clock: int): Sys
    requires w < |s.callers|
  {
    if s.store.history == raw then
      var record := NewRecord(s.callers[w].request, w, n, clock);
      AtPc(s, w, Committed(record)).(
        store := s.store.(history := Some(c.dumps(entries + [Good(record)]))),
        log := s.log + [record])
    else if n == MAX_CAS_ATTEMPTS then AtPc(s, w, Failed(TooContended))
    else AtPc(s, w, Start(n + 1))
  }

  function Advance(c: Codec, s: Sys, w: nat, clock: int): Sys
    requires w < |s.callers|
  {
    match s.callers[w].pc
    case Idle =>
      (match Validate(s.callers[w].request)
       case Some(e) => AtPc(s, w, Failed(e))
       case None => AtPc(s, w, Start(1)))
    case Start(n) => DoRead(s, w, n)
    case Read(n, raw) => DoCheck(c, s, w, n, raw)
    case Checked(n, raw, entries) => DoCas(c, s, w, n, raw, entries, clock)
    case Committed(record) =>
      AtPc(s, w, Returned(record)).(store := s.store.(current := Some(c.dumpRecord(record))))
    case _ => s
  }

  function DoCrash(s: Sys, w: nat): Sys
    requires w < |s.callers|
  {
    match s.callers[w].pc
    case Returned(_) => s
    case Failed(_) => s
    case Crashed(_) => s
    case Committed(record) => AtPc(s, w, Crashed(Some(record)))
    case _ => AtPc(s, w, Crashed(None))
  }

  function Next(c: Codec, s: Sys, e: Event): Sys {
    if e.w >= |s.callers| then s
    else match e
      case Step(w, clock) => Advance(c, s, w, clock)
      case Crash(w) => DoCrash(s, w)
  }

  function Run(c: Codec, s: Sys, events: seq<Event>): Sys
    decreases |events|
  {
    if events == [] then s else Run(c, Next(c, s, events[0]), events[1..])
  }

  predicate Initial(s: Sys) {
    && s.log == []
    && forall w :: 0 <= w < |s.callers| ==> s.callers[w].pc == Idle
  }

  // ------------------------------------------------------------------ the invariant

  /** The entries stored before any of these calls. */
  function Base(c: Codec, init: Store): seq<Entry> {
    ParseHistory(c, init.history)
  }

  /** The state of the key before any of these calls. */
  function StartState(c: Codec, init: Store): Option<MState> {
    StateFrom(c, Base(c, init), init.current)
  }

  predicate Readable(c: Codec, init: Store) {
    HistoryForWrite(c, init.history).Some?
  }

  function AllEntries(c: Codec, init: Store, log: seq<Record>): seq<Entry> {
    Base(c, init) + AsEntries(log)
  }

  /** The stored history after the commits in `log`. */
  function HistoryAt(c: Codec, init: Store, log: seq<Record>): Option<Bytes> {
    if log == [] then init.history else Some(c.dumps(AllEntries(c, init, log)))
  }

  /** The state at the first read was read off a history record. */
  predicate StartKnown(c: Codec, init: Store, k: Caller) {
    k.first > 0 || EndsInRecord(Base(c, init))
  }

  /** The least number of foreign commits between a call's first read and its `n`-th read when that
      read passed the check: none at first, then two per further attempt, or one less in all when
      nothing was known at the first read. */
  function Least(n: nat, known: bool): int {
    if n <= 1 then 0 else 2 * (n - 1) - (if known then 0 else 1)
  }

  /** The state at the read numbered `k` was exactly `from`. */
  predicate WasFrom(c: Codec, init: Store, log: seq<Record>, k: nat, from: MState)
    requires k <= |log|
  {
    StateAt(StartState(c, init), log, k) == Some(from)
  }

  /** A call that lost attempts 1 to `n - 1`. */
  predicate Losing(c: Codec, init: Store, log: seq<Record>, k: Caller, n: nat, lost: nat) {
    1 <= n <= MAX_CAS_ATTEMPTS &&
    (n >= 2 ==>
       && k.first + Least(n - 1, StartKnown(c, init, k)) <= lost < |log|
       && (n == 2 ==> lost == k.first)
       && (n > 2 || StartKnown(c, init, k) ==> WasFrom(c, init, log, lost, k.request.from)))
  }

  /** A call that has read the first `seen` commits and parsed them into `entries`. */
  predicate ReadSoFar(c: Codec, init: Store, log: seq<Record>, k: Caller, n: nat, raw: Option<Bytes>) {
    && k.seen <= |log|
    && raw == HistoryAt(c, init, log[..k.seen])
    && k.first <= k.seen && (n == 1 ==> k.seen == k.first)
    && (n >= 2 ==> k.lost < k.seen)
  }

  predicate Passed(c: Codec, init: Store, log: seq<Record>, k: Caller, n: nat, entries: seq<Entry>)
    requires k.seen <= |log|
  {
    && Readable(c, init)
    && entries == AllEntries(c, init, log[..k.seen])
    && k.first + Least(n, StartKnown(c, init, k)) <= k.seen
    && (n == 1 ==> k.seen == k.first)
    && (n >= 2 || StartKnown(c, init, k) ==> WasFrom(c, init, log, k.seen, k.request.from))
    && (k.seen == |log| ==> Agrees(StateAt(StartState(c, init), log, k.seen), k.request.from))
  }

  predicate Quiet(log: seq<Record>, w: nat) {
    forall i :: 0 <= i < |log| ==> log[i].caller != w
  }

  /** The call's one record is in the log, once. */
  predicate Owns(log: seq<Record>, w: nat, r: Record) {
    r.caller == w && exists i :: 0 <= i < |log| && log[i] == r && forall j :: 0 <= j < |log| && log[j].caller == w ==>
          j == i
  }

  ghost predicate CallerInv(c: Codec, init: Store, log: seq<Record>, w: nat, k: Caller) {
    match k.pc
    case Idle => Quiet(log, w)
    case Start(n) => Quiet(log, w) && Validate(k.request).None? && Losing(c, init, log, k, n, k.seen)
    case Read(n, raw) =>
      && Quiet(log, w) && Validate(k.request).None?
      && ReadSoFar(c, init, log, k, n, raw) && Losing(c, init, log, k, n, k.lost)
    case Checked(n, raw, entries) =>
      && Quiet(log, w) && Validate(k.request).None? && 1 <= n <= MAX_CAS_ATTEMPTS
      && HistoryForWrite(c, raw).Some?
      && ReadSoFar(c, init, log, k, n, raw) && Passed(c, init, log, k, n, entries)
    case Committed(r) => Owns(log, w, r)
    case Returned(r) => Owns(log, w, r)
    case Failed(e) =>
      Quiet(log, w) && (e == TooContended ==> |log| >= k.first + Least(MAX_CAS_ATTEMPTS, StartKnown(c, init, k)) + 1)
    case Crashed(r) => if r.Some? then Owns(log, w, r.value) else Quiet(log, w)
  }

  /** `_current` is what it was before, or a committed record. */
  ghost predicate CurrentInv(c: Codec, init: Store, s: Sys) {
    s.store.current == init.current
    || exists i :: 0 <= i < |s.log| && s.store.current == Some(c.dumpRecord(s.log[i]))
  }

  ghost predicate Inv(c: Codec, init: Store, s: Sys) {
    && s.store.history == HistoryAt(c, init, s.log)
    && (s.log != [] ==> Readable(c, init))
    && Chain(StartState(c, init), s.log)
    && CurrentInv(c, init, s)
    && (forall i :: 0 <= i < |s.log| ==> s.log[i].caller < |s.callers|)
    && (forall w :: 0 <= w < |s.callers| ==> CallerInv(c, init, s.log, w, s.callers[w]))
  }

  // ------------------------------------------------------------------ histories do not repeat

  /** Two lengths of the log never have the same stored bytes: comparing bytes admits no ABA. */
  lemma NoAba(c: Codec, init: Store, log: seq<Record>, i: nat, j: nat)
    requires RoundTrips(c) && Readable(c, init) && i < j <= |log|
    ensures HistoryAt(c, init, log[..i]) != HistoryAt(c, init, log[..j])
  {
    var a, b := AllEntries(c, init, log[..i]), AllEntries(c, init, log[..j]);
    assert c.decode(c.dumps(b)) == Entries(b);
    if i == 0 {
      if init.history.Some? {
        assert c.decode(init.history.value) == Entries(Base(c, init));
      }
    } else {
      assert c.decode(c.dumps(a)) == Entries(a);
    }
  }

  /** What a readable stored history parses to. */
  lemma ParsesToItsEntries(c: Codec, init: Store, log: seq<Record>)
    requires RoundTrips(c) && (log != [] ==> Readable(c, init))
    ensures HistoryForWrite(c, HistoryAt(c, init, log)).Some? ==>
              Readable(c, init) && HistoryForWrite(c, HistoryAt(c, init, log)).value == AllEntries(c, init, log)
  {
    if log == [] {
      assert AllEntries(c, init, log) == Base(c, init);
    } else {
      assert c.decode(c.dumps(AllEntries(c, init, log))) == Entries(AllEntries(c, init, log));
    }
  }

  // ------------------------------------------------------------------ each step keeps the invariant

  /** A caller that does not move keeps its part when someone else commits a record. */
  lemma OthersCommit(c: Codec, init: Store, log: seq<Record>, w: nat, k: Caller, r: Record)
    requires CallerInv(c, init, log, w, k) && r.caller != w
    ensures CallerInv(c, init, log + [r], w, k)
  {
    var log' := log + [r];
    if k.seen <= |log| {
      assert log'[..k.seen] == log[..k.seen];
    }
    match k.pc
    case Committed(x) => OwnsGrows(log, w, x, r);
    case Returned(x) => OwnsGrows(log, w, x, r);
    case Crashed(x) => if x.Some? { OwnsGrows(log, w, x.value, r); }
    case _ =>
  }

  lemma OwnsGrows(log: seq<Record>, w: nat, x: Record, r: Record)
    requires Owns(log, w, x) && r.caller != w
    ensures Owns(log + [r], w, x)
  {
    var i :| 0 <= i < |log| && log[i] == x && forall j :: 0 <= j < |log| && log[j].caller == w ==> j == i;
    assert (log + [r])[i] == x;
  }

  lemma OwnsNew(log: seq<Record>, w: nat, r: Record)
    requires Quiet(log, w) && r.caller == w
    ensures Owns(log + [r], w, r)
  {
    assert (log + [r])[|log|] == r;
  }

  lemma ReadStep(c: Codec, init: Store, s: Sys, w: nat, n: nat)
    requires Inv(c, init, s) && w < |s.callers| && s.callers[w].pc == Start(n)
    ensures Inv(c, init, DoRead(s, w, n))
  {
    assert s.log[..|s.log|] == s.log;
    assert CallerInv(c, init, s.log, w, DoRead(s, w, n).callers[w]);
  }

  /** With any committed record before it, a check that passes saw exactly `from`. */
  lemma CheckIsExact(c: Codec, init: Store, s: Sys, k: Caller)
    requires Inv(c, init, s) && k.seen <= |s.log|
    requires Agrees(StateFrom(c, AllEntries(c, init, s.log[..k.seen]), s.store.current), k.request.from)
    ensures k.seen > 0 || EndsInRecord(Base(c, init)) ==> WasFrom(c, init, s.log, k.seen, k.request.from)
    ensures k.seen == |s.log| ==> Agrees(StateAt(StartState(c, init), s.log, k.seen), k.request.from)
  {
    var entries := AllEntries(c, init, s.log[..k.seen]);
    if k.seen > 0 {
      assert entries[|entries| - 1] == Good(s.log[k.seen - 1]);
    } else {
      assert entries == Base(c, init);
    }
  }

  /** A caller moves without touching the store. */
  lemma PcMoves(c: Codec, init: Store, s: Sys, w: nat, pc: Pc)
    requires Inv(c, init, s) && w < |s.callers|
    requires CallerInv(c, init, s.log, w, s.callers[w].(pc := pc))
    ensures Inv(c, init, AtPc(s, w, pc))
  {
  }

  /** A caller that lost before and passes its check again has seen an even number of foreign commits. */
  lemma TwoMoreCommits(c: Codec, init: Store, s: Sys, k: Caller, n: nat)
    requires Inv(c, init, s) && Losing(c, init, s.log, k, n, k.lost) && k.lost < k.seen <= |s.log|
    requires WasFrom(c, init, s.log, k.seen, k.request.from)
    requires n > 2 || (n == 2 && StartKnown(c, init, k))
    ensures k.seen >= k.lost + 2
  {
    assert WasFrom(c, init, s.log, k.lost, k.request.from);
    var half := ReturnIsEven(StartState(c, init), s.log, k.lost, k.seen);
  }

  lemma CheckStep(c: Codec, init: Store, s: Sys, w: nat, n: nat, raw: Option<Bytes>)
    requires RoundTrips(c) && Inv(c, init, s) && w < |s.callers| && s.callers[w].pc == Read(n, raw)
    ensures Inv(c, init, DoCheck(c, s, w, n, raw))
  {
    var k := s.callers[w];
    ParsesToItsEntries(c, init, s.log[..k.seen]);
    if DoCheck(c, s, w, n, raw).callers[w].pc.Checked? {
      CheckIsExact(c, init, s, k);
      if n > 2 || (n == 2 && StartKnown(c, init, k)) {
        TwoMoreCommits(c, init, s, k, n);
      }
      assert CallerInv(c, init, s.log, w, k.(pc := Checked(n, raw, AllEntries(c, init, s.log[..k.seen]))));
    }
  }

  lemma WonCas(c: Codec, init: Store, s: Sys, w: nat, n: nat, raw: Option<Bytes>, entries: seq<Entry>, clock: int)
    requires RoundTrips(c) && Inv(c, init, s) && w < |s.callers| && s.callers[w].pc == Checked(n, raw, entries)
    requires s.store.history == raw
    ensures Inv(c, init, DoCas(c, s, w, n, raw, entries, clock))
  {
    var k := s.callers[w];
    var r := NewRecord(k.request, w, n, clock);
    var s' := DoCas(c, s, w, n, raw, entries, clock);
    assert s.log[..|s.log|] == s.log;
    if k.seen < |s.log| {
      NoAba(c, init, s.log, k.seen, |s.log|);
    }
    ChainAppend(StartState(c, init), s.log, r);
    assert entries + [Good(r)] == AllEntries(c, init, s.log + [r]);
    OwnsNew(s.log, w, r);
    forall v | 0 <= v < |s'.callers|
      ensures CallerInv(c, init, s'.log, v, s'.callers[v])
    {
      if v != w {
        OthersCommit(c, init, s.log, v, s.callers[v], r);
      }
    }
    if s.store.current != init.current {
      var i :| 0 <= i < |s.log| && s.store.current == Some(c.dumpRecord(s.log[i]));
      assert s'.log[i] == s.log[i];
    }
  }

  lemma LostCas(c: Codec, init: Store, s: Sys, w: nat, n: nat, raw: Option<Bytes>, entries: seq<Entry>, clock: int)
    requires Inv(c, init, s) && w < |s.callers| && s.callers[w].pc == Checked(n, raw, entries)
    requires s.store.history != raw
    ensures Inv(c, init, DoCas(c, s, w, n, raw, entries, clock))
  {
    var k := s.callers[w];
    assert s.log[..|s.log|] == s.log;
    assert k.seen < |s.log|;
    assert CallerInv(c, init, s.log, w, DoCas(c, s, w, n, raw, entries, clock).callers[w]);
  }

  lemma CopyStep(c: Codec, init: Store, s: Sys, w: nat, r: Record)
    requires Inv(c, init, s) && w < |s.callers| && s.callers[w].pc == Committed(r)
    ensures Inv(c, init, Advance(c, s, w, 0))
  {
    var i :| 0 <= i < |s.log| && s.log[i] == r;
    assert CallerInv(c, init, s.log, w, s.callers[w].(pc := Returned(r)));
  }

  lemma CrashKeepsInv(c: Codec, init: Store, s: Sys, w: nat)
    requires Inv(c, init, s) && w < |s.callers|
    ensures Inv(c, init, DoCrash(s, w))
  {
    assert CallerInv(c, init, s.log, w, s.callers[w]);
    match s.callers[w].pc
    case Returned(_) =>
    case Failed(_) =>
    case Crashed(_) =>
    case Committed(r) => PcMoves(c, init, s, w, Crashed(Some(r)));
    case _ => PcMoves(c, init, s, w, Crashed(None));
  }

  lemma BeginKeepsInv(c: Codec, init: Store, s: Sys, w: nat, clock: int)
    requires Inv(c, init, s) && w < |s.callers| && s.callers[w].pc == Idle
    ensures Inv(c, init, Advance(c, s, w, clock))
  {
    assert CallerInv(c, init, s.log, w, s.callers[w]);
    match Validate(s.callers[w].request)
    case Some(e) => PcMoves(c, init, s, w, Failed(e));
    case None => PcMoves(c, init, s, w, Start(1));
  }

  lemma StepKeepsInv(c: Codec, init: Store, s: Sys, e: Event)
    requires RoundTrips(c) && Inv(c, init, s)
    ensures Inv(c, init, Next(c, s, e))
  {
    if e.w < |s.callers| {
      match e
      case Crash(w) => CrashKeepsInv(c, init, s, w);
      case Step(w, clock) =>
        match s.callers[w].pc
        case Idle => BeginKeepsInv(c, init, s, w, clock);
        case Start(n) => ReadStep(c, init, s, w, n);
        case Read(n, raw) => CheckStep(c, init, s, w, n, raw);
        case Checked(n, raw, entries) =>
          if s.store.history == raw {
            WonCas(c, init, s, w, n, raw, entries, clock);
          } else {
            LostCas(c, init, s, w, n, raw, entries, clock);
          }
        case Committed(r) => CopyStep(c, init, s, w, r);
        case _ =>
    }
  }

  lemma {:induction false} RunKeepsInv(c: Codec, init: Store, s: Sys, events: seq<Event>)
    requires RoundTrips(c) && Inv(c, init, s)
    ensures Inv(c, init, Run(c, s, events))
    decreases |events|
  {
    if events != [] {
      StepKeepsInv(c, init, s, events[0]);
      RunKeepsInv(c, init, Next(c, s, events[0]), events[1..]);
    }
  }

  lemma InitialInv(c: Codec, s: Sys)
    requires Initial(s)
    ensures Inv(c, s.store, s)
  {
  }

  // ------------------------------------------------------------------ theorems over all runs

  lemma ReachableInv(c: Codec, s: Sys, events: seq<Event>)
    requires RoundTrips(c) && Initial(s)
    ensures Inv(c, s.store, Run(c, s, events))
  {
    InitialInv(c, s);
    RunKeepsInv(c, s.store, s, events);
  }

  /** Every reachable history is the old one with a chain of records appended: each is a table
      transition, starts where the one before it ended, and nothing follows PQC_ONLY. */
  lemma HistoriesAreChains(c: Codec, s: Sys, events: seq<Event>)
    requires RoundTrips(c) && Initial(s)
    ensures var t := Run(c, s, events);
            && t.store.history == HistoryAt(c, s.store, t.log)
            && Chain(StartState(c, s.store), t.log)
            && forall i :: 0 <= i < |t.log| && t.log[i].to == PqcOnly ==> i == |t.log| - 1
  {
    ReachableInv(c, s, events);
    var t := Run(c, s, events);
    forall i | 0 <= i < |t.log| && t.log[i].to == PqcOnly
      ensures i == |t.log| - 1
    {
      PqcOnlyEndsAChain(StartState(c, s.store), t.log, i);
    }
  }

  /** Histories only grow by appending. */
  lemma {:induction false} LogOnlyGrows(c: Codec, s: Sys, events: seq<Event>)
    ensures s.log <= Run(c, s, events).log
    ensures |Run(c, s, events).callers| == |s.callers|
    decreases |events|
  {
    if events != [] {
      LogOnlyGrows(c, Next(c, s, events[0]), events[1..]);
    }
  }

  /** A call that returned appended exactly one record, its own; a call that raised appended none. */
  lemma OneRecordPerReturn(c: Codec, s: Sys, events: seq<Event>, w: nat)
    requires RoundTrips(c) && Initial(s) && w < |s.callers|
    ensures var t := Run(c, s, events);
            && w < |t.callers|
            && (t.callers[w].pc.Returned? ==> Owns(t.log, w, t.callers[w].pc.record))
            && (t.callers[w].pc.Failed? ==> Quiet(t.log, w))
  {
    ReachableInv(c, s, events);
    LogOnlyGrows(c, s, events);
    assert CallerInv(c, s.store, Run(c, s, events).log, w, Run(c, s, events).callers[w]);
  }

  /** The first-read mark of a call never changes after its first read. */
  lemma {:induction false} FirstReadStays(c: Codec, s: Sys, events: seq<Event>, w: nat)
    requires w < |s.callers| && s.callers[w].pc != Idle && s.callers[w].pc != Start(1)
    requires s.callers[w].pc.Start? ==> s.callers[w].pc.n > 1
    requires s.callers[w].pc.Checked? ==> s.callers[w].pc.n > 0
    requires s.callers[w].pc.Read? ==> s.callers[w].pc.n > 0
    ensures w < |Run(c, s, events).callers| && Run(c, s, events).callers[w].first == s.callers[w].first
    decreases |events|
  {
    if events != [] {
      FirstReadStays(c, Next(c, s, events[0]), events[1..], w);
    }
  }

  /** Giving up after 20 lost compare-and-sets takes at least 38 commits by other calls since the
      first read, and 39 if that read found a readable last record. */
  lemma GivingUpTakesThirtyEight(c: Codec, s: Sys, before: seq<Event>, w: nat, clock: int, after: seq<Event>)
    requires RoundTrips(c) && Initial(s) && w < |Run(c, s, before).callers|
    requires Run(c, s, before).callers[w].pc == Start(1)
    requires w < |Run(c, Run(c, s, before), [Step(w, clock)] + after).callers|
    requires Run(c, Run(c, s, before), [Step(w, clock)] + after).callers[w].pc == Failed(TooContended)
    ensures var mid, end := Run(c, s, before), Run(c, Run(c, s, before), [Step(w, clock)] + after);
            && mid.log <= end.log && Quiet(end.log, w)
            && |end.log| - |mid.log| >= 38
            && (mid.log != [] || EndsInRecord(Base(c, s.store)) ==> |end.log| - |mid.log| >= 39)
  {
    var mid := Run(c, s, before);
    var events := [Step(w, clock)] + after;
    var read := Next(c, mid, events[0]);
    assert events[1..] == after;
    ReachableInv(c, s, before);
    RunKeepsInv(c, s.store, mid, events);
    LogOnlyGrows(c, mid, events);
    FirstReadStays(c, read, after, w);
    var end := Run(c, mid, events);
    assert CallerInv(c, s.store, end.log, w, end.callers[w]);
  }

  lemma {:induction false} UnreadableStays(c: Codec, init: Store, s: Sys, events: seq<Event>)
    requires RoundTrips(c) && Inv(c, init, s) && HistoryForWrite(c, s.store.history).None?
    ensures Run(c, s, events).store.history == s.store.history && Run(c, s, events).log == s.log
    decreases |events|
  {
    if events != [] {
      StepKeepsInv(c, init, s, events[0]);
      if events[0].w < |s.callers| {
        assert CallerInv(c, init, s.log, events[0].w, s.callers[events[0].w]);
      }
      UnreadableStays(c, init, Next(c, s, events[0]), events[1..]);
    }
  }

  /** A stored history that is over the loader's limit or is no list is never overwritten: from any point of any run
      at which it is there, whatever the calls do, it stays byte for byte and nothing more is committed. */
  lemma UnreadableIsKept(c: Codec, s: Sys, before: seq<Event>, after: seq<Event>)
    requires RoundTrips(c) && Initial(s) && Unreadable(c, Run(c, s, before).store.history)
    ensures var mid := Run(c, s, before);
            && Run(c, mid, after).store.history == mid.store.history
            && Run(c, mid, after).log == mid.log
  {
    var mid := Run(c, s, before);
    ReachableInv(c, s, before);
    StoredHistoryMeans(c, mid.store, []);
    UnreadableStays(c, s.store, mid, after);
  }

  // ------------------------------------------------------------------ what is in the audit trail

  /** The record is what its caller asked for, the caller may ask for it, and it took at most twenty attempts. */
  predicate Asked(r: Record, callers: seq<Caller>) {
    && r.caller < |callers| && MayAsk(callers[r.caller].request) && 1 <= r.attempt <= 20
    && var q := callers[r.caller].request;
       (r.from, r.to, r.reason, r.details) == (q.from, q.to, q.reason, q.details)
  }

  predicate SameRequests(a: seq<Caller>, b: seq<Caller>) {
    |a| == |b| && forall w :: 0 <= w < |a| ==> a[w].request == b[w].request
  }

  lemma NextKeepsRequests(c: Codec, s: Sys, e: Event)
    ensures SameRequests(s.callers, Next(c, s, e).callers)
  {
  }

  lemma NextCommits(c: Codec, s: Sys, e: Event)
    ensures var log := Next(c, s, e).log;
            log == s.log
            || (&& e.Step? && e.w < |s.callers| && s.callers[e.w].pc.Checked?
                && log == s.log + [NewRecord(s.callers[e.w].request, e.w, s.callers[e.w].pc.n, e.clock)])
  {
  }

  lemma NextAsks(c: Codec, init: Store, s: Sys, e: Event)
    requires RoundTrips(c) && Inv(c, init, s) && forall i :: 0 <= i < |s.log| ==> Asked(s.log[i], s.callers)
    ensures var t := Next(c, s, e);
            SameRequests(s.callers, t.callers) && forall i :: 0 <= i < |t.log| ==> Asked(t.log[i], t.callers)
  {
    var t := Next(c, s, e);
    NextKeepsRequests(c, s, e);
    NextCommits(c, s, e);
    if t.log != s.log {
      assert CallerInv(c, init, s.log, e.w, s.callers[e.w]);
      ValidExactlyWhen(s.callers[e.w].request);
    }
    forall i | 0 <= i < |t.log|
      ensures Asked(t.log[i], t.callers)
    {
      assert i < |s.log| ==> Asked(s.log[i], s.callers);
    }
  }

  lemma {:induction false} RunAsks(c: Codec, init: Store, s: Sys, events: seq<Event>)
    requires RoundTrips(c) && Inv(c, init, s) && forall i :: 0 <= i < |s.log| ==> Asked(s.log[i], s.callers)
    ensures var t := Run(c, s, events);
            SameRequests(s.callers, t.callers) && forall i :: 0 <= i < |t.log| ==> Asked(t.log[i], t.callers)
    decreases |events|
  {
    if events != [] {
      NextAsks(c, init, s, events[0]);
      StepKeepsInv(c, init, s, events[0]);
      RunAsks(c, init, Next(c, s, events[0]), events[1..]);
    }
  }

  /** In every run each committed record is its caller's own request, which is a step up, or an authorised step down
      with its reason; no call tries more than twenty times. */
  lemma EveryRecordWasAskedFor(c: Codec, s: Sys, events: seq<Event>, i: nat)
    requires RoundTrips(c) && Initial(s) && i < |Run(c, s, events).log|
    ensures Asked(Run(c, s, events).log[i], s.callers)
  {
    InitialInv(c, s);
    RunAsks(c, s.store, s, events);
  }

  /** No call is ever in an attempt beyond the twentieth. */
  lemma NoTwentyFirstAttempt(c: Codec, s: Sys, events: seq<Event>, w: nat)
    requires RoundTrips(c) && Initial(s) && w < |Run(c, s, events).callers|
    ensures var pc := Run(c, s, events).callers[w].pc; pc.Start? || pc.Read? || pc.Checked? ==> 1 <= pc.n <= 20
  {
    ReachableInv(c, s, events);
    assert CallerInv(c, s.store, Run(c, s, events).log, w, Run(c, s, events).callers[w]);
  }

  /** A lost compare-and-set changes nothing but the caller's place: it reads again, or after the twentieth attempt
      gives up with that error. */
  lemma LostAttemptGoesOnOrGivesUp(c: Codec, s: Sys, w: nat, clock: int)
    requires w < |s.callers| && s.callers[w].pc.Checked? && s.store.history != s.callers[w].pc.raw
    ensures var n := s.callers[w].pc.n;
            Next(c, s, Step(w, clock)) == AtPc(s, w, if n == 20 then Failed(TooContended) else Start(n + 1))
  {
  }

  // ------------------------------------------------------------------ one call alone

  /** The error of a call that finds these entries and this last record. */
  function Refusal(r: Request, readable: bool, last: Option<Record>): Option<MigrationError> {
    if Validate(r).Some? then Validate(r)
    else if !readable then Some(HistoryUnreadable)
    else if last.Some? && last.value.to != r.from then Some(StaleState)
    else None
  }

  /** A call that nobody disturbs, in terms of the stored bytes: it appends its record to the entries found there
      and copies it to `_current`, exactly when the request may be asked for, the history reads, and the last
      record, if there is one, ends in `from_state`; otherwise it raises the error of the first of these that fails
      and the store stays as it was. */
  lemma UndisturbedTransition(c: Codec, s: Sys, w: nat, clock: int, entries: seq<Entry>, last: Option<Record>)
    requires w < |s.callers| && s.callers[w].pc == Idle
    requires HoldsEntries(c, s.store.history, entries) || Unreadable(c, s.store.history)
    requires HoldsEntries(c, s.store.history, entries) ==> LastRecord(c, entries, s.store.current, last)
    ensures var r := s.callers[w].request;
            var e := Step(w, clock);
            var t := Run(c, s, [e, e, e, e, e]);
            var record := Record(w, 1, r.from, r.to, r.reason, r.details, clock);
            var refusal := Refusal(r, !Unreadable(c, s.store.history), last);
            && w < |t.callers|
            && (MayAsk(r) && HoldsEntries(c, s.store.history, entries) && (last.None? || last.value.to == r.from)
                <==> refusal.None?)
            && t.callers[w].pc == (if refusal.Some? then Failed(refusal.value) else Returned(record))
            && t.store == if refusal.Some? then s.store
                          else Store(Some(c.dumps(entries + [Good(record)])), Some(c.dumpRecord(record)))
  {
    var r, e := s.callers[w].request, Step(w, clock);
    ValidExactlyWhen(r);
    StoredHistoryMeans(c, s.store, entries);
    FiveSteps(c, s, e);
    if HoldsEntries(c, s.store.history, entries) {
      ReadersGetTheLastRecord(c, s.store, entries, last);
    }
  }

  lemma FiveSteps(c: Codec, s: Sys, e: Event)
    ensures Run(c, s, [e, e, e, e, e]) == Next(c, Next(c, Next(c, Next(c, Next(c, s, e), e), e), e), e)
  {
    assert [e, e, e, e, e][1..] == [e, e, e, e] && [e, e, e, e][1..] == [e, e, e] && [e, e, e][1..] == [e, e];
    assert [e, e][1..] == [e] && [e][1..] == [];
    var s1 := Next(c, s, e);
    var s2 := Next(c, s1, e);
    var s3 := Next(c, s2, e);
    var s4 := Next(c, s3, e);
    assert Run(c, s4, [e]) == Next(c, s4, e);
    assert Run(c, s3, [e, e]) == Run(c, s4, [e]);
    assert Run(c, s2, [e, e, e]) == Run(c, s3, [e, e]);
    assert Run(c, s1, [e, e, e, e]) == Run(c, s2, [e, e, e]);
  }

  /** Before any commit `_current` is untouched; after one it is the entry that predates the history
      or a committed record, and readers get the last committed record whenever the history reads. */
  lemma CurrentFollowsHistory(c: Codec, s: Sys, events: seq<Event>)
    requires RoundTrips(c) && Initial(s)
    ensures var t := Run(c, s, events);
            && (t.log == [] ==> t.store.current == s.store.current)
            && (t.store.current == s.store.current
                || exists i :: 0 <= i < |t.log| && t.store.current == Some(c.dumpRecord(t.log[i])))
            && (t.log != [] && HistoryForWrite(c, t.store.history).Some? ==>
                  CurrentRecord(c, t.store) == Some(t.log[|t.log| - 1]))
  {
    ReachableInv(c, s, events);
    var t := Run(c, s, events);
    ParsesToItsEntries(c, s.store, t.log);
    if t.log != [] && HistoryForWrite(c, t.store.history).Some? {
      var entries := AllEntries(c, s.store, t.log);
      assert entries[|entries| - 1] == Good(t.log[|t.log| - 1]);
    }
  }
}
