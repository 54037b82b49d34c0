/**
 The migration state machine of one key: states, the transition tables, records, and how a history
 and the `_current` entry are decoded. The serializer is a parameter; `loads` refuses more than 10 MB.
 */
module MigrationState {
  import opened Common

  datatype MState = ClassicalOnly | HybridTransition | PqcPreferred | PqcOnly

  function ForwardTargets(s: MState): set<MState> {
    match s
    case ClassicalOnly => {HybridTransition}
    case HybridTransition => {PqcPreferred}
    case PqcPreferred => {PqcOnly}
    case PqcOnly => {}
  }

  function BackwardTargets(s: MState): set<MState> {
    match s
    case HybridTransition => {ClassicalOnly}
    case PqcPreferred => {HybridTransition}
    case _ => {}
  }

  predicate Allowed(from: MState, to: MState) {
    to in ForwardTargets(from) || to in BackwardTargets(from)
  }

  function Rank(s: MState): nat {
    match s
    case ClassicalOnly => 0
    case HybridTransition => 1
    case PqcPreferred => 2
    case PqcOnly => 3
  }

  /** The state graph is a path whose last state is terminal. */
  lemma StateGraphIsAPath(from: MState, to: MState)
    ensures Allowed(from, to) <==> from != PqcOnly && (Rank(to) == Rank(from) + 1 || Rank(from) == Rank(to) + 1)
  {
  }

  /** What a caller asks for; `details` stands for algorithm, actor and metadata. */
  datatype Request = Request(from: MState, to: MState, allowBackward: bool, reason: string, details: string)

  /** A record. The fresh UUID is modelled by the pair of the call that made it and its attempt. */
  datatype Record = Record(caller: nat, attempt: nat, from: MState, to: MState, reason: string, details: string,
                           timestamp: int)

  datatype MigrationError =
    | InvalidTransition
    | BackwardNotAllowed
    | ReasonMissing
    | HistoryUnreadable
    | StaleState
    | TooContended

  /** The checks of `transition` that need no store. */
  function Validate(r: Request): Option<MigrationError> {
    if !Allowed(r.from, r.to) then Some(InvalidTransition)
    else if r.to in BackwardTargets(r.from) then
      if !r.allowBackward then Some(BackwardNotAllowed)
      else if r.reason == "" then Some(ReasonMissing)
      else None
    else None
  }

  /** Exactly what a caller may ask for: one step up, or one step down that is authorised and has a reason; nothing
      leaves PQC_ONLY. */
  predicate MayAsk(r: Request) {
    && r.from != PqcOnly
    && (|| Rank(r.to) == Rank(r.from) + 1
        || (Rank(r.from) == Rank(r.to) + 1 && r.allowBackward && r.reason != ""))
  }

  lemma ValidExactlyWhen(r: Request)
    ensures Validate(r).None? <==> MayAsk(r)
    ensures Validate(r) == Some(BackwardNotAllowed)
            <==> r.from != PqcOnly && Rank(r.from) == Rank(r.to) + 1 && !r.allowBackward
    ensures Validate(r) == Some(ReasonMissing)
            <==> r.from != PqcOnly && Rank(r.from) == Rank(r.to) + 1 && r.allowBackward && r.reason == ""
  {
    StateGraphIsAPath(r.from, r.to);
  }

  function NewRecord(r: Request, caller: nat, attempt: nat, clock: int): Record {
    Record(caller, attempt, r.from, r.to, r.reason, r.details, clock)
  }

  /** An entry of a decoded history: a dict that parses as a record, or one that does not. */
  datatype Entry = Good(record: Record) | Malformed(tag: nat)

  datatype Decoded = Undecodable | NotAList | Entries(entries: seq<Entry>)

  datatype Codec = Codec(
    dumps: seq<Entry> -> Bytes,
    decode: Bytes -> Decoded,
    dumpRecord: Record -> Bytes,
    decodeRecord: Bytes -> Option<Record>)

  const MAX_PAYLOAD_BYTES := 10 * 1024 * 1024

  function Loads(c: Codec, raw: Bytes): Decoded {
    if |raw| > MAX_PAYLOAD_BYTES then Undecodable else c.decode(raw)
  }

  function LoadsRecord(c: Codec, raw: Bytes): Option<Record> {
    if |raw| > MAX_PAYLOAD_BYTES then None else c.decodeRecord(raw)
  }

  /** Decoding undoes encoding. */
  ghost predicate RoundTrips(c: Codec) {
    && (forall es: seq<Entry> :: c.decode(c.dumps(es)) == Entries(es))
    && (forall r: Record :: c.decodeRecord(c.dumpRecord(r)) == Some(r))
  }

  /** The two entries of one key. */
  datatype Store = Store(history: Option<Bytes>, current: Option<Bytes>)

  /** `_history_for_write`: an absent history is empty, an unreadable one is refused. */
  function HistoryForWrite(c: Codec, raw: Option<Bytes>): Option<seq<Entry>> {
    match raw
    case None => Some([])
    case Some(b) => (match Loads(c, b) case Entries(es) => Some(es) case _ => None)
  }

  /** `_parse_history`: an unreadable history reads as empty. */
  function ParseHistory(c: Codec, raw: Option<Bytes>): seq<Entry> {
    match HistoryForWrite(c, raw)
    case Some(es) => es
    case None => []
  }

  predicate EndsInRecord(entries: seq<Entry>) {
    entries != [] && entries[|entries| - 1].Good?
  }

  function LegacyCurrent(c: Codec, current: Option<Bytes>): Option<Record> {
    match current
    case None => None
    case Some(b) => LoadsRecord(c, b)
  }

  function StateOf(r: Option<Record>): Option<MState> {
    match r
    case None => None
    case Some(rec) => Some(rec.to)
  }

  /** `_state_from`: the last history record, else the `_current` entry. */
  function StateFrom(c: Codec, entries: seq<Entry>, current: Option<Bytes>): Option<MState> {
    if EndsInRecord(entries) then Some(entries[|entries| - 1].record.to)
    else StateOf(LegacyCurrent(c, current))
  }

  /** `get_current_record` with a compare-and-set store. */
  function CurrentRecord(c: Codec, store: Store): Option<Record> {
    var entries := ParseHistory(c, store.history);
    if EndsInRecord(entries) then Some(entries[|entries| - 1].record) else LegacyCurrent(c, store.current)
  }

  // ------------------------------------------------------------------ what stored bytes mean

  /** The stored history is this list of entries: absent, or bytes within the loader's limit that decode to it. */
  predicate HoldsEntries(c: Codec, raw: Option<Bytes>, entries: seq<Entry>) {
    match raw
    case None => entries == []
    case Some(b) => |b| <= MAX_PAYLOAD_BYTES && c.decode(b) == Entries(entries)
  }

  /** The stored history is there and is no list the loader can read. */
  predicate Unreadable(c: Codec, raw: Option<Bytes>) {
    raw.Some? && (|raw.value| > MAX_PAYLOAD_BYTES || !c.decode(raw.value).Entries?)
  }

  /** The `_current` entry is a record the loader can read. */
  predicate ShowsRecord(c: Codec, current: Option<Bytes>, r: Record) {
    current.Some? && |current.value| <= MAX_PAYLOAD_BYTES && c.decodeRecord(current.value) == Some(r)
  }

  /** The record a reader is to get: the last of the history if that parses, else the one in `_current`. */
  ghost predicate LastRecord(c: Codec, entries: seq<Entry>, current: Option<Bytes>, last: Option<Record>) {
    if entries != [] && entries[|entries| - 1].Good? then last == Some(entries[|entries| - 1].record)
    else match last
      case Some(r) => ShowsRecord(c, current, r)
      case None => forall r :: !ShowsRecord(c, current, r)
  }

  /** Reading and writing agree with the stored bytes: a history is refused exactly when it is there and
      unreadable, readers then fall back on `_current`, and the state known to a call is the last record's. */
  lemma StoredHistoryMeans(c: Codec, store: Store, entries: seq<Entry>)
    ensures HistoryForWrite(c, store.history).None? <==> Unreadable(c, store.history)
    ensures HistoryForWrite(c, store.history) == Some(entries) <==> HoldsEntries(c, store.history, entries)
    ensures ParseHistory(c, store.history) == entries
            <==> HoldsEntries(c, store.history, entries) || (Unreadable(c, store.history) && entries == [])
  {
  }

  lemma ReadersGetTheLastRecord(c: Codec, store: Store, entries: seq<Entry>, last: Option<Record>)
    requires HoldsEntries(c, store.history, entries) || (Unreadable(c, store.history) && entries == [])
    ensures CurrentRecord(c, store) == last <==> LastRecord(c, entries, store.current, last)
    ensures LastRecord(c, entries, store.current, last) ==>
              StateFrom(c, entries, store.current) == if last.Some? then Some(last.value.to) else None
  {
    StoredHistoryMeans(c, store, entries);
    match LegacyCurrent(c, store.current)
    case Some(r) => assert ShowsRecord(c, store.current, r);
    case None =>
  }

  function AsEntries(records: seq<Record>): (r: seq<Entry>)
    ensures |r| == |records|
  {
    seq(|records|, i requires 0 <= i < |records| => Good(records[i]))
  }

  // ------------------------------------------------------------------ chains

  /** A state that a transition may start from: the known one, or any when none is known. */
  predicate Agrees(known: Option<MState>, from: MState) {
    known.None? || known.value == from
  }

  /** The state after the first `k` records of `log`, which started from `start`. */
  function StateAt(start: Option<MState>, log: seq<Record>, k: nat): Option<MState>
    requires k <= |log|
  {
    if k == 0 then start else Some(log[k - 1].to)
  }

  /** Record `i` is a table transition and starts where the one before it ended. */
  predicate Linked(start: Option<MState>, log: seq<Record>, i: nat)
    requires i < |log|
  {
    Allowed(log[i].from, log[i].to) && Agrees(StateAt(start, log, i), log[i].from)
  }

  ghost predicate Chain(start: Option<MState>, log: seq<Record>) {
    forall i :: 0 <= i < |log| ==> Linked(start, log, i)
  }

  lemma ChainAppend(start: Option<MState>, log: seq<Record>, r: Record)
    requires Chain(start, log) && Allowed(r.from, r.to) && Agrees(StateAt(start, log, |log|), r.from)
    ensures Chain(start, log + [r])
  {
    forall i | 0 <= i < |log + [r]|
      ensures Linked(start, log + [r], i)
    {
      assert StateAt(start, log + [r], i) == StateAt(start, log, i);
      assert i < |log| ==> Linked(start, log, i);
    }
  }

  /** After a record that reaches PQC_ONLY nothing is ever appended. */
  lemma PqcOnlyEndsAChain(start: Option<MState>, log: seq<Record>, i: nat)
    requires Chain(start, log) && i < |log| && log[i].to == PqcOnly
    ensures i == |log| - 1
  {
    assert i + 1 < |log| ==> Linked(start, log, i + 1);
  }

  lemma RankMovesByOne(start: Option<MState>, log: seq<Record>, i: nat)
    requires i < |log| && Linked(start, log, i) && StateAt(start, log, i).Some?
    ensures var a, b := Rank(StateAt(start, log, i).value), Rank(StateAt(start, log, i + 1).value);
            a == b + 1 || b == a + 1
  {
    StateGraphIsAPath(log[i].from, log[i].to);
  }

  /** Returning to the same state takes an even number of transitions: `steps` records that lead
      from a rank to a rank have the parity of their difference. */
  lemma {:induction false} ReturnIsEven(start: Option<MState>, log: seq<Record>, i: nat, j: nat) returns (half: int)
    requires Chain(start, log) && i <= j <= |log| && StateAt(start, log, i).Some?
    ensures StateAt(start, log, j).Some?
    ensures Rank(StateAt(start, log, j).value) - Rank(StateAt(start, log, i).value) - (j - i) == 2 * half
    decreases j
  {
    half := 0;
    if i < j {
      half := ReturnIsEven(start, log, i, j - 1);
      assert Linked(start, log, j - 1);
      RankMovesByOne(start, log, j - 1);
      if Rank(StateAt(start, log, j).value) < Rank(StateAt(start, log, j - 1).value) {
        half := half - 1;
      }
    }
  }
}
