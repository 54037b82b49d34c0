/**
 LMS signing with write-ahead index reservation: the state store, one signer, and the protocol of any
 number of signers of one key with crashes and restores from any snapshot.
 */
module Lms {
  import opened Common

  datatype LmsError = KeyExhausted | IndexReuse | StatePersistence

  // ------------------------------------------------------------------ the objects

  function MarkOf(marks: map<string, nat>, keyId: string): nat {
    if keyId in marks then marks[keyId] else 0
  }

  class LmsStateStore {
    var marks: map<string, nat>

    constructor ()
      ensures marks == map[]
    {
      marks := map[];
    }

    /** Record a mark; one that is not above the current mark is refused. */
    method Reserve(keyId: string, nextIndex: nat) returns (ok: bool)
      modifies this
      ensures ok <==> nextIndex > if keyId in old(marks) then old(marks)[keyId] else 0
      ensures marks == if ok then old(marks)[keyId := nextIndex] else old(marks)
    {
      var current := MarkOf(marks, keyId);
      if nextIndex <= current {
        return false;
      }
      marks := marks[keyId := nextIndex];
      ok := true;
    }
  }

  class LmsSigner {
    const keyId: string
    const maxSignatures: nat
    const store: LmsStateStore
    var q: nat

    /** `load`: a key whose index is below the mark is refused. */
    static method Load(keyId: string, q: nat, maxSignatures: nat, store: LmsStateStore)
      returns (r: Result<LmsSigner, LmsError>)
      ensures r == Err(IndexReuse) <==> keyId in store.marks && q < store.marks[keyId]
      ensures r.Err? ==> r.error == IndexReuse
      ensures r.Ok? ==> fresh(r.value) && r.value.q == q && r.value.keyId == keyId && r.value.store == store
                        && r.value.maxSignatures == maxSignatures
    {
      if q < MarkOf(store.marks, keyId) {
        return Err(IndexReuse);
      }
      var signer := new LmsSigner(keyId, q, maxSignatures, store);
      r := Ok(signer);
    }

    constructor (keyId: string, q: nat, maxSignatures: nat, store: LmsStateStore)
      ensures this.keyId == keyId && this.q == q && this.maxSignatures == maxSignatures && this.store == store
    {
      this.keyId := keyId;
      this.maxSignatures := maxSignatures;
      this.store := store;
      this.q := q;
    }

    method Serialize() returns (saved: nat)
      ensures saved == q
    {
      saved := q;
    }

    /** Sign with index `q`, returned; the mark moves above it before the signature is made, and a
        refused call changes nothing. */
    method Sign() returns (r: Result<nat, LmsError>)
      modifies this, store
      ensures r == if old(q) >= maxSignatures then Err(KeyExhausted)
                   else if keyId in old(store.marks) && old(q) < old(store.marks)[keyId] then Err(IndexReuse)
                   else Ok(old(q))
      ensures r.Ok? ==> q == old(q) + 1 && store.marks == old(store.marks)[keyId := old(q) + 1]
      ensures r.Err? ==> q == old(q) && store.marks == old(store.marks)
    {
      if q >= maxSignatures {
        return Err(KeyExhausted);
      }
      if q < MarkOf(store.marks, keyId) {
        return Err(IndexReuse);
      }
      var ok := store.Reserve(keyId, q + 1);
      if !ok {
        return Err(StatePersistence);
      }
      r := Ok(q);
      q := q + 1;
    }
  }

  /** Saving a signer and loading the saved copy, as after a restart with the store kept. */
  method SaveAndLoad(signer: LmsSigner) returns (r: Result<LmsSigner, LmsError>)
    ensures r.Err? <==> signer.keyId in signer.store.marks && signer.q < signer.store.marks[signer.keyId]
    ensures r.Ok? ==> fresh(r.value) && r.value.q == signer.q && r.value.keyId == signer.keyId
                      && r.value.store == signer.store && r.value.maxSignatures == signer.maxSignatures
    ensures r.Err? ==> r.error == IndexReuse
  {
    var saved := signer.Serialize();
    r := LmsSigner.Load(signer.keyId, saved, signer.maxSignatures, signer.store);
  }

  // ------------------------------------------------------------------ the protocol

  /** Where a signer is: idle, past the checks of `sign`, past the reservation, or dead. */
  datatype Phase = Idle | Checked | Reserved | Dead

  datatype Signer = Signer(q: nat, phase: Phase)

  /** One key: the durable mark, everyone who holds the key, all serialised copies, the one-time
      indices used in signatures so far, and the number of indices reserved but never used. */
  datatype Key = Key(mark: nat, max: nat, signers: seq<Signer>, snapshots: seq<nat>, used: seq<nat>, lost: nat)

  datatype Event =
    | Load(snapshot: nat)
    | Save(w: nat)
    | Begin(w: nat)
    | Reserve(w: nat)
    | ReserveFails(w: nat, recorded: bool)
    | Finish(w: nat)
    | SignFails(w: nat)
    | Crash(w: nat)

  /** A freshly generated key and the signer that holds it. */
  function Generated(max: nat): Key {
    Key(0, max, [Signer(0, Idle)], [], [], 0)
  }

  function Put(k: Key, w: nat, s: Signer): Key
    requires w < |k.signers|
  {
    k.(signers := k.signers[w := s])
  }

  function Next(k: Key, e: Event): Key {
    if e.Load? then
      if e.snapshot < |k.snapshots| && k.snapshots[e.snapshot] >= k.mark
      then k.(signers := k.signers + [Signer(k.snapshots[e.snapshot], Idle)])
      else k
    else if e.w >= |k.signers| || k.signers[e.w].phase == Dead then k
    else
      var s := k.signers[e.w];
      match e
      case Save(w) => k.(snapshots := k.snapshots + [s.q])
      case Begin(w) => if s.phase == Idle && s.q < k.max && s.q >= k.mark then Put(k, w, s.(phase := Checked)) else k
      case Reserve(w) =>
        if s.phase != Checked then k
        else if s.q + 1 <= k.mark then Put(k, w, s.(phase := Idle))
        else Put(k, w, s.(phase := Reserved)).(mark := s.q + 1)
      case ReserveFails(w, recorded) =>
        if s.phase != Checked then k
        else if recorded && s.q + 1 > k.mark then Put(k, w, s.(phase := Idle)).(mark := s.q + 1, lost := k.lost + 1)
        else Put(k, w, s.(phase := Idle))
      case Finish(w) =>
        if s.phase != Reserved then k else Put(k, w, Signer(s.q + 1, Idle)).(used := k.used + [s.q])
      case SignFails(w) =>
        if s.phase != Reserved then k else Put(k, w, s.(phase := Idle)).(lost := k.lost + 1)
      case Crash(w) =>
        Put(k, w, s.(phase := Dead)).(lost := if s.phase == Reserved then k.lost + 1 else k.lost)
  }

  function Run(k: Key, events: seq<Event>): Key
    decreases |events|
  {
    if events == [] then k else Run(Next(k, events[0]), events[1..])
  }

  /** Nobody can reach the mark: every live signer and every copy is below it. */
  ghost predicate AllBelow(k: Key, except: int) {
    && (forall w :: 0 <= w < |k.signers| && w != except && k.signers[w].phase != Dead ==> k.signers[w].q < k.mark)
    && (forall i :: 0 <= i < |k.snapshots| ==> k.snapshots[i] < k.mark)
  }

  ghost predicate NobodyReserved(k: Key, except: int) {
    forall w :: 0 <= w < |k.signers| && w != except ==> k.signers[w].phase != Reserved
  }

  /** The used indices are 0, 1, 2, ... in order, and the mark is one of three: the number of used
      indices; one more with the next index reserved by one signer; or one more with it lost. */
  ghost predicate Inv(k: Key) {
    && k.mark <= k.max
    && (forall i :: 0 <= i < |k.used| ==> k.used[i] == i)
    && (forall w :: 0 <= w < |k.signers| && k.signers[w].phase != Dead ==> k.signers[w].q <= k.mark)
    && (forall i :: 0 <= i < |k.snapshots| ==> k.snapshots[i] <= k.mark)
    && (forall w :: 0 <= w < |k.signers| && k.signers[w].phase == Checked ==> k.signers[w].q < k.max)
    && (|| (k.lost == 0 && k.mark == |k.used| && NobodyReserved(k, -1))
        || (k.lost == 0 && k.mark == |k.used| + 1 && exists w :: InFlight(k, w))
        || (k.lost == 1 && k.mark == |k.used| + 1 && NobodyReserved(k, -1) && AllBelow(k, -1)))
  }

  /** Signer `w` alone holds the reservation of the next index, and everyone else is behind. */
  ghost predicate InFlight(k: Key, w: int) {
    && 0 <= w < |k.signers| && k.signers[w].phase == Reserved && k.signers[w].q + 1 == k.mark
    && NobodyReserved(k, w) && AllBelow(k, w)
  }

  lemma CleanStep(k: Key, e: Event)
    requires Inv(k) && k.lost == 0 && k.mark == |k.used|
    ensures Inv(Next(k, e))
  {
    var t := Next(k, e);
    if e.Reserve? && t.mark != k.mark {
      assert InFlight(t, e.w);
    }
  }

  lemma InFlightStep(k: Key, e: Event, w: nat)
    requires Inv(k) && k.lost == 0 && k.mark == |k.used| + 1 && InFlight(k, w)
    ensures Inv(Next(k, e))
  {
    var t := Next(k, e);
    if t.lost == 0 && t.mark == |t.used| + 1 {
      assert InFlight(t, w);
    }
  }

  lemma LostStep(k: Key, e: Event)
    requires Inv(k) && k.lost == 1
    ensures Inv(Next(k, e)) && Next(k, e).lost == 1 && Next(k, e).used == k.used && Next(k, e).mark == k.mark
  {
  }

  lemma {:induction false} RunKeepsInv(k: Key, events: seq<Event>)
    requires Inv(k)
    ensures Inv(Run(k, events))
    decreases |events|
  {
    if events != [] {
      if k.lost == 1 {
        LostStep(k, events[0]);
      } else if k.mark == |k.used| {
        CleanStep(k, events[0]);
      } else {
        var w :| InFlight(k, w);
        InFlightStep(k, events[0], w);
      }
      RunKeepsInv(Next(k, events[0]), events[1..]);
    }
  }

  lemma GeneratedInv(max: nat)
    ensures Inv(Generated(max))
  {
  }

  /** Safety: whatever is loaded, saved, signed, restored or crashed, no index is used twice. */
  lemma NoIndexIsReused(max: nat, events: seq<Event>, i: nat, j: nat)
    requires i < j < |Run(Generated(max), events).used|
    ensures Run(Generated(max), events).used[i] != Run(Generated(max), events).used[j]
  {
    GeneratedInv(max);
    RunKeepsInv(Generated(max), events);
  }

  function InFlightCount(k: Key): nat {
    |set w | 0 <= w < |k.signers| && k.signers[w].phase == Reserved|
  }

  lemma CountReserved(k: Key)
    requires Inv(k)
    ensures InFlightCount(k) == k.mark - |k.used| - k.lost
  {
    var s := set w | 0 <= w < |k.signers| && k.signers[w].phase == Reserved;
    if k.lost == 0 && k.mark == |k.used| + 1 {
      var w :| InFlight(k, w);
      assert s == {w};
    } else {
      assert s == {};
    }
  }

  /** Accounting: the indices used, lost and in flight are exactly those below the mark, which never
      passes the capacity; at most one index is ever lost. */
  lemma EveryIndexIsAccountedFor(max: nat, events: seq<Event>)
    ensures var k := Run(Generated(max), events);
            && |k.used| + k.lost + InFlightCount(k) == k.mark <= max
            && k.lost <= 1
            && forall i :: 0 <= i < |k.used| ==> k.used[i] == i
  {
    GeneratedInv(max);
    RunKeepsInv(Generated(max), events);
    RunKeepsMax(Generated(max), events);
    CountReserved(Run(Generated(max), events));
  }

  lemma {:induction false} RunKeepsMax(k: Key, events: seq<Event>)
    ensures Run(k, events).max == k.max
    decreases |events|
  {
    if events != [] {
      RunKeepsMax(Next(k, events[0]), events[1..]);
    }
  }

  /** After an index is lost between its reservation and its signature, every copy of the key taken so
      far is refused and no signature is ever made again: the crash costs the key, not one index. */
  lemma {:induction false} LostIndexEndsTheKey(k: Key, events: seq<Event>)
    requires Inv(k) && k.lost > 0
    ensures Run(k, events).used == k.used && Run(k, events).mark == k.mark
    ensures forall i :: 0 <= i < |Run(k, events).snapshots| ==> Run(k, events).snapshots[i] < k.mark
    decreases |events|
  {
    if events != [] {
      LostStep(k, events[0]);
      LostIndexEndsTheKey(Next(k, events[0]), events[1..]);
    }
  }

  /** The same, for a crash anywhere in a run from a fresh key. */
  lemma CrashAfterReserveEndsTheKey(max: nat, before: seq<Event>, w: nat, after: seq<Event>)
    requires var k := Run(Generated(max), before); w < |k.signers| && k.signers[w].phase == Reserved
    ensures var k := Run(Generated(max), before);
            var dead := Next(k, Crash(w));
            && Run(dead, after).used == k.used
            && forall i :: 0 <= i < |Run(dead, after).snapshots| ==> Next(Run(dead, after), Load(i)) == Run(dead, after)
  {
    GeneratedInv(max);
    RunKeepsInv(Generated(max), before);
    var k := Run(Generated(max), before);
    var v :| InFlight(k, v);
    InFlightStep(k, Crash(w), v);
    var dead := Next(k, Crash(w));
    LostIndexEndsTheKey(dead, after);
  }

  // ------------------------------------------------------------------ when a key can still sign

  predicate Live(k: Key, w: int) {
    0 <= w < |k.signers| && k.signers[w].phase != Dead
  }

  /** Someone holds a reservation, or there is capacity left and a live signer or a copy at the mark. */
  ghost predicate CanSign(k: Key) {
    || (exists w :: Live(k, w) && k.signers[w].phase == Reserved)
    || (k.mark < k.max && exists w :: Live(k, w) && k.signers[w].q == k.mark)
    || (k.mark < k.max && exists i :: 0 <= i < |k.snapshots| && k.snapshots[i] == k.mark)
  }

  lemma StuckStep(k: Key, e: Event)
    requires Inv(k) && !CanSign(k)
    ensures !CanSign(Next(k, e)) && Next(k, e).used == k.used
  {
    var t := Next(k, e);
    forall w | Live(t, w)
      ensures t.signers[w].phase != Reserved && (t.mark < t.max ==> t.signers[w].q != t.mark)
    {
      assert w < |k.signers| && k.signers[w].phase != Dead ==> Live(k, w);
    }
    forall i | 0 <= i < |t.snapshots|
      ensures t.mark < t.max ==> t.snapshots[i] != t.mark
    {
      assert e.Save? && e.w < |k.signers| && k.signers[e.w].phase != Dead ==> Live(k, e.w);
    }
  }

  lemma {:induction false} StuckForGood(k: Key, events: seq<Event>)
    requires Inv(k) && !CanSign(k)
    ensures Run(k, events).used == k.used
    decreases |events|
  {
    if events != [] {
      StuckStep(k, events[0]);
      RunKeepsInv(k, [events[0]]);
      assert Run(k, [events[0]]) == Run(Next(k, events[0]), [events[0]][1..]);
      StuckForGood(Next(k, events[0]), events[1..]);
    }
  }

  lemma RunOne(k: Key, e: Event)
    ensures Run(k, [e]) == Next(k, e)
  {
    assert [e][1..] == [];
  }

  lemma RunCons(k: Key, e: Event, rest: seq<Event>)
    ensures Run(k, [e] + rest) == Run(Next(k, e), rest)
  {
    assert ([e] + rest)[1..] == rest;
  }

  lemma FinishSigns(k: Key, w: nat)
    requires Live(k, w) && k.signers[w].phase == Reserved
    ensures |Run(k, [Finish(w)]).used| > |k.used|
  {
    RunOne(k, Finish(w));
  }

  lemma CheckedSigns(k: Key, w: nat)
    requires Live(k, w) && k.signers[w].phase == Checked && k.signers[w].q == k.mark
    ensures |Run(k, [Reserve(w)] + [Finish(w)]).used| > |k.used|
  {
    RunCons(k, Reserve(w), [Finish(w)]);
    FinishSigns(Next(k, Reserve(w)), w);
  }

  lemma IdleSigns(k: Key, w: nat)
    requires Live(k, w) && k.signers[w].phase == Idle && k.signers[w].q == k.mark < k.max
    ensures |Run(k, [Begin(w)] + ([Reserve(w)] + [Finish(w)])).used| > |k.used|
  {
    RunCons(k, Begin(w), [Reserve(w)] + [Finish(w)]);
    CheckedSigns(Next(k, Begin(w)), w);
  }

  lemma CopySigns(k: Key, i: nat)
    requires i < |k.snapshots| && k.snapshots[i] == k.mark < k.max
    ensures var w := |k.signers|;
            |Run(k, [Load(i)] + ([Begin(w)] + ([Reserve(w)] + [Finish(w)]))).used| > |k.used|
  {
    var w := |k.signers|;
    RunCons(k, Load(i), [Begin(w)] + ([Reserve(w)] + [Finish(w)]));
    IdleSigns(Next(k, Load(i)), w);
  }

  ghost predicate SignsAgain(k: Key) {
    exists events :: |Run(k, events).used| > |k.used|
  }

  lemma CanSignSigns(k: Key)
    requires Inv(k) && CanSign(k)
    ensures SignsAgain(k)
  {
    if w :| Live(k, w) && k.signers[w].phase == Reserved {
      FinishSigns(k, w);
    } else if k.mark < k.max {
      if w :| Live(k, w) && k.signers[w].q == k.mark {
        if k.signers[w].phase == Idle {
          IdleSigns(k, w);
        } else {
          CheckedSigns(k, w);
        }
      } else {
        var i :| 0 <= i < |k.snapshots| && k.snapshots[i] == k.mark;
        CopySigns(k, i);
      }
    }
  }

  /** In every reachable state: another signature can be made, by any run at all, exactly when someone holds a
      reservation, or capacity is left and a live signer or a saved copy is at the mark. */
  lemma SignsAgainExactlyWhen(max: nat, before: seq<Event>)
    ensures var k := Run(Generated(max), before); SignsAgain(k) <==> CanSign(k)
  {
    var k := Run(Generated(max), before);
    GeneratedInv(max);
    RunKeepsInv(Generated(max), before);
    if CanSign(k) {
      CanSignSigns(k);
    } else {
      forall events
        ensures |Run(k, events).used| <= |k.used|
      {
        StuckForGood(k, events);
      }
    }
  }

  /** What is left without signer `w`. */
  ghost predicate CanSignWithout(k: Key, w: nat) {
    || (exists v :: v != w && Live(k, v) && k.signers[v].phase == Reserved)
    || (k.mark < k.max && exists v :: v != w && Live(k, v) && k.signers[v].q == k.mark)
    || (k.mark < k.max && exists i :: 0 <= i < |k.snapshots| && k.snapshots[i] == k.mark)
  }

  lemma CrashLeavesTheOthers(k: Key, w: nat)
    requires w < |k.signers| && k.signers[w].phase != Dead
    ensures CanSign(Next(k, Crash(w))) <==> CanSignWithout(k, w)
  {
    var t := Next(k, Crash(w));
    forall v
      ensures Live(t, v) <==> v != w && Live(k, v)
      ensures Live(t, v) ==> t.signers[v] == k.signers[v]
    {
    }
    assert t.mark == k.mark && t.max == k.max && t.snapshots == k.snapshots;
    if CanSign(t) {
      assert forall v :: Live(t, v) ==> v != w && Live(k, v);
    }
    if CanSignWithout(k, w) {
      assert forall v :: v != w && Live(k, v) ==> Live(t, v);
    }
  }

  /** The exact cost of a crash, in every reachable state and at every point of `sign`: the key goes on exactly
      when another live signer holds the reservation, or capacity is left and another live signer or a saved
      copy is at the mark. After a reservation that is never so. */
  lemma CrashCost(max: nat, before: seq<Event>, w: nat)
    requires var k := Run(Generated(max), before); w < |k.signers| && k.signers[w].phase != Dead
    ensures var k := Run(Generated(max), before);
            && (SignsAgain(Next(k, Crash(w))) <==> CanSignWithout(k, w))
            && (k.signers[w].phase == Reserved ==> !CanSignWithout(k, w))
  {
    var k := Run(Generated(max), before);
    RunSnoc(Generated(max), before, Crash(w));
    SignsAgainExactlyWhen(max, before + [Crash(w)]);
    CrashLeavesTheOthers(k, w);
    GeneratedInv(max);
    RunKeepsInv(Generated(max), before);
    if k.signers[w].phase == Reserved {
      var v :| InFlight(k, v);
      assert v == w;
    }
  }

  lemma {:induction false} RunSnoc(k: Key, events: seq<Event>, e: Event)
    ensures Run(k, events + [e]) == Next(Run(k, events), e)
    decreases |events|
  {
    if events == [] {
      RunOne(k, e);
    } else {
      assert (events + [e])[1..] == events[1..] + [e];
      RunSnoc(Next(k, events[0]), events[1..], e);
    }
  }

  /** One undisturbed call of `sign` is the protocol's three steps, with the result `LmsSigner.Sign`
      reports: refused with nothing changed, or index `q` used and the mark just above it. */
  lemma UndisturbedSign(k: Key, w: nat)
    requires w < |k.signers| && k.signers[w].phase == Idle
    ensures var q := k.signers[w].q;
            Run(k, [Begin(w), Reserve(w), Finish(w)]) ==
              if q >= k.max || q < k.mark then k
              else Put(k, w, Signer(q + 1, Idle)).(mark := q + 1, used := k.used + [q])
  {
    var events := [Begin(w), Reserve(w), Finish(w)];
    assert events[1..] == [Reserve(w), Finish(w)] && events[1..][1..] == [Finish(w)] && events[1..][1..][1..] == [];
    var s := k.signers[w];
    var k1 := Next(k, Begin(w));
    var k2 := Next(k1, Reserve(w));
    assert Run(k2, [Finish(w)]) == Next(k2, Finish(w)) by {
      assert [Finish(w)][1..] == [];
    }
    assert Run(k1, [Reserve(w), Finish(w)]) == Run(k2, [Finish(w)]);
    assert Run(k, events) == Run(k1, [Reserve(w), Finish(w)]);
    if s.q < k.max && s.q >= k.mark {
      assert Next(k2, Finish(w)).signers == k.signers[w := Signer(s.q + 1, Idle)];
    }
  }

  // ------------------------------------------------------------------ saved copies

  lemma RunThree(k: Key, a: Event, b: Event, c: Event)
    ensures Run(k, [a, b]) == Next(Next(k, a), b)
    ensures Run(k, [a, b, c]) == Next(Next(Next(k, a), b), c)
  {
    assert [a, b] == [a] + [b] && [a, b, c] == [a] + ([b] + [c]);
    RunCons(k, a, [b]);
    RunCons(k, a, [b] + [c]);
    RunCons(Next(k, a), b, [c]);
    RunOne(Next(k, a), b);
    RunOne(Next(Next(k, a), b), c);
  }

  /** Saving a signer, losing it and loading the copy gives back an idle signer at the same index, exactly when the
      mark has not passed it; otherwise the copy is refused. */
  lemma SaveThenLoad(k: Key, w: nat)
    requires w < |k.signers| && k.signers[w].phase != Dead
    ensures var q := k.signers[w].q;
            var t := Run(k, [Save(w), Crash(w), Load(|k.snapshots|)]);
            && t.snapshots == k.snapshots + [q] && t.mark == k.mark && t.used == k.used
            && t.signers == k.signers[w := Signer(q, Dead)] + if q >= k.mark then [Signer(q, Idle)] else []
  {
    RunThree(k, Save(w), Crash(w), Load(|k.snapshots|));
  }

  /** A copy saved just before a crash saves the key: in every reachable state another signature can be made after
      both exactly when one could be made before, unless the signer was past its reservation; then none can. */
  lemma SavedInTime(max: nat, before: seq<Event>, w: nat)
    requires var k := Run(Generated(max), before); w < |k.signers| && k.signers[w].phase != Dead
    ensures var k := Run(Generated(max), before);
            var t := Run(k, [Save(w), Crash(w)]);
            SignsAgain(t) <==> SignsAgain(k) && k.signers[w].phase != Reserved
  {
    var k := Run(Generated(max), before);
    GeneratedInv(max);
    RunKeepsInv(Generated(max), before);
    RunThree(k, Save(w), Crash(w), Crash(w));
    RunSnoc(Generated(max), before, Save(w));
    CrashCost(max, before + [Save(w)], w);
    SignsAgainExactlyWhen(max, before);
    SavedKeeps(k, w);
  }

  lemma SavedKeeps(k: Key, w: nat)
    requires Inv(k) && w < |k.signers| && k.signers[w].phase != Dead
    ensures CanSignWithout(Next(k, Save(w)), w) <==> CanSign(k) && k.signers[w].phase != Reserved
  {
    var t := Next(k, Save(w));
    assert t.snapshots[|k.snapshots|] == k.signers[w].q;
    assert Live(k, w);
    if k.signers[w].phase == Reserved {
      var v :| InFlight(k, v);
      assert v == w;
      assert forall v :: v != w && Live(t, v) ==> t.signers[v].q < t.mark && t.signers[v].phase != Reserved;
      assert forall i :: 0 <= i < |t.snapshots| ==> t.snapshots[i] < t.mark;
    } else {
      if CanSign(k) {
        if v :| Live(k, v) && k.signers[v].phase == Reserved {
          assert v != w && Live(t, v);
        } else if k.mark < k.max {
          if v :| Live(k, v) && k.signers[v].q == k.mark {
            assert v != w ==> Live(t, v);
          } else {
            var i :| 0 <= i < |k.snapshots| && k.snapshots[i] == k.mark;
            assert t.snapshots[i] == k.mark;
          }
        }
      }
      if CanSignWithout(t, w) {
        assert forall v :: v != w && Live(t, v) ==> Live(k, v);
        assert forall i :: 0 <= i < |k.snapshots| ==> t.snapshots[i] == k.snapshots[i];
      }
    }
  }

  // ------------------------------------------------------------------ calls that fail half way

  /** A call whose reservation fails and was not recorded leaves the key as it was, and so does one that another
      signer overtook between its check and its reservation: the signer may try again. */
  lemma FailedReservationCostsNothing(k: Key, w: nat)
    requires w < |k.signers| && k.signers[w].phase == Checked
    ensures Next(k, ReserveFails(w, false)) == Put(k, w, k.signers[w].(phase := Idle))
    ensures k.signers[w].q < k.mark ==> Next(k, Reserve(w)) == Put(k, w, k.signers[w].(phase := Idle))
    ensures k.signers[w].q < k.mark ==> Next(k, ReserveFails(w, true)) == Put(k, w, k.signers[w].(phase := Idle))
  {
  }

  /** A reservation that was recorded although it failed, and a signature that fails after its reservation, lose the
      index: the signer is idle at an index below the mark, and in every reachable state the key is at its end. */
  lemma FailureAfterTheMarkEndsTheKey(max: nat, before: seq<Event>, w: nat)
    requires var k := Run(Generated(max), before);
             && w < |k.signers| && (k.signers[w].phase == Checked || k.signers[w].phase == Reserved)
             && (k.signers[w].phase == Checked ==> k.signers[w].q == k.mark)
    ensures var k := Run(Generated(max), before);
            var s := k.signers[w];
            var t := Next(k, if s.phase == Checked then ReserveFails(w, true) else SignFails(w));
            && t.signers[w] == Signer(s.q, Idle) && t.mark == s.q + 1 && t.lost == k.lost + 1 && t.used == k.used
            && !SignsAgain(t)
  {
    var k := Run(Generated(max), before);
    var e := if k.signers[w].phase == Checked then ReserveFails(w, true) else SignFails(w);
    GeneratedInv(max);
    RunKeepsInv(Generated(max), before);
    RunSnoc(Generated(max), before, e);
    RunKeepsInv(Generated(max), before + [e]);
    if k.signers[w].phase == Reserved {
      assert !NobodyReserved(k, -1);
      var v :| InFlight(k, v);
    }
    forall events
      ensures |Run(Next(k, e), events).used| <= |k.used|
    {
      LostIndexEndsTheKey(Next(k, e), events);
    }
  }
}
