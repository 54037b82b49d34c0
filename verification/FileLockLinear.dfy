/**
 Mutual exclusion under two timing hypotheses: a running holder's lock does not go stale, and a breaker moves
 the lock whose age it checked. With it compare-and-set is linearizable too.
 */
module FileLockLinear {
  import opened Common
  import opened FileLock
  import opened FileLockProofs
  import opened FileLockExact

  // ------------------------------------------------------------------ the hypotheses

  /** The process is between making the lock directory and removing it. */
  predicate Holds(pc: Pc) {
    pc.Made? || pc.MakeFailed? || InBody(pc) || pc.Leaving? || pc.Removing? || pc.RemovingDir?
  }

  /** The lock is the one its maker holds now. */
  predicate Held(s: Sys, d: LockDir) {
    d.maker < |s.procs| && Holds(s.procs[d.maker].pc) && s.procs[d.maker].lid == d.id
  }

  /** A lock goes stale only when its maker died or left it behind: a running holder refreshes it. */
  predicate HolderStaysFresh(s: Sys, e: Event) {
    e.AgeLock? && s.lock.Some? ==> !Held(s, s.lock.value)
  }

  /** What a breaker moves away is the lock whose age it checked, or nothing. */
  predicate MovesWhatItChecked(s: Sys, e: Event) {
    e.Step? && e.p < |s.procs| && s.procs[e.p].pc.Suspecting? && s.lock.Some? ==>
      s.lock.value.id == s.procs[e.p].pc.id
  }

  predicate Timely(s: Sys, events: seq<Event>)
    decreases |events|
  {
    events == [] ||
    (HolderStaysFresh(s, events[0]) && MovesWhatItChecked(s, events[0]) && Timely(Next(s, events[0]), events[1..]))
  }

  // ------------------------------------------------------------------ mutual exclusion

  predicate OwnerMatches(pc: Pc, p: nat, owner: Option<nat>) {
    if pc.Made? || pc.MakeFailed? || pc.RemovingDir? then owner == None else owner == Some(p)
  }

  /** A process that holds the lock: the directory at the lock path is the one it made. */
  predicate HoldsInv(s: Sys, p: nat)
    requires p < |s.procs|
  {
    Holds(s.procs[p].pc) ==>
      && s.lock.Some? && s.lock.value.id == s.procs[p].lid && s.lock.value.maker == p
      && OwnerMatches(s.procs[p].pc, p, s.lock.value.owner)
  }

  /** A breaker: what it suspects or moved is stale. */
  predicate BreakerInv(s: Sys, p: nat)
    requires p < |s.procs|
  {
    match s.procs[p].pc
    case Suspecting(id) =>
      && id < s.nextId
      && (s.lock.Some? && s.lock.value.id == id ==> s.lock.value.stale)
    case Moved(d) => d.stale
    case PuttingBack(_) => false
    case MakeLost => false
    case _ => true
  }

  /** The lock path: a stale directory is nobody's any more. */
  predicate LockInv(s: Sys) {
    s.lock.Some? ==> s.lock.value.id < s.nextId && (s.lock.value.stale ==> !Held(s, s.lock.value))
  }

  /** Between its comparison and its rename a compare-and-set still sees what it expected. */
  predicate CompareInv(s: Sys, p: nat)
    requires p < |s.procs|
  {
    s.procs[p].op.Cas? && (s.procs[p].pc.Writing? || s.procs[p].pc.Ready? || s.procs[p].pc.Owned?) ==>
      s.target == s.procs[p].op.expected
  }

  ghost predicate MutexInv(s: Sys) {
    && LockInv(s)
    && forall p :: 0 <= p < |s.procs| ==> HoldsInv(s, p) && BreakerInv(s, p) && CompareInv(s, p)
  }

  ghost predicate Inv(init: Option<Bytes>, s: Sys) {
    FreeInv(init, s) && MutexInv(s)
  }

  lemma HoldersAgree(s: Sys, p: nat, q: nat)
    requires MutexInv(s) && p < |s.procs| && q < |s.procs|
    ensures Holds(s.procs[p].pc) && Holds(s.procs[q].pc) ==> p == q
  {
    assert HoldsInv(s, p) && HoldsInv(s, q);
  }

  // ------------------------------------------------------------------ steps that have no effect

  /** A process moves and the lock path stays: everyone else keeps their part. */
  lemma MoveKeepsMutex(s: Sys, t: Sys, p: nat)
    requires MutexInv(s) && p < |s.procs| && |t.procs| == |s.procs|
    requires t.target == s.target && t.lock == s.lock && t.nextId == s.nextId
    requires forall q :: 0 <= q < |s.procs| && q != p ==> t.procs[q] == s.procs[q]
    requires HoldsInv(t, p) && BreakerInv(t, p) && CompareInv(t, p)
    requires s.procs[p].lid == t.procs[p].lid
    requires Holds(t.procs[p].pc) ==> Holds(s.procs[p].pc)
    ensures MutexInv(t)
  {
    forall q | 0 <= q < |t.procs|
      ensures HoldsInv(t, q) && BreakerInv(t, q) && CompareInv(t, q)
    {
      assert HoldsInv(s, q) && BreakerInv(s, q) && CompareInv(s, q);
    }
  }

  /** The lock directory is refreshed or its owner file changes, by its holder. */
  lemma TouchKeepsMutex(s: Sys, t: Sys, p: nat)
    requires MutexInv(s) && p < |s.procs| && Holds(s.procs[p].pc) && s.lock.Some?
    requires t.target == s.target && t.nextId == s.nextId && |t.procs| == |s.procs|
    requires t.lock.Some? && t.lock.value == s.lock.value.(owner := t.lock.value.owner, stale := false)
    requires forall q :: 0 <= q < |s.procs| && q != p ==> t.procs[q] == s.procs[q]
    requires t.procs[p].lid == s.procs[p].lid && Holds(t.procs[p].pc)
    requires HoldsInv(t, p) && BreakerInv(t, p) && CompareInv(t, p)
    ensures MutexInv(t)
  {
    assert HoldsInv(s, p);
    forall q | 0 <= q < |t.procs|
      ensures HoldsInv(t, q) && BreakerInv(t, q) && CompareInv(t, q)
    {
      assert HoldsInv(s, q) && BreakerInv(s, q) && CompareInv(s, q);
      HoldersAgree(s, p, q);
    }
  }

  /** The lock path is emptied: nobody holds it any more. */
  lemma EmptyKeepsMutex(s: Sys, t: Sys, p: nat)
    requires MutexInv(s) && p < |s.procs| && s.lock.Some?
    requires t.target == s.target && t.nextId == s.nextId && |t.procs| == |s.procs| && t.lock == None
    requires forall q :: 0 <= q < |s.procs| && q != p ==> t.procs[q] == s.procs[q] && !Holds(s.procs[q].pc)
    requires !Holds(t.procs[p].pc) && BreakerInv(t, p)
    ensures MutexInv(t)
  {
    forall q | 0 <= q < |t.procs|
      ensures HoldsInv(t, q) && BreakerInv(t, q) && CompareInv(t, q)
    {
      assert BreakerInv(s, q) && CompareInv(s, q);
    }
  }

  lemma MakeKeepsMutex(s: Sys, p: nat)
    requires MutexInv(s) && p < |s.procs| && s.procs[p].pc == Trying
    ensures MutexInv(TryMake(s, p))
  {
    var t := TryMake(s, p);
    assert HoldsInv(s, p) && BreakerInv(s, p) && CompareInv(s, p);
    if s.lock.Some? {
      MoveKeepsMutex(s, t, p);
    } else {
      forall q | 0 <= q < |t.procs|
        ensures HoldsInv(t, q) && BreakerInv(t, q) && CompareInv(t, q)
      {
        assert HoldsInv(s, q) && BreakerInv(s, q) && CompareInv(s, q);
      }
    }
  }

  lemma MoveAwayKeepsMutex(s: Sys, p: nat)
    requires MutexInv(s) && p < |s.procs| && s.procs[p].pc.Suspecting?
    requires s.lock.Some? ==> s.lock.value.id == s.procs[p].pc.id
    ensures MutexInv(MoveAway(s, p))
  {
    assert HoldsInv(s, p) && BreakerInv(s, p) && CompareInv(s, p);
    if s.lock.None? {
      MoveKeepsMutex(s, MoveAway(s, p), p);
    } else {
      forall q | 0 <= q < |s.procs|
        ensures !Holds(s.procs[q].pc)
      {
        assert HoldsInv(s, q);
      }
      EmptyKeepsMutex(s, MoveAway(s, p), p);
    }
  }

  lemma ReleaseKeepsMutex(s: Sys, p: nat)
    requires MutexInv(s) && p < |s.procs|
    requires s.procs[p].pc.Removing? || s.procs[p].pc.RemovingDir? || s.procs[p].pc.MakeFailed?
    ensures MutexInv(Advance(s, p))
  {
    assert HoldsInv(s, p) && BreakerInv(s, p) && CompareInv(s, p);
    if s.procs[p].pc.Removing? {
      TouchKeepsMutex(s, Advance(s, p), p);
    } else {
      forall q | 0 <= q < |s.procs| && q != p
        ensures !Holds(s.procs[q].pc)
      {
        assert HoldsInv(s, q);
      }
      EmptyKeepsMutex(s, Advance(s, p), p);
    }
  }

  /** The remaining steps that leave the target and the lock path alone. */
  predicate IsPlain(pc: Pc) {
    pc.Idle? || pc.CheckingAge? || pc.Moved? || pc.Writing? || pc.Ready? || pc.Leaving? || pc.Finishing?
    || pc.Returned? || pc.Crashed? || pc.PuttingBack? || pc.MakeLost?
  }

  lemma PlainKeepsMutex(s: Sys, p: nat)
    requires MutexInv(s) && p < |s.procs| && IsPlain(s.procs[p].pc)
    ensures MutexInv(Advance(s, p))
    ensures Advance(s, p).lin == s.lin && Advance(s, p).target == s.target
  {
    assert HoldsInv(s, p) && BreakerInv(s, p) && CompareInv(s, p);
    MoveKeepsMutex(s, Advance(s, p), p);
  }

  // ------------------------------------------------------------------ steps that take effect

  lemma CommitKeepsMutex(s: Sys, p: nat, tmp: Bytes)
    requires MutexInv(s) && p < |s.procs| && s.procs[p].pc == Owned(tmp)
    ensures MutexInv(Commit(s, p, tmp))
  {
    var t := Commit(s, p, tmp);
    assert HoldsInv(s, p);
    forall q | 0 <= q < |t.procs|
      ensures HoldsInv(t, q) && BreakerInv(t, q) && CompareInv(t, q)
    {
      assert HoldsInv(s, q) && BreakerInv(s, q) && CompareInv(s, q);
      HoldersAgree(s, p, q);
    }
  }

  lemma CommitKeepsInv(init: Option<Bytes>, s: Sys, p: nat, tmp: Bytes)
    requires Inv(init, s) && p < |s.procs| && s.procs[p].pc == Owned(tmp)
    ensures Inv(init, Commit(s, p, tmp))
  {
    CommitKeepsFree(init, s, p, tmp);
    CommitKeepsMutex(s, p, tmp);
  }

  lemma EnterKeepsMutex(s: Sys, p: nat)
    requires MutexInv(s) && p < |s.procs| && s.procs[p].pc == Holding
    ensures MutexInv(Enter(s, p))
  {
    assert HoldsInv(s, p);
    MoveKeepsMutex(s, Enter(s, p), p);
  }

  lemma EnterKeepsInv(init: Option<Bytes>, s: Sys, p: nat)
    requires Inv(init, s) && p < |s.procs| && s.procs[p].pc == Holding
    ensures Inv(init, Enter(s, p))
  {
    BodyStepKeepsFree(init, s, p);
    EnterKeepsMutex(s, p);
  }

  lemma ReadKeepsMutex(s: Sys, p: nat)
    requires MutexInv(s) && p < |s.procs| && s.procs[p].pc == Reading && s.procs[p].op.Get?
    ensures MutexInv(Advance(s, p))
  {
    assert HoldsInv(s, p);
    MoveKeepsMutex(s, Advance(s, p), p);
  }

  lemma ReadKeepsInv(init: Option<Bytes>, s: Sys, p: nat)
    requires Inv(init, s) && p < |s.procs| && s.procs[p].pc == Reading
    ensures Inv(init, Advance(s, p))
  {
    assert ProcInv(s.lin, p, s.procs[p]);
    BodyStepKeepsFree(init, s, p);
    ReadKeepsMutex(s, p);
  }

  // ------------------------------------------------------------------ runs

  lemma StepKeepsInv(init: Option<Bytes>, s: Sys, p: nat)
    requires Inv(init, s) && p < |s.procs| && MovesWhatItChecked(s, Step(p))
    ensures Inv(init, Advance(s, p))
  {
    NextKeepsFree(init, s, Step(p));
    assert HoldsInv(s, p) && BreakerInv(s, p) && CompareInv(s, p);
    match s.procs[p].pc
    case Reading => ReadKeepsInv(init, s, p);
    case Holding => EnterKeepsInv(init, s, p);
    case Owned(tmp) => CommitKeepsInv(init, s, p, tmp);
    case Trying => MakeKeepsMutex(s, p);
    case Suspecting(_) => MoveAwayKeepsMutex(s, p);
    case Made => TouchKeepsMutex(s, Advance(s, p), p);
    case Removing(_) => ReleaseKeepsMutex(s, p);
    case RemovingDir(_) => ReleaseKeepsMutex(s, p);
    case MakeFailed => ReleaseKeepsMutex(s, p);
    case _ => PlainKeepsMutex(s, p);
  }

  lemma AgeLockKeepsMutex(s: Sys)
    requires MutexInv(s) && HolderStaysFresh(s, AgeLock)
    ensures MutexInv(Next(s, AgeLock))
  {
    var t := Next(s, AgeLock);
    forall q | 0 <= q < |t.procs|
      ensures HoldsInv(t, q) && BreakerInv(t, q) && CompareInv(t, q)
    {
      assert HoldsInv(s, q) && BreakerInv(s, q) && CompareInv(s, q);
    }
  }

  lemma BeatKeepsMutex(s: Sys, p: nat)
    requires MutexInv(s)
    ensures MutexInv(Next(s, Beat(p)))
  {
    if p < |s.procs| && InBody(s.procs[p].pc) {
      assert HoldsInv(s, p) && BreakerInv(s, p) && CompareInv(s, p);
      TouchKeepsMutex(s, Next(s, Beat(p)), p);
    }
  }

  lemma InterruptKeepsMutex(s: Sys, e: Event)
    requires MutexInv(s) && (e.GiveUp? || e.Fault? || e.Crash? || e.AgeMoved?)
    ensures MutexInv(Next(s, e))
  {
    if e.p < |s.procs| {
      assert HoldsInv(s, e.p) && BreakerInv(s, e.p) && CompareInv(s, e.p);
      MoveKeepsMutex(s, Next(s, e), e.p);
    }
  }

  lemma OtherEventKeepsInv(init: Option<Bytes>, s: Sys, e: Event)
    requires Inv(init, s) && HolderStaysFresh(s, e) && !e.Step?
    ensures Inv(init, Next(s, e))
  {
    OtherEventKeepsFree(init, s, e);
    match e
    case AgeLock => AgeLockKeepsMutex(s);
    case Beat(p) => BeatKeepsMutex(s, p);
    case _ => InterruptKeepsMutex(s, e);
  }

  lemma NextKeepsInv(init: Option<Bytes>, s: Sys, e: Event)
    requires Inv(init, s) && HolderStaysFresh(s, e) && MovesWhatItChecked(s, e)
    ensures Inv(init, Next(s, e))
  {
    if !e.Step? {
      OtherEventKeepsInv(init, s, e);
    } else if e.p < |s.procs| {
      StepKeepsInv(init, s, e.p);
    }
  }

  lemma {:induction false} RunKeepsInv(init: Option<Bytes>, s: Sys, events: seq<Event>)
    requires Inv(init, s) && Timely(s, events)
    ensures Inv(init, Run(s, events))
    decreases |events|
  {
    if events != [] {
      NextKeepsInv(init, s, events[0]);
      RunKeepsInv(init, Next(s, events[0]), events[1..]);
    }
  }

  /** Mutual exclusion: in every timely run, with crashes anywhere, two processes never hold the lock at once. */
  lemma OneHolder(s: Sys, events: seq<Event>, p: nat, q: nat)
    requires Initial(s) && Timely(s, events)
    requires p < |Run(s, events).procs| && q < |Run(s, events).procs|
    ensures var t := Run(s, events); Holds(t.procs[p].pc) && Holds(t.procs[q].pc) ==> p == q
  {
    RunKeepsInv(s.target, s, events);
    HoldersAgree(Run(s, events), p, q);
  }

  /** No timely run has a stale commit: what a compare-and-set compared is still there when it renames. */
  lemma {:induction false} TimelyHasNoStaleCommit(init: Option<Bytes>, s: Sys, events: seq<Event>)
    requires Inv(init, s) && Timely(s, events)
    ensures NoStaleCommit(s, events)
    decreases |events|
  {
    if events != [] {
      if events[0].Step? && events[0].p < |s.procs| {
        assert CompareInv(s, events[0].p);
      }
      NextKeepsInv(init, s, events[0]);
      TimelyHasNoStaleCommit(init, Next(s, events[0]), events[1..]);
    }
  }

  /** The operation found its lock lost. */
  predicate Lost(pc: Pc) {
    match pc
    case Leaving(res) => res == LockLost
    case Removing(res) => res == LockLost
    case RemovingDir(res) => res == LockLost
    case Finishing(res) => res == LockLost
    case Returned(res) => res == LockLost
    case _ => false
  }

  lemma NextLosesNoLock(s: Sys, e: Event, p: nat)
    requires MutexInv(s) && p < |s.procs| && !Lost(s.procs[p].pc) && e != Fault(p)
    ensures p < |Next(s, e).procs| && !Lost(Next(s, e).procs[p].pc)
  {
    assert HoldsInv(s, p);
    if e.Step? && e.p < |s.procs| && e.p != p {
      AdvanceLeavesOthers(s, e.p, p);
    }
  }

  lemma {:induction false} RunLosesNoLock(init: Option<Bytes>, s: Sys, events: seq<Event>, p: nat)
    requires Inv(init, s) && Timely(s, events) && p < |s.procs| && !Lost(s.procs[p].pc) && Fault(p) !in events
    ensures p < |Run(s, events).procs| && !Lost(Run(s, events).procs[p].pc)
    decreases |events|
  {
    if events != [] {
      assert events[0] in events;
      NextKeepsInv(init, s, events[0]);
      NextLosesNoLock(s, events[0], p);
      RunLosesNoLock(init, Next(s, events[0]), events[1..], p);
    }
  }

  /** In a timely run an operation finds its lock lost only if a file operation of its own failed. */
  lemma TimelyNeverLosesALock(s: Sys, events: seq<Event>, p: nat)
    requires Initial(s) && Timely(s, events) && p < |Run(s, events).procs| && Fault(p) !in events
    ensures Run(s, events).procs[p].pc != Returned(LockLost)
  {
    EffectsOnlyGrow(s, events);
    RunLosesNoLock(s.target, s, events, p);
  }

  /** Linearizability under the timing hypotheses: in every timely run, with crashes and errors anywhere, every effect
      is one process's own operation as it was invoked, no process has two, and the effects done one after another
      on a plain register give every effect's result and the file's value, and explain what every caller sees; and
      an operation none of whose file operations failed never finds its lock lost. */
  lemma Linearizable(s: Sys, events: seq<Event>)
    requires Initial(s) && Timely(s, events)
    ensures Linearized(s, Run(s, events))
    ensures var t := Run(s, events);
            forall p :: 0 <= p < |t.procs| && Fault(p) !in events ==> t.procs[p].pc != Returned(LockLost)
  {
    TimelyHasNoStaleCommit(s.target, s, events);
    LinearizableExactly(s, events);
    forall p | 0 <= p < |Run(s, events).procs| && Fault(p) !in events
      ensures Run(s, events).procs[p].pc != Returned(LockLost)
    {
      TimelyNeverLosesALock(s, events, p);
    }
  }
}
