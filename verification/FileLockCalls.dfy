/**
 What single calls of the file store do about the lock: a call that ends has removed it, a call that runs alone
 completes, a stale lock is broken, and a lock that is another's is noticed and left alone.
 */
module FileLockCalls {
  import opened Common
  import opened FileLock
  import opened FileLockProofs
  import opened FileLockExact
  import opened FileLockLinear

  // ------------------------------------------------------------------ a call that ends releases its lock

  /** The lock at the path is held by its maker, or its maker is among `excused`. */
  predicate Accounted(s: Sys, excused: set<nat>) {
    s.lock.Some? ==> s.lock.value.maker in excused || Held(s, s.lock.value)
  }

  predicate Excuses(excused: set<nat>, e: Event) {
    e.Crash? || e.Fault? ==> e.p in excused
  }

  lemma StepAccounted(s: Sys, p: nat, excused: set<nat>)
    requires MutexInv(s) && MovesWhatItChecked(s, Step(p)) && p < |s.procs| && Accounted(s, excused)
    ensures Accounted(Advance(s, p), excused)
  {
    assert HoldsInv(s, p) && BreakerInv(s, p);
  }

  lemma NextAccounted(s: Sys, e: Event, excused: set<nat>)
    requires MutexInv(s) && MovesWhatItChecked(s, e) && Accounted(s, excused) && Excuses(excused, e)
    ensures Accounted(Next(s, e), excused)
  {
    if e.Step? && e.p < |s.procs| {
      StepAccounted(s, e.p, excused);
    } else if !e.AgeLock? && e.p < |s.procs| {
      assert HoldsInv(s, e.p) && BreakerInv(s, e.p);
    }
  }

  lemma {:induction false} RunAccounted(init: Option<Bytes>, s: Sys, events: seq<Event>, excused: set<nat>)
    requires Inv(init, s) && Timely(s, events) && Accounted(s, excused)
    requires forall e :: e in events ==> Excuses(excused, e)
    ensures Accounted(Run(s, events), excused)
    decreases |events|
  {
    if events != [] {
      assert events[0] in events;
      NextAccounted(s, events[0], excused);
      NextKeepsInv(init, s, events[0]);
      RunAccounted(init, Next(s, events[0]), events[1..], excused);
    }
  }

  /** In every timely run a lock that is there is held by the process that made it, unless that process died or one
      of its own file operations failed. So a call that returned left no lock behind. */
  lemma EveryLockIsHeld(s: Sys, events: seq<Event>)
    requires Initial(s) && Timely(s, events)
    ensures var t := Run(s, events);
            t.lock.Some? ==>
              var maker := t.lock.value.maker;
              || (maker < |t.procs| && Holds(t.procs[maker].pc))
              || Crash(maker) in events || Fault(maker) in events
    ensures var t := Run(s, events);
            forall p :: 0 <= p < |t.procs| && t.procs[p].pc.Returned? && Crash(p) !in events && Fault(p) !in events ==>
              t.lock == None || t.lock.value.maker != p
  {
    var excused := set e | e in events && (e.Crash? || e.Fault?) :: e.p;
    RunAccounted(s.target, s, events, excused);
  }

  // ------------------------------------------------------------------ a call alone

  function Steps(p: nat, n: nat): seq<Event> {
    seq(n, _ => Step(p))
  }

  /** After `n` steps of its own the call has returned `res`, the file holds `target`, and no lock is left. */
  predicate Ends(s: Sys, p: nat, n: nat, res: Res, target: Option<Bytes>) {
    var t := Run(s, Steps(p, n));
    p < |t.procs| && t.procs[p].pc == Returned(res) && t.target == target && t.lock == None
  }

  lemma OneStepMore(s: Sys, p: nat, n: nat, res: Res, target: Option<Bytes>)
    requires p < |s.procs| && Ends(Advance(s, p), p, n, res, target)
    ensures Ends(s, p, n + 1, res, target)
  {
    assert Steps(p, n + 1)[0] == Step(p) && Steps(p, n + 1)[1..] == Steps(p, n);
  }

  lemma RunTwo(s: Sys, e: Event)
    ensures Run(s, [e, e]) == Next(Next(s, e), e) && Run(s, [e]) == Next(s, e)
  {
    assert [e, e][1..] == [e] && [e][1..] == [];
    assert Run(Next(s, e), [e]) == Next(Next(s, e), e);
  }

  /** The lock at the path is this process's own, with its owner file. */
  predicate Owns(s: Sys, p: nat) {
    p < |s.procs| && s.lock.Some? && s.lock.value.owner == Some(p)
  }

  lemma ReleaseEnds(s: Sys, p: nat, res: Res) returns (n: nat)
    requires Owns(s, p) && s.procs[p].pc == Leaving(res)
    ensures Ends(s, p, n, res, s.target)
  {
    var s1 := Advance(s, p);
    var s2 := Advance(s1, p);
    var s3 := Advance(s2, p);
    var s4 := Advance(s3, p);
    assert s2.lock == Some(s1.lock.value.(owner := None, stale := false));
    assert s3.lock == None && s3.procs[p].pc == Finishing(res);
    assert Run(s4, Steps(p, 0)) == s4;
    OneStepMore(s3, p, 0, res, s.target);
    OneStepMore(s2, p, 1, res, s.target);
    OneStepMore(s1, p, 2, res, s.target);
    OneStepMore(s, p, 3, res, s.target);
    n := 4;
  }

  lemma ReadyEnds(s: Sys, p: nat) returns (n: nat)
    requires Owns(s, p) && s.procs[p].pc == Ready(Payload(s.procs[p].op)) && !s.procs[p].op.Get?
    requires s.procs[p].op.Cas? ==> s.target == s.procs[p].op.expected
    ensures var (target, res) := Apply(s.procs[p].op, s.target); Ends(s, p, n, res, target)
  {
    var (target, res) := Apply(s.procs[p].op, s.target);
    var s1 := Advance(s, p);
    assert s1.procs[p].pc == Owned(Payload(s.procs[p].op));
    var s2 := Advance(s1, p);
    n := ReleaseEnds(s2, p, res);
    OneStepMore(s1, p, n, res, target);
    OneStepMore(s, p, n + 1, res, target);
    n := n + 2;
  }

  lemma {:induction false} WritingEnds(s: Sys, p: nat, tmp: Bytes) returns (n: nat)
    requires Owns(s, p) && s.procs[p].pc == Writing(tmp) && (s.procs[p].op.Set? || s.procs[p].op.Cas?)
    requires tmp <= Payload(s.procs[p].op)
    requires s.procs[p].op.Cas? ==> s.target == s.procs[p].op.expected
    ensures var (target, res) := Apply(s.procs[p].op, s.target); Ends(s, p, n, res, target)
    decreases |Payload(s.procs[p].op)| - |tmp|
  {
    var v := Payload(s.procs[p].op);
    var (target, res) := Apply(s.procs[p].op, s.target);
    if |tmp| < |v| {
      n := WritingEnds(Advance(s, p), p, tmp + [v[|tmp|]]);
    } else {
      n := ReadyEnds(Advance(s, p), p);
    }
    OneStepMore(s, p, n, res, target);
    n := n + 1;
  }

  lemma TryingEnds(s: Sys, p: nat) returns (n: nat)
    requires p < |s.procs| && s.procs[p].pc == Trying && s.lock == None && !s.procs[p].op.Get?
    ensures var (target, res) := Apply(s.procs[p].op, s.target); Ends(s, p, n, res, target)
  {
    var op := s.procs[p].op;
    var (target, res) := Apply(op, s.target);
    var s1 := Advance(s, p);
    var s2 := Advance(s1, p);
    assert s2.procs[p].pc == Holding && Owns(s2, p);
    var s3 := Advance(s2, p);
    if op.Delete? {
      n := ReadyEnds(s3, p);
    } else if op.Cas? && s.target != op.expected {
      n := ReleaseEnds(s3, p, res);
    } else {
      n := WritingEnds(s3, p, []);
    }
    OneStepMore(s2, p, n, res, target);
    OneStepMore(s1, p, n + 1, res, target);
    OneStepMore(s, p, n + 2, res, target);
    n := n + 3;
  }

  /** A stale lock, whoever left it, is moved away. */
  lemma StaleIsBroken(s: Sys, p: nat) returns (n: nat)
    requires p < |s.procs| && s.procs[p].pc == Trying && !s.procs[p].op.Get?
    requires s.lock.Some? && s.lock.value.stale
    ensures var (target, res) := Apply(s.procs[p].op, s.target); Ends(s, p, n, res, target)
  {
    var (target, res) := Apply(s.procs[p].op, s.target);
    var s1 := Advance(s, p);
    var s2 := Advance(s1, p);
    var s3 := Advance(s2, p);
    var s4 := Advance(s3, p);
    assert s4.procs[p].pc == Trying && s4.lock == None && s4.target == s.target;
    n := TryingEnds(s4, p);
    OneStepMore(s3, p, n, res, target);
    OneStepMore(s2, p, n + 1, res, target);
    OneStepMore(s1, p, n + 2, res, target);
    OneStepMore(s, p, n + 3, res, target);
    n := n + 4;
  }

  /** A call that runs alone, with no lock there or a stale one, ends as the operation on a plain register does: its
      result, the new value, and no lock left. */
  lemma AloneItCompletes(s: Sys, p: nat) returns (n: nat)
    requires p < |s.procs| && s.procs[p].pc == Idle && !s.procs[p].op.Get?
    requires s.lock.Some? ==> s.lock.value.stale
    ensures var (target, res) := Apply(s.procs[p].op, s.target); Ends(s, p, n, res, target)
  {
    var (target, res) := Apply(s.procs[p].op, s.target);
    var s1 := Advance(s, p);
    if s.lock.Some? {
      n := StaleIsBroken(s1, p);
    } else {
      n := TryingEnds(s1, p);
    }
    OneStepMore(s, p, n, res, target);
    n := n + 1;
  }

  /** A place of a call that still waits for the lock: nothing is there, or what is there is stale, and it has moved
      nothing live away. */
  predicate Waiting(s: Sys, pc: Pc) {
    && (pc in {Trying, CheckingAge, MakeLost} || pc.Suspecting? || (pc.Moved? && pc.dir.stale)
        || (pc.Made? && s.lock == None))
    && (s.lock.Some? ==> s.lock.value.stale)
  }

  /** A call that waits gets the lock once nothing live is in its way, wherever its waiting has brought it, and ends
      as the operation on a plain register does. */
  lemma WaitingEnds(s: Sys, p: nat) returns (n: nat)
    requires p < |s.procs| && Waiting(s, s.procs[p].pc) && !s.procs[p].op.Get?
    ensures var (target, res) := Apply(s.procs[p].op, s.target); Ends(s, p, n, res, target)
    decreases match s.procs[p].pc case Trying => 0 case Moved(_) => 1 case Suspecting(_) => 2 case CheckingAge => 3
              case MakeLost => 3 case _ => 4
  {
    var (target, res) := Apply(s.procs[p].op, s.target);
    if s.procs[p].pc == Trying {
      if s.lock.Some? {
        n := StaleIsBroken(s, p);
      } else {
        n := TryingEnds(s, p);
      }
    } else {
      n := WaitingEnds(Advance(s, p), p);
      OneStepMore(s, p, n, res, target);
      n := n + 1;
    }
  }

  /** A get needs no lock: whatever is there, its three steps return the file's value and change nothing else. */
  lemma GetReadsWithoutTheLock(s: Sys, p: nat)
    requires p < |s.procs| && s.procs[p].pc == Idle && s.procs[p].op.Get?
    ensures var t := Run(s, Steps(p, 3));
            && p < |t.procs| && t.procs[p].pc == Returned(Value(s.target))
            && t.target == s.target && t.lock == s.lock
  {
    assert Steps(p, 3) == [Step(p), Step(p), Step(p)];
    assert Steps(p, 3)[1..] == [Step(p), Step(p)] && [Step(p), Step(p)][1..] == [Step(p)] && [Step(p)][1..] == [];
    var s1 := Next(s, Step(p));
    var s2 := Next(s1, Step(p));
    assert Run(s2, [Step(p)]) == Next(s2, Step(p));
    assert Run(s1, [Step(p), Step(p)]) == Run(s2, [Step(p)]);
  }

  // ------------------------------------------------------------------ calls that meet an error

  /** An error while a call holds the lock is raised, or, at the check of the owner file, makes the lock count as
      lost; left alone the call then releases its lock and has changed nothing. */
  lemma ErrorInTheBodyEnds(s: Sys, p: nat) returns (n: nat)
    requires Owns(s, p) && InBody(s.procs[p].pc)
    ensures Ends(Next(s, Fault(p)), p, n, if s.procs[p].pc.Ready? then LockLost else IoError, s.target)
  {
    n := ReleaseEnds(Next(s, Fault(p)), p, if s.procs[p].pc.Ready? then LockLost else IoError);
  }

  /** An error before that: a call that could not make the lock, or could not write its owner file, raises it, in the
      second case with the lock removed again. */
  lemma ErrorBeforeTheBodyEnds(s: Sys, p: nat) returns (n: nat)
    requires p < |s.procs| && ((s.procs[p].pc == Trying && s.lock == None) || s.procs[p].pc == Made)
    ensures Ends(Next(s, Fault(p)), p, n, IoError, s.target)
  {
    var s1 := Next(s, Fault(p));
    n := 0;
    if s.procs[p].pc == Made {
      var s2 := Advance(s1, p);
      assert s2.lock == None && s2.procs[p].pc == Finishing(IoError);
      assert Run(Advance(s2, p), Steps(p, 0)) == Advance(s2, p);
      OneStepMore(s2, p, 0, IoError, s.target);
      OneStepMore(s1, p, 1, IoError, s.target);
      n := 2;
    } else {
      assert Run(Advance(s1, p), Steps(p, 0)) == Advance(s1, p);
      OneStepMore(s1, p, 0, IoError, s.target);
      n := 1;
    }
  }

  /** An error of a breaker, or in the removal of a lock lost while it was made, only makes the call try again; one in
      the release leaves the result as it is and the lock where it is. */
  lemma SuppressedErrors(s: Sys, p: nat)
    requires p < |s.procs|
    ensures var pc := s.procs[p].pc;
            && (pc in {CheckingAge, MakeLost} || pc.Suspecting? || pc.Moved? || pc.PuttingBack? ==>
                  Next(s, Fault(p)) == To(s, p, Trying))
            && (pc.Leaving? || pc.Removing? || pc.RemovingDir? ==> Next(s, Fault(p)) == To(s, p, Finishing(pc.res)))
  {
  }

  /** A call whose new lock is gone before it has written the owner file clears the path, whosever lock is there by
      then, and tries again. */
  lemma LostMakerClearsThePath(s: Sys, p: nat)
    requires p < |s.procs| && (s.procs[p].pc == MakeLost || (s.procs[p].pc == Made && s.lock == None))
    ensures s.procs[p].pc == MakeLost ==> Next(s, Step(p)) == To(s, p, Trying).(lock := None)
    ensures s.procs[p].pc == Made ==> Run(s, [Step(p), Step(p)]) == To(s, p, Trying)
  {
    if s.procs[p].pc == Made {
      RunTwo(s, Step(p));
      assert Next(s, Step(p)) == To(s, p, MakeLost);
      assert s.procs[p := s.procs[p].(pc := MakeLost)][p := s.procs[p].(pc := Trying)]
          == s.procs[p := s.procs[p].(pc := Trying)];
    }
  }

  /** A call that gives up while it waits raises the timeout and leaves the lock that was in its way. */
  lemma GivingUpEnds(s: Sys, p: nat)
    requires p < |s.procs| && s.procs[p].pc == Trying
    ensures var t := Run(s, [GiveUp(p), Step(p)]);
            t == To(s, p, Returned(TimedOut))
  {
    var s1 := Next(s, GiveUp(p));
    assert [GiveUp(p), Step(p)][1..] == [Step(p)] && [Step(p)][1..] == [];
    assert Run(s1, [Step(p)]) == Next(s1, Step(p));
    assert s1.procs[p := s1.procs[p].(pc := Returned(TimedOut))] == s.procs[p := s.procs[p].(pc := Returned(TimedOut))];
  }

  /** The heartbeat of a holder makes its lock fresh, so the next waiter does not break it. */
  lemma HeartbeatKeepsTheLock(s: Sys, p: nat, q: nat)
    requires Owns(s, p) && InBody(s.procs[p].pc) && q < |s.procs| && q != p && s.procs[q].pc == CheckingAge
    ensures var t := Run(s, [Beat(p), Step(q)]);
            t == To(s, q, Trying).(lock := Some(s.lock.value.(stale := false)))
  {
    var s1 := Next(s, Beat(p));
    assert [Beat(p), Step(q)][1..] == [Step(q)] && [Step(q)][1..] == [];
    assert Run(s1, [Step(q)]) == Next(s1, Step(q));
  }

  // ------------------------------------------------------------------ locks that are another's

  /** The call is leaving with this result, or has died. */
  predicate WayOut(pc: Pc, res: Res) {
    pc in {Leaving(res), Removing(res), RemovingDir(res), Finishing(res), Returned(res), Crashed}
  }

  lemma {:induction false} ResultStays(s: Sys, events: seq<Event>, p: nat, res: Res)
    requires p < |s.procs| && WayOut(s.procs[p].pc, res)
    ensures p < |Run(s, events).procs| && WayOut(Run(s, events).procs[p].pc, res)
    decreases |events|
  {
    if events != [] {
      NextKeepsWayOut(s, events[0], p, res);
      ResultStays(Next(s, events[0]), events[1..], p, res);
    }
  }

  lemma NextKeepsWayOut(s: Sys, e: Event, p: nat, res: Res)
    requires p < |s.procs| && WayOut(s.procs[p].pc, res)
    ensures p < |Next(s, e).procs| && WayOut(Next(s, e).procs[p].pc, res)
  {
    if e.Step? && e.p < |s.procs| {
      if e.p == p {
        StepKeepsWayOut(s, p, res);
      } else {
        AdvanceLeavesOthers(s, e.p, p);
      }
    }
  }

  lemma StepKeepsWayOut(s: Sys, p: nat, res: Res)
    requires p < |s.procs| && WayOut(s.procs[p].pc, res)
    ensures p < |Advance(s, p).procs| && WayOut(Advance(s, p).procs[p].pc, res)
  {
  }

  /** With no assumption about time: a writer that finds another owner, or none, at the check before its rename or
      unlink never takes effect. It raises that its lock was lost, or dies before it can. */
  lemma LostLockIsNoticed(s: Sys, before: seq<Event>, after: seq<Event>, p: nat)
    requires Initial(s) && p < |Run(s, before).procs|
    requires Run(s, before).procs[p].pc.Ready? && !OwnerIs(Run(s, before), p)
    ensures var t := Run(Run(s, before), [Step(p)] + after);
            && p < |t.procs| && NoEffect(t.lin, p)
            && (t.procs[p].pc.Returned? ==> t.procs[p].pc.res == LockLost)
  {
    var mid := Run(s, before);
    var events := [Step(p)] + after;
    var next := Next(mid, Step(p));
    assert events[1..] == after;
    ResultStays(next, after, p, LockLost);
    RunSplits(s, before, events);
    RunKeepsFree(s.target, s, before);
    RunKeepsFree(s.target, s, before + events);
    var t := Run(mid, events);
    assert ProcInv(mid.lin, p, mid.procs[p]) && ProcInv(t.lin, p, t.procs[p]);
    if t.procs[p].pc.Crashed? {
      NoLaterEffect(next, after, p, LockLost);
    }
  }

  /** On its way out a call takes no further effect. */
  lemma {:induction false} NoLaterEffect(s: Sys, events: seq<Event>, p: nat, res: Res)
    requires p < |s.procs| && WayOut(s.procs[p].pc, res) && NoEffect(s.lin, p)
    ensures NoEffect(Run(s, events).lin, p)
    decreases |events|
  {
    if events != [] {
      NextAddsOwnEffect(s, events[0]);
      NextKeepsWayOut(s, events[0], p, res);
      if events[0].Step? && events[0].p == p {
        QuietStep(s, p);
      }
      NoLaterEffect(Next(s, events[0]), events[1..], p, res);
    }
  }

  lemma {:induction false} FinishedKeepsLock(s: Sys, p: nat, n: nat)
    requires p < |s.procs| && (s.procs[p].pc.Finishing? || s.procs[p].pc.Returned?)
    ensures Run(s, Steps(p, n)).lock == s.lock
    decreases n
  {
    if n > 0 {
      assert Steps(p, n)[1..] == Steps(p, n - 1);
      FinishedKeepsLock(Advance(s, p), p, n - 1);
    }
  }

  lemma LeavesWithoutLock(s: Sys, p: nat)
    requires p < |s.procs| && s.procs[p].pc.Leaving? && !OwnerIs(s, p)
    ensures Advance(s, p) == To(s, p, Finishing(s.procs[p].pc.res))
  {
  }

  /** A call that leaves without owning the lock at the path does not touch it, whatever it does from then on. */
  lemma ForeignLockIsLeft(s: Sys, p: nat, n: nat)
    requires p < |s.procs| && s.procs[p].pc.Leaving? && !OwnerIs(s, p)
    ensures Run(s, Steps(p, n)).lock == s.lock
  {
    if n > 0 {
      var next := Next(s, Step(p));
      LeavesWithoutLock(s, p);
      assert Steps(p, n)[0] == Step(p) && Steps(p, n)[1..] == Steps(p, n - 1);
      assert next == To(s, p, Finishing(s.procs[p].pc.res));
      FinishedKeepsLock(next, p, n - 1);
      assert Run(s, Steps(p, n)) == Run(next, Steps(p, n - 1));
    }
  }

  /** A lock directory that has got an owner file again when it is to be removed is another's, and stays. */
  lemma ReownedLockIsLeft(s: Sys, p: nat, res: Res, n: nat)
    requires p < |s.procs| && s.procs[p].pc == RemovingDir(res) && s.lock.Some? && s.lock.value.owner.Some?
    ensures Run(s, Steps(p, n)).lock == s.lock
  {
    if n > 0 {
      var next := Next(s, Step(p));
      assert Steps(p, n)[0] == Step(p) && Steps(p, n)[1..] == Steps(p, n - 1);
      assert next == To(s, p, Finishing(res));
      FinishedKeepsLock(next, p, n - 1);
      assert Run(s, Steps(p, n)) == Run(next, Steps(p, n - 1));
    }
  }

  lemma PuttingBackEnds(s: Sys, p: nat, d: LockDir)
    requires p < |s.procs| && s.procs[p].pc == PuttingBack(d)
    ensures Advance(s, p) == To(s, p, Trying).(
              lock := if s.lock.Some? && s.lock.value.owner.Some? then s.lock else Some(d))
  {
  }

  /** A breaker that moved a lock and finds it live puts it back if the path is free or holds a lock without an owner
      file; a lock with an owner stays. A stale one is dropped. */
  lemma MovedLockGoesBack(s: Sys, p: nat, d: LockDir)
    requires p < |s.procs| && s.procs[p].pc == Moved(d)
    ensures !d.stale ==> Run(s, [Step(p), Step(p)]) == To(s, p, Trying).(
              lock := if s.lock.Some? && s.lock.value.owner.Some? then s.lock else Some(d))
    ensures d.stale ==> Run(s, [Step(p)]) == To(s, p, Trying)
  {
    RunTwo(s, Step(p));
    if !d.stale {
      var s1 := To(s, p, PuttingBack(d));
      assert Next(s, Step(p)) == s1;
      PuttingBackEnds(s1, p, d);
      assert s1.procs[p := s1.procs[p].(pc := Trying)] == s.procs[p := s.procs[p].(pc := Trying)];
    }
  }
}
