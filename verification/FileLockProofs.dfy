/**
 What the file store guarantees with no assumption at all: the file is always absent, as it was, or one
 complete value, and an operation that reports an error had no effect.
 */
module FileLockProofs {
  import opened Common
  import opened FileLock

  // ------------------------------------------------------------------ with no assumption

  predicate IsError(res: Res) {
    res.TimedOut? || res.LockLost? || res.IoError?
  }

  predicate NoEffect(lin: seq<Effect>, p: nat) {
    forall i :: 0 <= i < |lin| ==> lin[i].proc != p
  }

  /** Exactly one effect of process `p`, with this operation and result. */
  predicate OneEffect(lin: seq<Effect>, p: nat, op: Op, res: Res) {
    exists i :: 0 <= i < |lin| && lin[i] == Effect(p, op, res) && forall j :: 0 <= j < |lin| && lin[j].proc == p ==>
          j == i
  }

  predicate AtMostOne(lin: seq<Effect>, p: nat) {
    forall i, j :: 0 <= i < |lin| && 0 <= j < |lin| && lin[i].proc == p && lin[j].proc == p ==> i == j
  }

  predicate Outcome(lin: seq<Effect>, p: nat, op: Op, res: Res) {
    if IsError(res) then NoEffect(lin, p) else OneEffect(lin, p, op, res)
  }

  /** What holds of one process whatever happens to the lock. */
  predicate ProcInv(lin: seq<Effect>, p: nat, k: Proc) {
    match k.pc
    case Writing(tmp) => NoEffect(lin, p) && tmp <= Payload(k.op) && !k.op.Get? && !k.op.Delete?
    case Ready(tmp) => NoEffect(lin, p) && tmp == Payload(k.op) && !k.op.Get?
    case Owned(tmp) => NoEffect(lin, p) && tmp == Payload(k.op) && !k.op.Get?
    case Leaving(res) => Outcome(lin, p, k.op, res)
    case Removing(res) => Outcome(lin, p, k.op, res)
    case RemovingDir(res) => Outcome(lin, p, k.op, res)
    case Finishing(res) => Outcome(lin, p, k.op, res)
    case Returned(res) => Outcome(lin, p, k.op, res)
    case Crashed => AtMostOne(lin, p)
    case Idle => NoEffect(lin, p)
    case Reading => NoEffect(lin, p) && k.op.Get?
    case _ => NoEffect(lin, p) && !k.op.Get?
  }

  /** The value was passed whole to a write, or was there from the start. */
  ghost predicate WholeValue(init: Option<Bytes>, s: Sys, v: Option<Bytes>) {
    || v == init || v == None
    || exists p :: 0 <= p < |s.procs| && (s.procs[p].op.Set? || s.procs[p].op.Cas?) && v == Some(s.procs[p].op.value)
  }

  ghost predicate FreeInv(init: Option<Bytes>, s: Sys) {
    && WholeValue(init, s, s.target)
    && (forall i :: 0 <= i < |s.lin| ==> s.lin[i].proc < |s.procs|)
    && forall p :: 0 <= p < |s.procs| ==> ProcInv(s.lin, p, s.procs[p])
  }

  lemma OthersTakeEffect(lin: seq<Effect>, p: nat, k: Proc, e: Effect)
    requires ProcInv(lin, p, k) && e.proc != p
    ensures ProcInv(lin + [e], p, k)
  {
    forall res | OneEffect(lin, p, k.op, res)
      ensures OneEffect(lin + [e], p, k.op, res)
    {
      var i :| 0 <= i < |lin| && lin[i] == Effect(p, k.op, res) && forall j :: 0 <= j < |lin| && lin[j].proc == p ==>
            j == i;
      assert (lin + [e])[i] == Effect(p, k.op, res);
    }
  }

  lemma OwnEffect(lin: seq<Effect>, p: nat, op: Op, res: Res)
    requires NoEffect(lin, p)
    ensures OneEffect(lin + [Effect(p, op, res)], p, op, res)
  {
    assert (lin + [Effect(p, op, res)])[|lin|] == Effect(p, op, res);
  }

  /** A process takes effect and everyone keeps their part. */
  lemma TakeEffect(init: Option<Bytes>, s: Sys, p: nat, res: Res, pc: Pc)
    requires FreeInv(init, s) && p < |s.procs| && NoEffect(s.lin, p) && !IsError(res)
    requires pc == Leaving(res) || pc == Finishing(res)
    ensures FreeInv(init, To(Took(s, p, res), p, pc))
  {
    var t := To(Took(s, p, res), p, pc);
    OwnEffect(s.lin, p, s.procs[p].op, res);
    forall q | 0 <= q < |t.procs|
      ensures ProcInv(t.lin, q, t.procs[q])
    {
      if q != p {
        OthersTakeEffect(s.lin, q, s.procs[q], Effect(p, s.procs[p].op, res));
      }
    }
    SameValues(init, s, t, s.target);
  }

  lemma SameValues(init: Option<Bytes>, s: Sys, t: Sys, v: Option<Bytes>)
    requires WholeValue(init, s, v) && |s.procs| == |t.procs|
    requires forall p :: 0 <= p < |s.procs| ==> t.procs[p].op == s.procs[p].op
    ensures WholeValue(init, t, v)
  {
    if v != init && v != None {
      var p :| 0 <= p < |s.procs| && (s.procs[p].op.Set? || s.procs[p].op.Cas?) && v == Some(s.procs[p].op.value);
      assert t.procs[p].op == s.procs[p].op;
    }
  }

  lemma CommitKeepsFree(init: Option<Bytes>, s: Sys, p: nat, tmp: Bytes)
    requires FreeInv(init, s) && p < |s.procs| && s.procs[p].pc == Owned(tmp)
    ensures FreeInv(init, Commit(s, p, tmp))
  {
    assert ProcInv(s.lin, p, s.procs[p]);
    var res := if s.procs[p].op.Delete? then (if s.target.Some? then Deleted else KeyMissing)
               else if s.procs[p].op.Cas? then Swapped(true) else Stored;
    TakeEffect(init, s, p, res, Leaving(res));
    var t := Commit(s, p, tmp);
    if !s.procs[p].op.Delete? {
      assert t.procs[p].op == s.procs[p].op && t.target == Some(t.procs[p].op.value);
    }
  }

  /** Everything but the effects: one process moves, and its own part is kept. */
  lemma MoveKeepsFree(init: Option<Bytes>, s: Sys, t: Sys, p: nat)
    requires FreeInv(init, s) && p < |s.procs| && |t.procs| == |s.procs|
    requires t.lin == s.lin && t.target == s.target
    requires forall q :: 0 <= q < |s.procs| && q != p ==> t.procs[q] == s.procs[q]
    requires t.procs[p].op == s.procs[p].op && ProcInv(t.lin, p, t.procs[p])
    ensures FreeInv(init, t)
  {
    SameValues(init, s, t, s.target);
  }

  /** The steps that touch neither the target nor the effects. */
  predicate IsLockStep(pc: Pc) {
    !pc.Reading? && !pc.Owned? && !pc.Holding? && !pc.Writing?
  }

  lemma LockStepKeepsFree(init: Option<Bytes>, s: Sys, p: nat)
    requires FreeInv(init, s) && p < |s.procs| && IsLockStep(s.procs[p].pc)
    ensures FreeInv(init, Advance(s, p))
  {
    assert ProcInv(s.lin, p, s.procs[p]);
    MoveKeepsFree(init, s, Advance(s, p), p);
  }

  lemma BodyStepKeepsFree(init: Option<Bytes>, s: Sys, p: nat)
    requires FreeInv(init, s) && p < |s.procs| && !IsLockStep(s.procs[p].pc)
    ensures FreeInv(init, Advance(s, p))
  {
    assert ProcInv(s.lin, p, s.procs[p]);
    match s.procs[p].pc
    case Reading => TakeEffect(init, s, p, Value(s.target), Finishing(Value(s.target)));
    case Owned(tmp) => CommitKeepsFree(init, s, p, tmp);
    case Holding =>
      if s.procs[p].op.Cas? && s.target != s.procs[p].op.expected {
        TakeEffect(init, s, p, Swapped(false), Leaving(Swapped(false)));
      } else {
        MoveKeepsFree(init, s, Advance(s, p), p);
      }
    case Writing(tmp) =>
      assert |tmp| < |Payload(s.procs[p].op)| ==> tmp + [Payload(s.procs[p].op)[|tmp|]] <= Payload(s.procs[p].op);
      MoveKeepsFree(init, s, Advance(s, p), p);
  }

  lemma OtherEventKeepsFree(init: Option<Bytes>, s: Sys, e: Event)
    requires FreeInv(init, s) && !e.Step?
    ensures FreeInv(init, Next(s, e))
  {
    var t := Next(s, e);
    if e.AgeLock? || e.Beat? {
      SameValues(init, s, t, s.target);
    } else if e.p < |s.procs| {
      assert ProcInv(s.lin, e.p, s.procs[e.p]);
      MoveKeepsFree(init, s, t, e.p);
    }
  }

  lemma NextKeepsFree(init: Option<Bytes>, s: Sys, e: Event)
    requires FreeInv(init, s)
    ensures FreeInv(init, Next(s, e))
  {
    if !e.Step? {
      OtherEventKeepsFree(init, s, e);
    } else if e.p < |s.procs| {
      if IsLockStep(s.procs[e.p].pc) {
        LockStepKeepsFree(init, s, e.p);
      } else {
        BodyStepKeepsFree(init, s, e.p);
      }
    }
  }

  lemma {:induction false} RunKeepsFree(init: Option<Bytes>, s: Sys, events: seq<Event>)
    requires FreeInv(init, s)
    ensures FreeInv(init, Run(s, events))
    decreases |events|
  {
    if events != [] {
      NextKeepsFree(init, s, events[0]);
      RunKeepsFree(init, Next(s, events[0]), events[1..]);
    }
  }

  /** With no assumption: the file is absent, as it was, or one complete value passed to a write, and
      an operation that raised (timeout, lock lost, I/O error) changed nothing. */
  lemma AlwaysCompleteValues(s: Sys, events: seq<Event>, p: nat)
    requires Initial(s)
    ensures var t := Run(s, events);
            && WholeValue(s.target, t, t.target)
            && (p < |t.procs| && t.procs[p].pc.Returned? && IsError(t.procs[p].pc.res) ==> NoEffect(t.lin, p))
  {
    RunKeepsFree(s.target, s, events);
    var t := Run(s, events);
    if p < |t.procs| {
      assert ProcInv(t.lin, p, t.procs[p]);
    }
  }
}
