/**
 When the file store's operations are linearizable, exactly and with no hypothesis about time: the effects of a
 run, in the order in which they take place, are those of a plain register if and only if no compare-and-set
 renames over a value other than the one it compared.
 */
module FileLockExact {
  import opened Common
  import opened FileLock
  import opened FileLockProofs

  // ------------------------------------------------------------------ effects over a run

  /** All other steps leave target and effects alone. */
  lemma QuietStep(s: Sys, p: nat)
    requires p < |s.procs|
    requires !s.procs[p].pc.Owned? && !s.procs[p].pc.Holding? && !s.procs[p].pc.Reading?
    ensures Advance(s, p).lin == s.lin && Advance(s, p).target == s.target
  {
  }

  lemma QuietEvent(s: Sys, e: Event)
    requires !e.Step?
    ensures Next(s, e).lin == s.lin && Next(s, e).target == s.target
  {
  }

  predicate AddsOwnEffect(s: Sys, t: Sys, p: nat)
    requires p < |s.procs|
  {
    && |t.lin| == |s.lin| + 1 && s.lin <= t.lin
    && t.lin[|s.lin|].proc == p && t.lin[|s.lin|].op == s.procs[p].op
  }

  lemma CommitAddsOwnEffect(s: Sys, p: nat, tmp: Bytes)
    requires p < |s.procs|
    ensures AddsOwnEffect(s, Commit(s, p, tmp), p) && |Commit(s, p, tmp).procs| == |s.procs|
  {
  }

  lemma EnterAddsOwnEffect(s: Sys, p: nat)
    requires p < |s.procs|
    ensures Enter(s, p).lin == s.lin || AddsOwnEffect(s, Enter(s, p), p)
  {
  }

  lemma AdvanceKeepsCount(s: Sys, p: nat)
    requires p < |s.procs|
    ensures |Advance(s, p).procs| == |s.procs|
  {
  }

  lemma NextAddsOwnEffect(s: Sys, e: Event)
    ensures Next(s, e).lin == s.lin || (e.Step? && e.p < |s.procs| && AddsOwnEffect(s, Next(s, e), e.p))
  {
    if !e.Step? {
      QuietEvent(s, e);
    } else if e.p < |s.procs| {
      match s.procs[e.p].pc
      case Owned(tmp) => CommitAddsOwnEffect(s, e.p, tmp);
      case Holding => EnterAddsOwnEffect(s, e.p);
      case Reading =>
      case _ => QuietStep(s, e.p);
    }
  }

  lemma NextEffectsGrow(s: Sys, e: Event)
    ensures s.lin <= Next(s, e).lin && |Next(s, e).procs| == |s.procs|
  {
    NextAddsOwnEffect(s, e);
    if e.Step? && e.p < |s.procs| {
      AdvanceKeepsCount(s, e.p);
    }
  }

  /** Every effect is one process's own operation. */
  ghost predicate OwnOperations(s: Sys) {
    forall i :: 0 <= i < |s.lin| ==> s.lin[i].proc < |s.procs| && s.lin[i].op == s.procs[s.lin[i].proc].op
  }

  predicate SameOperations(s: Sys, t: Sys) {
    |t.procs| == |s.procs| && forall p :: 0 <= p < |s.procs| ==> t.procs[p].op == s.procs[p].op
  }

  lemma AdvanceLeavesOthers(s: Sys, p: nat, q: nat)
    requires p < |s.procs| && q < |s.procs| && q != p
    ensures |Advance(s, p).procs| == |s.procs| && Advance(s, p).procs[q] == s.procs[q]
  {
  }

  lemma AdvanceKeepsOperation(s: Sys, p: nat)
    requires p < |s.procs|
    ensures |Advance(s, p).procs| == |s.procs| && Advance(s, p).procs[p].op == s.procs[p].op
  {
  }

  lemma OtherEventKeepsOperation(s: Sys, e: Event, q: nat)
    requires !e.Step? && q < |s.procs|
    ensures |Next(s, e).procs| == |s.procs| && Next(s, e).procs[q].op == s.procs[q].op
  {
  }

  lemma NextKeepsProcs(s: Sys, e: Event)
    ensures SameOperations(s, Next(s, e))
  {
    NextEffectsGrow(s, e);
    forall q | 0 <= q < |s.procs|
      ensures Next(s, e).procs[q].op == s.procs[q].op
    {
      if !e.Step? {
        OtherEventKeepsOperation(s, e, q);
      } else if e.p == q {
        AdvanceKeepsOperation(s, q);
      } else if e.p < |s.procs| {
        AdvanceLeavesOthers(s, e.p, q);
      }
    }
  }

  lemma NextKeepsOperations(s: Sys, e: Event)
    requires OwnOperations(s)
    ensures OwnOperations(Next(s, e)) && SameOperations(s, Next(s, e))
  {
    NextKeepsProcs(s, e);
    NextAddsOwnEffect(s, e);
  }

  lemma {:induction false} RunKeepsOperations(s: Sys, events: seq<Event>)
    requires OwnOperations(s)
    ensures OwnOperations(Run(s, events)) && SameOperations(s, Run(s, events))
    decreases |events|
  {
    if events != [] {
      NextKeepsOperations(s, events[0]);
      RunKeepsOperations(Next(s, events[0]), events[1..]);
    }
  }

  lemma {:induction false} EffectsOnlyGrow(s: Sys, events: seq<Event>)
    ensures s.lin <= Run(s, events).lin && |Run(s, events).procs| == |s.procs|
    decreases |events|
  {
    if events != [] {
      NextEffectsGrow(s, events[0]);
      EffectsOnlyGrow(Next(s, events[0]), events[1..]);
    }
  }

  lemma {:induction false} RunSplits(s: Sys, a: seq<Event>, b: seq<Event>)
    ensures Run(s, a + b) == Run(Run(s, a), b)
    decreases |a|
  {
    if a == [] {
      assert a + b == b;
    } else {
      assert (a + b)[1..] == a[1..] + b;
      RunSplits(Next(s, a[0]), a[1..], b);
    }
  }

  /** What a caller sees of its operation: an operation that returned without an error has exactly one effect, with
      the result it returned; one that returned an error or has not started has none; no operation has two. */
  predicate Explained(t: Sys, p: nat)
    requires p < |t.procs|
  {
    && (t.procs[p].pc.Returned? ==> Outcome(t.lin, p, t.procs[p].op, t.procs[p].pc.res))
    && (t.procs[p].pc.Idle? ==> NoEffect(t.lin, p))
    && AtMostOne(t.lin, p)
  }

  /** Real-time order: an operation that returned before another one started takes effect first. */
  lemma EffectsRespectRealTime(s: Sys, before: seq<Event>, after: seq<Event>, p: nat, q: nat, i: nat, j: nat)
    requires Initial(s) && p < |s.procs| && q < |s.procs|
    requires var mid := Run(s, before);
             p < |mid.procs| && q < |mid.procs| && mid.procs[p].pc.Returned? && mid.procs[q].pc.Idle?
    requires var lin := Run(s, before + after).lin;
             i < |lin| && j < |lin| && lin[i].proc == p && lin[j].proc == q
    ensures i < j
  {
    var mid := Run(s, before);
    RunSplits(s, before, after);
    EffectsOnlyGrow(mid, after);
    RunKeepsFree(s.target, s, before);
    assert ProcInv(mid.lin, p, mid.procs[p]) && ProcInv(mid.lin, q, mid.procs[q]);
    RunKeepsFree(s.target, s, before + after);
    var end := Run(s, before + after);
    ReturnedStays(mid, after, p);
    assert ProcInv(end.lin, p, end.procs[p]);
    assert j >= |mid.lin| by { NotYet(mid.lin, end.lin, q, j); }
    if IsError(mid.procs[p].pc.res) {
      assert false;
    }
    var k :| 0 <= k < |mid.lin| && mid.lin[k] == Effect(p, mid.procs[p].op, mid.procs[p].pc.res);
    assert end.lin[k].proc == p;
    assert i == k;
  }

  lemma NotYet(sooner: seq<Effect>, later: seq<Effect>, q: nat, j: nat)
    requires sooner <= later && j < |later| && later[j].proc == q
    requires forall k :: 0 <= k < |sooner| ==> sooner[k].proc != q
    ensures j >= |sooner|
  {
  }

  lemma {:induction false} ReturnedStays(s: Sys, events: seq<Event>, p: nat)
    requires p < |s.procs| && s.procs[p].pc.Returned?
    ensures p < |Run(s, events).procs| && Run(s, events).procs[p] == s.procs[p]
    decreases |events|
  {
    if events != [] {
      ReturnedStays(Next(s, events[0]), events[1..], p);
    }
  }

  // ------------------------------------------------------------------ the exact condition

  /** A compare-and-set at its rename, over another value than the one it compared. */
  predicate StaleCommit(s: Sys, e: Event) {
    && e.Step? && e.p < |s.procs| && s.procs[e.p].pc.Owned? && s.procs[e.p].op.Cas?
    && s.target != s.procs[e.p].op.expected
  }

  predicate NoStaleCommit(s: Sys, events: seq<Event>)
    decreases |events|
  {
    events == [] || (!StaleCommit(s, events[0]) && NoStaleCommit(Next(s, events[0]), events[1..]))
  }

  /** The effects are those of a register that starts with `init`, and the target is its value. */
  ghost predicate InOrder(init: Option<Bytes>, s: Sys) {
    Sequential(init, s.lin) && s.target == Replay(init, s.lin)
  }

  lemma ReplayAppend(init: Option<Bytes>, lin: seq<Effect>, e: Effect)
    requires Sequential(init, lin) && e.res == Apply(e.op, Replay(init, lin)).1
    ensures Sequential(init, lin + [e])
    ensures Replay(init, lin + [e]) == Apply(e.op, Replay(init, lin)).0
  {
    assert (lin + [e])[..|lin|] == lin;
    forall i | 0 <= i < |lin + [e]|
      ensures (lin + [e])[i].res == Apply((lin + [e])[i].op, Replay(init, (lin + [e])[..i])).1
    {
      if i < |lin| {
        assert (lin + [e])[..i] == lin[..i];
      }
    }
  }

  lemma WrongAppend(init: Option<Bytes>, lin: seq<Effect>, e: Effect)
    requires e.res != Apply(e.op, Replay(init, lin)).1
    ensures !Sequential(init, lin + [e])
  {
    assert (lin + [e])[..|lin|] == lin && (lin + [e])[|lin|] == e;
  }

  lemma SequentialPrefix(init: Option<Bytes>, a: seq<Effect>, b: seq<Effect>)
    requires a <= b && Sequential(init, b)
    ensures Sequential(init, a)
  {
    forall i | 0 <= i < |a|
      ensures a[i].res == Apply(a[i].op, Replay(init, a[..i])).1
    {
      assert b[..i] == a[..i] && b[i] == a[i];
    }
  }

  /** The effect of a rename or unlink, and the value it leaves. */
  function CommitRes(s: Sys, op: Op): Res {
    match op
    case Delete => if s.target.Some? then Deleted else KeyMissing
    case Cas(_, _) => Swapped(true)
    case _ => Stored
  }

  lemma CommitAdds(s: Sys, p: nat, tmp: Bytes)
    requires p < |s.procs|
    ensures var op := s.procs[p].op;
            && Commit(s, p, tmp).lin == s.lin + [Effect(p, op, CommitRes(s, op))]
            && Commit(s, p, tmp).target == if op.Delete? then None else Some(tmp)
  {
  }

  /** On the value it compared a commit is the operation on a register; a stale one reports the wrong result. */
  lemma CommitApplies(s: Sys, op: Op)
    requires !op.Get?
    ensures op.Cas? && s.target != op.expected ==> CommitRes(s, op) != Apply(op, s.target).1
    ensures !(op.Cas? && s.target != op.expected) ==>
              Apply(op, s.target) == (if op.Delete? then None else Some(Payload(op)), CommitRes(s, op))
  {
  }

  lemma CommitIsInOrder(init: Option<Bytes>, s: Sys, p: nat, tmp: Bytes)
    requires p < |s.procs| && s.procs[p].pc == Owned(tmp) && ProcInv(s.lin, p, s.procs[p]) && InOrder(init, s)
    ensures if StaleCommit(s, Step(p)) then !Sequential(init, Commit(s, p, tmp).lin)
            else InOrder(init, Commit(s, p, tmp))
  {
    var op := s.procs[p].op;
    CommitAdds(s, p, tmp);
    CommitApplies(s, op);
    if StaleCommit(s, Step(p)) {
      WrongAppend(init, s.lin, Effect(p, op, CommitRes(s, op)));
    } else {
      ReplayAppend(init, s.lin, Effect(p, op, CommitRes(s, op)));
    }
  }

  /** A comparison that fails is an effect that changes nothing. */
  lemma EnterIsInOrder(init: Option<Bytes>, s: Sys, p: nat)
    requires p < |s.procs| && InOrder(init, s)
    ensures InOrder(init, Enter(s, p))
  {
    if s.procs[p].op.Cas? && s.target != s.procs[p].op.expected {
      ReplayAppend(init, s.lin, Effect(p, s.procs[p].op, Swapped(false)));
    }
  }

  lemma ReadIsInOrder(init: Option<Bytes>, s: Sys, p: nat)
    requires p < |s.procs| && s.procs[p].pc == Reading && s.procs[p].op.Get? && InOrder(init, s)
    ensures InOrder(init, Advance(s, p))
  {
    ReplayAppend(init, s.lin, Effect(p, s.procs[p].op, Value(s.target)));
  }

  lemma StepInOrder(init: Option<Bytes>, s: Sys, p: nat)
    requires p < |s.procs| && ProcInv(s.lin, p, s.procs[p]) && InOrder(init, s) && !s.procs[p].pc.Owned?
    ensures InOrder(init, Advance(s, p))
  {
    if s.procs[p].pc.Holding? {
      EnterIsInOrder(init, s, p);
    } else if s.procs[p].pc.Reading? {
      ReadIsInOrder(init, s, p);
    } else {
      QuietStep(s, p);
    }
  }

  /** One event keeps the effects in order exactly when it is no stale commit. */
  lemma NextInOrder(init: Option<Bytes>, s: Sys, e: Event)
    requires FreeInv(init, s) && InOrder(init, s)
    ensures if StaleCommit(s, e) then !Sequential(init, Next(s, e).lin) else InOrder(init, Next(s, e))
  {
    if !e.Step? {
      QuietEvent(s, e);
    } else if e.p < |s.procs| {
      assert ProcInv(s.lin, e.p, s.procs[e.p]);
      if s.procs[e.p].pc.Owned? {
        CommitIsInOrder(init, s, e.p, s.procs[e.p].pc.tmp);
      } else {
        StepInOrder(init, s, e.p);
      }
    }
  }

  lemma {:induction false} RunInOrder(init: Option<Bytes>, s: Sys, events: seq<Event>)
    requires FreeInv(init, s) && InOrder(init, s)
    ensures if NoStaleCommit(s, events) then InOrder(init, Run(s, events)) else !Sequential(init, Run(s, events).lin)
    decreases |events|
  {
    if events != [] {
      var next := Next(s, events[0]);
      NextInOrder(init, s, events[0]);
      if StaleCommit(s, events[0]) {
        EffectsOnlyGrow(next, events[1..]);
        if Sequential(init, Run(s, events).lin) {
          SequentialPrefix(init, next.lin, Run(s, events).lin);
        }
      } else {
        NextKeepsFree(init, s, events[0]);
        RunInOrder(init, next, events[1..]);
      }
    }
  }

  /** Run `t` from `s` is that of a linearizable register: its effects are the processes' operations as invoked, one
      after another they give every effect's result and the file's value, and they explain what every caller sees. */
  ghost predicate Linearized(s: Sys, t: Sys) {
    && Sequential(s.target, t.lin) && t.target == Replay(s.target, t.lin)
    && |t.procs| == |s.procs|
    && (forall i :: 0 <= i < |t.lin| ==> t.lin[i].proc < |s.procs| && t.lin[i].op == s.procs[t.lin[i].proc].op)
    && forall p :: 0 <= p < |t.procs| ==> Explained(t, p)
  }

  /** With no hypothesis: what every caller sees is explained by its own effect, in every run. */
  lemma AlwaysExplained(s: Sys, events: seq<Event>)
    requires Initial(s)
    ensures var t := Run(s, events);
            && |t.procs| == |s.procs|
            && (forall i :: 0 <= i < |t.lin| ==> t.lin[i].proc < |s.procs| && t.lin[i].op == s.procs[t.lin[i].proc].op)
            && forall p :: 0 <= p < |t.procs| ==> Explained(t, p)
  {
    RunKeepsFree(s.target, s, events);
    RunKeepsOperations(s, events);
    var t := Run(s, events);
    forall p | 0 <= p < |t.procs|
      ensures Explained(t, p)
    {
      assert ProcInv(t.lin, p, t.procs[p]);
    }
  }

  /** The exact condition, for every run of any number of processes with crashes and errors anywhere: the run is
      linearized by its effects if and only if no compare-and-set renames over a value it did not compare. Without
      that it fails in the results: the effects are not even sequential. */
  lemma LinearizableExactly(s: Sys, events: seq<Event>)
    requires Initial(s)
    ensures Linearized(s, Run(s, events)) <==> NoStaleCommit(s, events)
    ensures Sequential(s.target, Run(s, events).lin) <==> NoStaleCommit(s, events)
  {
    RunInOrder(s.target, s, events);
    AlwaysExplained(s, events);
  }

  lemma {:induction false} NoCasNoStaleCommit(s: Sys, events: seq<Event>)
    requires forall p :: 0 <= p < |s.procs| ==> !s.procs[p].op.Cas?
    ensures NoStaleCommit(s, events)
    decreases |events|
  {
    if events != [] {
      NextKeepsProcs(s, events[0]);
      NoCasNoStaleCommit(Next(s, events[0]), events[1..]);
    }
  }

  /** Get, set and delete need no hypothesis about time: where no process runs a compare-and-set, every run is
      linearized. */
  lemma LinearizableWithoutCas(s: Sys, events: seq<Event>)
    requires Initial(s) && forall p :: 0 <= p < |s.procs| ==> !s.procs[p].op.Cas?
    ensures Linearized(s, Run(s, events))
  {
    NoCasNoStaleCommit(s, events);
    LinearizableExactly(s, events);
  }
}
