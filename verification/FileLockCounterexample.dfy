/**
 Why the second timing hypothesis is needed: a breaker that moves a fresh lock away and puts it back
 lets two compare-and-sets from the same value both succeed.
 */
module FileLockCounterexample {
  import opened Common
  import opened FileLock
  import opened FileLockProofs
  import opened FileLockExact
  import opened FileLockLinear

  /** The first hypothesis alone, along a whole run. */
  predicate Fresh(s: Sys, events: seq<Event>)
    decreases |events|
  {
    events == [] || (HolderStaysFresh(s, events[0]) && Fresh(Next(s, events[0]), events[1..]))
  }

  /** `t` can be reached from `s` while no lock goes stale that a running process holds. */
  ghost predicate Reach(s: Sys, t: Sys) {
    exists events :: Fresh(s, events) && Run(s, events) == t
  }

  lemma {:induction false} FreshSnoc(s: Sys, events: seq<Event>, e: Event)
    requires Fresh(s, events) && HolderStaysFresh(Run(s, events), e)
    ensures Fresh(s, events + [e]) && Run(s, events + [e]) == Next(Run(s, events), e)
    decreases |events|
  {
    var all := events + [e];
    if events == [] {
      assert all == [e] && all[1..] == [];
    } else {
      assert all[0] == events[0] && all[1..] == events[1..] + [e];
      FreshSnoc(Next(s, events[0]), events[1..], e);
    }
  }

  lemma Then(s: Sys, t: Sys, e: Event)
    requires Reach(s, t) && HolderStaysFresh(t, e)
    ensures Reach(s, Next(t, e))
  {
    var events :| Fresh(s, events) && Run(s, events) == t;
    FreshSnoc(s, events, e);
  }

  /** Process `p` takes one step, to the given state. */
  lemma Go(s: Sys, t: Sys, p: nat, u: Sys)
    requires Reach(s, t) && p < |t.procs| && Advance(t, p) == u
    ensures Reach(s, u)
  {
    Then(s, t, Step(p));
  }

  const OP0 := Set([])
  const OP2 := Cas(None, [1])
  const OP3 := Cas(None, [2])

  /** A state of the four processes, by program counter; processes 0 and 1 store an empty value. */
  function St(target: Option<Bytes>, lock: Option<LockDir>, nextId: nat, k0: Pc, k1: Pc, k2: Proc, k3: Proc,
              lin: seq<Effect>): Sys {
    Sys(target, lock, nextId, [Proc(OP0, k0, 0), Proc(OP0, k1, 0), k2, k3], lin)
  }

  function P2(pc: Pc, lid: nat): Proc { Proc(OP2, pc, lid) }

  function P3(pc: Pc, lid: nat): Proc { Proc(OP3, pc, lid) }

  function Lock(id: nat, maker: nat, owner: Option<nat>): Option<LockDir> { Some(LockDir(id, maker, owner, false)) }

  const WON := Swapped(true)
  const STALE := LockDir(0, 0, None, true)
  const FRESH := LockDir(1, 2, Some(2), false)
  const FIRST := Effect(3, OP3, WON)
  const SECOND := Effect(2, OP2, WON)

  const START := St(None, None, 0, Idle, Idle, P2(Idle, 0), P3(Idle, 0), [])
  const DEAD := St(None, Some(STALE), 1, Crashed, Idle, P2(Idle, 0), P3(Idle, 0), [])
  const SEEN := St(None, Some(STALE), 1, Crashed, Suspecting(0), P2(Idle, 0), P3(Idle, 0), [])
  const BROKEN := St(None, None, 1, Crashed, Suspecting(0), P2(Trying, 0), P3(Idle, 0), [])
  const WRITING := St(None, Some(FRESH), 2, Crashed, Suspecting(0), P2(Writing([]), 1), P3(Idle, 0), [])
  const COMPARED := St(None, Some(FRESH), 2, Crashed, Suspecting(0), P2(Ready([1]), 1), P3(Idle, 0), [])
  const MOVED := St(None, None, 2, Crashed, Moved(FRESH), P2(Ready([1]), 1), P3(Idle, 0), [])
  const ENTERED := St(None, Lock(2, 3, Some(3)), 3, Crashed, Moved(FRESH), P2(Ready([1]), 1), P3(Writing([]), 2), [])
  const OTHER := St(None, Lock(2, 3, Some(3)), 3, Crashed, Moved(FRESH), P2(Ready([1]), 1), P3(Ready([2]), 2), [])
  const STORED := St(Some([2]), Lock(2, 3, Some(3)), 3, Crashed, Moved(FRESH), P2(Ready([1]), 1),
                     P3(Removing(WON), 2), [FIRST])
  const OVERTAKEN := St(Some([2]), None, 3, Crashed, Moved(FRESH), P2(Ready([1]), 1), P3(Returned(WON), 2), [FIRST])
  const RESTORED := St(Some([2]), Some(FRESH), 3, Crashed, Trying, P2(Ready([1]), 1), P3(Returned(WON), 2), [FIRST])
  const CLOBBERED := St(Some([1]), Some(FRESH), 3, Crashed, Trying, P2(Removing(WON), 1), P3(Returned(WON), 2),
                        [FIRST, SECOND])
  const OVERWRITTEN := St(Some([1]), None, 3, Crashed, Trying, P2(Returned(WON), 1), P3(Returned(WON), 2),
                          [FIRST, SECOND])

  /** Process 0 makes the lock and dies, and the lock goes stale. */
  lemma MakeAndDie()
    ensures Reach(START, DEAD)
  {
    assert Fresh(START, []) && Run(START, []) == START;
    var a := St(None, None, 0, Trying, Idle, P2(Idle, 0), P3(Idle, 0), []);
    Go(START, START, 0, a);
    var b := St(None, Lock(0, 0, None), 1, Made, Idle, P2(Idle, 0), P3(Idle, 0), []);
    Go(START, a, 0, b);
    Then(START, b, Crash(0));
    Then(START, Next(b, Crash(0)), AgeLock);
    assert Next(Next(b, Crash(0)), AgeLock) == DEAD;
  }

  /** Process 1 finds the stale lock. */
  lemma See()
    requires Reach(START, DEAD)
    ensures Reach(START, SEEN)
  {
    var c := St(None, Some(STALE), 1, Crashed, Trying, P2(Idle, 0), P3(Idle, 0), []);
    Go(START, DEAD, 1, c);
    var d := St(None, Some(STALE), 1, Crashed, CheckingAge, P2(Idle, 0), P3(Idle, 0), []);
    Go(START, c, 1, d);
    Go(START, d, 1, SEEN);
  }

  /** Process 2 breaks the stale lock. */
  lemma Break()
    requires Reach(START, SEEN)
    ensures Reach(START, BROKEN)
  {
    var a := St(None, Some(STALE), 1, Crashed, Suspecting(0), P2(Trying, 0), P3(Idle, 0), []);
    Go(START, SEEN, 2, a);
    var b := St(None, Some(STALE), 1, Crashed, Suspecting(0), P2(CheckingAge, 0), P3(Idle, 0), []);
    Go(START, a, 2, b);
    var c := St(None, Some(STALE), 1, Crashed, Suspecting(0), P2(Suspecting(0), 0), P3(Idle, 0), []);
    Go(START, b, 2, c);
    var d := St(None, None, 1, Crashed, Suspecting(0), P2(Moved(STALE), 0), P3(Idle, 0), []);
    Go(START, c, 2, d);
    Go(START, d, 2, BROKEN);
  }

  /** It takes a fresh lock and compares; then it writes its temporary and stops before its owner check. */
  lemma Compare()
    requires Reach(START, BROKEN)
    ensures Reach(START, WRITING)
  {
    var a := St(None, Lock(1, 2, None), 2, Crashed, Suspecting(0), P2(Made, 1), P3(Idle, 0), []);
    Go(START, BROKEN, 2, a);
    var b := St(None, Some(FRESH), 2, Crashed, Suspecting(0), P2(Holding, 1), P3(Idle, 0), []);
    Go(START, a, 2, b);
    Go(START, b, 2, WRITING);
  }

  lemma WriteOwn()
    requires Reach(START, WRITING)
    ensures Reach(START, COMPARED)
  {
    var c := WRITING;
    var d := St(None, Some(FRESH), 2, Crashed, Suspecting(0), P2(Writing([1]), 1), P3(Idle, 0), []);
    assert WriteByte(c, 2, []).procs[2] == d.procs[2] by { assert [] + [OP2.value[0]] == [1]; }
    Go(START, c, 2, d);
    Go(START, d, 2, COMPARED);
  }

  /** Process 1 moves the fresh lock away, and process 3 gets as far with a lock of its own. */
  lemma MoveFresh()
    requires Reach(START, COMPARED)
    ensures Reach(START, ENTERED)
  {
    Go(START, COMPARED, 1, MOVED);
    var a := St(None, None, 2, Crashed, Moved(FRESH), P2(Ready([1]), 1), P3(Trying, 0), []);
    Go(START, MOVED, 3, a);
    var b := St(None, Lock(2, 3, None), 3, Crashed, Moved(FRESH), P2(Ready([1]), 1), P3(Made, 2), []);
    Go(START, a, 3, b);
    var c := St(None, Lock(2, 3, Some(3)), 3, Crashed, Moved(FRESH), P2(Ready([1]), 1), P3(Holding, 2), []);
    Go(START, b, 3, c);
    Go(START, c, 3, ENTERED);
  }

  lemma WriteOther()
    requires Reach(START, ENTERED)
    ensures Reach(START, OTHER)
  {
    var d := ENTERED;
    var e := St(None, Lock(2, 3, Some(3)), 3, Crashed, Moved(FRESH), P2(Ready([1]), 1), P3(Writing([2]), 2), []);
    assert WriteByte(d, 3, []).procs[3] == e.procs[3] by { assert [] + [OP3.value[0]] == [2]; }
    Go(START, d, 3, e);
    Go(START, e, 3, OTHER);
  }

  /** Process 3 commits and releases. */
  lemma Overtake()
    requires Reach(START, OTHER)
    ensures Reach(START, STORED)
  {
    var a := St(None, Lock(2, 3, Some(3)), 3, Crashed, Moved(FRESH), P2(Ready([1]), 1), P3(Owned([2]), 2), []);
    Go(START, OTHER, 3, a);
    var b := St(Some([2]), Lock(2, 3, Some(3)), 3, Crashed, Moved(FRESH), P2(Ready([1]), 1), P3(Leaving(WON), 2),
                [FIRST]);
    assert [] + [FIRST] == [FIRST];
    Go(START, a, 3, b);
    Go(START, b, 3, STORED);
  }

  lemma Release()
    requires Reach(START, STORED)
    ensures Reach(START, OVERTAKEN)
  {
    var c := STORED;
    var d := St(Some([2]), Lock(2, 3, None), 3, Crashed, Moved(FRESH), P2(Ready([1]), 1), P3(RemovingDir(WON), 2),
                [FIRST]);
    Go(START, c, 3, d);
    var e := St(Some([2]), None, 3, Crashed, Moved(FRESH), P2(Ready([1]), 1), P3(Finishing(WON), 2), [FIRST]);
    Go(START, d, 3, e);
    Go(START, e, 3, OVERTAKEN);
  }

  /** Process 1 finds the moved lock live and puts it back. */
  lemma Restore()
    requires Reach(START, OVERTAKEN)
    ensures Reach(START, RESTORED)
  {
    var a := St(Some([2]), None, 3, Crashed, PuttingBack(FRESH), P2(Ready([1]), 1), P3(Returned(WON), 2), [FIRST]);
    Go(START, OVERTAKEN, 1, a);
    Go(START, a, 1, RESTORED);
  }

  /** Process 2 still owns that lock and renames over the newer value. */
  lemma Overwrite()
    requires Reach(START, RESTORED)
    ensures Reach(START, CLOBBERED)
  {
    var a := St(Some([2]), Some(FRESH), 3, Crashed, Trying, P2(Owned([1]), 1), P3(Returned(WON), 2), [FIRST]);
    Go(START, RESTORED, 2, a);
    var b := St(Some([1]), Some(FRESH), 3, Crashed, Trying, P2(Leaving(WON), 1), P3(Returned(WON), 2), [FIRST, SECOND]);
    assert [FIRST] + [SECOND] == [FIRST, SECOND];
    Go(START, a, 2, b);
    Go(START, b, 2, CLOBBERED);
  }

  lemma ReleaseToo()
    requires Reach(START, CLOBBERED)
    ensures Reach(START, OVERWRITTEN)
  {
    var c := CLOBBERED;
    var d := St(Some([1]), Lock(1, 2, None), 3, Crashed, Trying, P2(RemovingDir(WON), 1), P3(Returned(WON), 2),
                [FIRST, SECOND]);
    Go(START, c, 2, d);
    var e := St(Some([1]), None, 3, Crashed, Trying, P2(Finishing(WON), 1), P3(Returned(WON), 2), [FIRST, SECOND]);
    Go(START, d, 2, e);
    Go(START, e, 2, OVERWRITTEN);
  }

  lemma ReachTheEnd()
    ensures Reach(START, OVERWRITTEN)
  {
    MakeAndDie();
    See();
    Break();
    Compare();
    WriteOwn();
    MoveFresh();
    WriteOther();
    Overtake();
    Release();
    Restore();
    Overwrite();
    ReleaseToo();
  }

  /** Without a delete, a file that is present stays present. */
  lemma {:induction false} StaysPresent(lin: seq<Effect>, i: nat, j: nat)
    requires i <= j <= |lin| && Replay(None, lin[..i]).Some?
    requires forall k :: 0 <= k < |lin| ==> !lin[k].op.Delete?
    ensures Replay(None, lin[..j]).Some?
    decreases j
  {
    if i < j {
      StaysPresent(lin, i, j - 1);
      assert lin[..j][..j - 1] == lin[..j - 1];
    }
  }

  /** At most one compare-and-set that expects an absent file can succeed. */
  lemma OneWinner(lin: seq<Effect>, i: nat, j: nat)
    requires Sequential(None, lin) && forall k :: 0 <= k < |lin| ==> !lin[k].op.Delete?
    requires i < j < |lin| && lin[i].res == WON && lin[j].res == WON
    requires lin[i].op.Cas? && lin[j].op.Cas? && lin[i].op.expected == None
    ensures lin[j].op.expected != None
  {
    assert lin[..i + 1][..i] == lin[..i];
    assert Replay(None, lin[..i + 1]) == Apply(lin[i].op, Replay(None, lin[..i])).0;
    StaysPresent(lin, i + 1, j);
  }

  /** A sequential order of operations other than deletes, from an absent file, that holds both
      successful compare-and-sets. */
  ghost predicate ExplainsBoth(lin: seq<Effect>) {
    && Sequential(None, lin)
    && (forall k :: 0 <= k < |lin| ==> !lin[k].op.Delete?)
    && FIRST in lin && SECOND in lin
  }

  lemma NothingExplainsBoth(lin: seq<Effect>)
    ensures !ExplainsBoth(lin)
  {
    if ExplainsBoth(lin) {
      var i :| 0 <= i < |lin| && lin[i] == FIRST;
      var j :| 0 <= j < |lin| && lin[j] == SECOND;
      OneWinner(lin, if i < j then i else j, if i < j then j else i);
    }
  }

  lemma HasStaleCommit(events: seq<Event>)
    requires Initial(START) && Run(START, events) == OVERWRITTEN
    ensures !NoStaleCommit(START, events) && !Timely(START, events) && !Linearized(START, Run(START, events))
  {
    LinearizableExactly(START, events);
    if Sequential(START.target, OVERWRITTEN.lin) {
      assert ExplainsBoth(OVERWRITTEN.lin) by {
        assert OVERWRITTEN.lin[0] == FIRST && OVERWRITTEN.lin[1] == SECOND;
      }
      NothingExplainsBoth(OVERWRITTEN.lin);
      assert false;
    }
    if Timely(START, events) {
      Linearizable(START, events);
      assert false;
    }
  }

  /** With fresh locks but a breaker that may move another lock than it checked, two compare-and-sets
      that both expect an absent file both report success. No sequential order explains that, since no
      delete is running. The run has a stale commit, and the timing hypothesis it breaks is the one about what a
      breaker moves. */
  lemma TwoWinnersWithoutIt()
    ensures Initial(START) && forall p :: 0 <= p < |START.procs| ==> !START.procs[p].op.Delete?
    ensures exists events ::
              && Fresh(START, events) && !Timely(START, events) && !NoStaleCommit(START, events)
              && Run(START, events) == OVERWRITTEN
    ensures OVERWRITTEN.procs[2].op == SECOND.op && OVERWRITTEN.procs[2].pc == Returned(SECOND.res)
    ensures OVERWRITTEN.procs[3].op == FIRST.op && OVERWRITTEN.procs[3].pc == Returned(FIRST.res)
    ensures forall lin :: !ExplainsBoth(lin)
  {
    ReachTheEnd();
    var events :| Fresh(START, events) && Run(START, events) == OVERWRITTEN;
    HasStaleCommit(events);
    forall lin
      ensures !ExplainsBoth(lin)
    {
      NothingExplainsBoth(lin);
    }
  }
}
