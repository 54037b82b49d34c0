/**
 The file store's per-key lock and the operations under it, as a transition system over the files of
 one key: the target file, the lock directory with its owner file and its age, temporaries and the
 names locks are moved to. Any number of processes run, one operation each, in any interleaving.
 */
module FileLock {
  import opened Common

  datatype Op =
    | Get
    | Set(value: Bytes)
    | Delete
    | Cas(expected: Option<Bytes>, value: Bytes)

  datatype Res =
    | Value(found: Option<Bytes>)
    | Stored
    | Deleted
    | KeyMissing
    | Swapped(ok: bool)
    | TimedOut
    | LockLost
    | IoError

  /** A lock directory: its identity and maker are auxiliary; `owner` is the token in its owner file,
      which is the process that wrote it; `stale` says it was not refreshed for too long. */
  datatype LockDir = LockDir(id: nat, maker: nat, owner: Option<nat>, stale: bool)

  datatype Pc =
    | Idle
    | Reading
    | Trying
    | CheckingAge
    | Suspecting(id: nat)
    | Moved(dir: LockDir)
    | PuttingBack(dir: LockDir)
    | Made
    | MakeLost
    | MakeFailed
    | Holding
    | Writing(tmp: Bytes)
    | Ready(tmp: Bytes)
    | Owned(tmp: Bytes)
    | Leaving(res: Res)
    | Removing(res: Res)
    | RemovingDir(res: Res)
    | Finishing(res: Res)
    | Returned(res: Res)
    | Crashed

  /** `lid` is the identity of the lock directory this process made last (auxiliary). */
  datatype Proc = Proc(op: Op, pc: Pc, lid: nat)

  /** An operation taking effect at one instant. */
  datatype Effect = Effect(proc: nat, op: Op, res: Res)

  /** `lin` lists the effects so far in order (auxiliary). */
  datatype Sys = Sys(target: Option<Bytes>, lock: Option<LockDir>, nextId: nat, procs: seq<Proc>, lin: seq<Effect>)

  datatype Event =
    | Step(p: nat)
    | GiveUp(p: nat)
    | Fault(p: nat)
    | Crash(p: nat)
    | Beat(p: nat)
    | AgeLock
    | AgeMoved(p: nat)

  function To(s: Sys, p: nat, pc: Pc): Sys
    requires p < |s.procs|
  {
    s.(procs := s.procs[p := s.procs[p].(pc := pc)])
  }

  function Took(s: Sys, p: nat, res: Res): Sys
    requires p < |s.procs|
  {
    s.(lin := s.lin + [Effect(p, s.procs[p].op, res)])
  }

  /** The value a writing operation puts into its temporary file. */
  function Payload(op: Op): Bytes {
    match op
    case Set(v) => v
    case Cas(_, v) => v
    case _ => []
  }

  /** `mkdir` on the lock path. */
  function TryMake(s: Sys, p: nat): Sys
    requires p < |s.procs|
  {
    if s.lock.Some? then To(s, p, CheckingAge)
    else
      s.(lock := Some(LockDir(s.nextId, p, None, false)), nextId := s.nextId + 1,
         procs := s.procs[p := s.procs[p].(pc := Made, lid := s.nextId)])
  }

  /** Writing the owner file by path: into whatever directory is there now. */
  function WriteOwner(s: Sys, p: nat): Sys
    requires p < |s.procs|
  {
    match s.lock
    case None => To(s, p, MakeLost)
    case Some(d) => To(s, p, Holding).(lock := Some(d.(owner := Some(p), stale := false)))
  }

  function CheckAge(s: Sys, p: nat): Sys
    requires p < |s.procs|
  {
    if s.lock.Some? && s.lock.value.stale then To(s, p, Suspecting(s.lock.value.id)) else To(s, p, Trying)
  }

  /** Rename the lock path away: whatever directory is there now is moved. */
  function MoveAway(s: Sys, p: nat): Sys
    requires p < |s.procs|
  {
    match s.lock
    case None => To(s, p, Trying)
    case Some(d) => To(s, p, Moved(d)).(lock := None)
  }

  /** Check the age again on what was moved: a live one is put back, a stale one removed. */
  function Recheck(s: Sys, p: nat, d: LockDir): Sys
    requires p < |s.procs|
  {
    if d.stale then To(s, p, Trying) else To(s, p, PuttingBack(d))
  }

  /** Rename what was moved back. Like every POSIX rename of a directory it replaces an empty directory, here a
      lock whose maker has not written its owner file yet or has removed it; any other lock stays. */
  function PutBack(s: Sys, p: nat, d: LockDir): Sys
    requires p < |s.procs|
  {
    if s.lock.None? || s.lock.value.owner.None? then To(s, p, Trying).(lock := Some(d)) else To(s, p, Trying)
  }

  /** The start of the body under the lock; a compare-and-set compares here. */
  function Enter(s: Sys, p: nat): Sys
    requires p < |s.procs|
  {
    match s.procs[p].op
    case Cas(expected, _) =>
      if s.target == expected then To(s, p, Writing([]))
      else To(Took(s, p, Swapped(false)), p, Leaving(Swapped(false)))
    case Set(_) => To(s, p, Writing([]))
    case _ => To(s, p, Ready([]))
  }

  function WriteByte(s: Sys, p: nat, tmp: Bytes): Sys
    requires p < |s.procs|
  {
    var v := Payload(s.procs[p].op);
    if |tmp| < |v| then To(s, p, Writing(tmp + [v[|tmp|]])) else To(s, p, Ready(tmp))
  }

  predicate OwnerIs(s: Sys, p: nat) {
    s.lock.Some? && s.lock.value.owner == Some(p)
  }

  function CheckOwner(s: Sys, p: nat, tmp: Bytes): Sys
    requires p < |s.procs|
  {
    To(s, p, if OwnerIs(s, p) then Owned(tmp) else Leaving(LockLost))
  }

  /** The rename over the target, or the unlink of the target. */
  function Commit(s: Sys, p: nat, tmp: Bytes): Sys
    requires p < |s.procs|
  {
    match s.procs[p].op
    case Delete =>
      var res := if s.target.Some? then Deleted else KeyMissing;
      To(Took(s, p, res), p, Leaving(res)).(target := None)
    case Cas(_, _) => To(Took(s, p, Swapped(true)), p, Leaving(Swapped(true))).(target := Some(tmp))
    case _ => To(Took(s, p, Stored), p, Leaving(Stored)).(target := Some(tmp))
  }

  function RemoveOwner(s: Sys, p: nat, res: Res): Sys
    requires p < |s.procs|
  {
    match s.lock
    case None => To(s, p, Finishing(res))
    case Some(d) => To(s, p, RemovingDir(res)).(lock := Some(d.(owner := None, stale := false)))
  }

  /** `rmdir` fails on a directory that holds an owner file again. */
  function RemoveDir(s: Sys, p: nat, res: Res): Sys
    requires p < |s.procs|
  {
    if s.lock.Some? && s.lock.value.owner.Some? then To(s, p, Finishing(res))
    else To(s, p, Finishing(res)).(lock := None)
  }

  function Advance(s: Sys, p: nat): Sys
    requires p < |s.procs|
  {
    match s.procs[p].pc
    case Idle => To(s, p, if s.procs[p].op.Get? then Reading else Trying)
    case Reading => To(Took(s, p, Value(s.target)), p, Finishing(Value(s.target)))
    case Trying => TryMake(s, p)
    case CheckingAge => CheckAge(s, p)
    case Suspecting(_) => MoveAway(s, p)
    case Moved(d) => Recheck(s, p, d)
    case PuttingBack(d) => PutBack(s, p, d)
    case Made => WriteOwner(s, p)
    case MakeLost => To(s, p, Trying).(lock := None)
    case MakeFailed => To(s, p, Finishing(IoError)).(lock := None)
    case Holding => Enter(s, p)
    case Writing(tmp) => WriteByte(s, p, tmp)
    case Ready(tmp) => CheckOwner(s, p, tmp)
    case Owned(tmp) => Commit(s, p, tmp)
    case Leaving(res) => To(s, p, if OwnerIs(s, p) then Removing(res) else Finishing(res))
    case Removing(res) => RemoveOwner(s, p, res)
    case RemovingDir(res) => RemoveDir(s, p, res)
    case Finishing(res) => To(s, p, Returned(res))
    case _ => s
  }

  /** The body under the lock, during which the heartbeat runs. */
  predicate InBody(pc: Pc) {
    pc.Holding? || pc.Writing? || pc.Ready? || pc.Owned?
  }

  /** An error of the file system. What a breaker does is abandoned, and an error while a lock is removed leaves it
      there; both are suppressed. An owner file that cannot be read counts as another's, so the lock is lost. If the
      owner file cannot be written the lock is removed. All other errors are raised. */
  function Failing(s: Sys, p: nat): Sys
    requires p < |s.procs|
  {
    match s.procs[p].pc
    case Reading => To(s, p, Finishing(IoError))
    case Trying => To(s, p, Finishing(IoError))
    case CheckingAge => To(s, p, Trying)
    case Suspecting(_) => To(s, p, Trying)
    case Moved(_) => To(s, p, Trying)
    case PuttingBack(_) => To(s, p, Trying)
    case Made => To(s, p, MakeFailed)
    case MakeLost => To(s, p, Trying)
    case MakeFailed => To(s, p, Finishing(IoError))
    case Holding => To(s, p, Leaving(IoError))
    case Writing(_) => To(s, p, Leaving(IoError))
    case Ready(_) => To(s, p, Leaving(LockLost))
    case Owned(_) => To(s, p, Leaving(IoError))
    case Leaving(res) => To(s, p, Finishing(res))
    case Removing(res) => To(s, p, Finishing(res))
    case RemovingDir(res) => To(s, p, Finishing(res))
    case _ => s
  }

  function Next(s: Sys, e: Event): Sys {
    match e
    case AgeLock => (match s.lock case None => s case Some(d) => s.(lock := Some(d.(stale := true))))
    case Step(p) => if p < |s.procs| then Advance(s, p) else s
    case GiveUp(p) => if p < |s.procs| && s.procs[p].pc.Trying? then To(s, p, Finishing(TimedOut)) else s
    case Fault(p) => if p < |s.procs| then Failing(s, p) else s
    case Crash(p) => if p < |s.procs| && !s.procs[p].pc.Returned? then To(s, p, Crashed) else s
    case Beat(p) =>
      if p < |s.procs| && InBody(s.procs[p].pc) && s.lock.Some?
      then s.(lock := Some(s.lock.value.(stale := false))) else s
    case AgeMoved(p) =>
      if p < |s.procs| && s.procs[p].pc.Moved? then To(s, p, Moved(s.procs[p].pc.dir.(stale := true))) else s
  }

  function Run(s: Sys, events: seq<Event>): Sys
    decreases |events|
  {
    if events == [] then s else Run(Next(s, events[0]), events[1..])
  }

  predicate Initial(s: Sys) {
    && s.lin == [] && s.lock == None
    && forall p :: 0 <= p < |s.procs| ==> s.procs[p].pc == Idle
  }

  // ------------------------------------------------------------------ the sequential register

  /** What one operation does to a value when nothing else runs. */
  function Apply(op: Op, v: Option<Bytes>): (Option<Bytes>, Res) {
    match op
    case Get => (v, Value(v))
    case Set(x) => (Some(x), Stored)
    case Delete => (None, if v.Some? then Deleted else KeyMissing)
    case Cas(expected, x) => if v == expected then (Some(x), Swapped(true)) else (v, Swapped(false))
  }

  /** The value after the effects, done one after another. */
  function Replay(v: Option<Bytes>, lin: seq<Effect>): Option<Bytes> {
    if lin == [] then v else Apply(lin[|lin| - 1].op, Replay(v, lin[..|lin| - 1])).0
  }

  /** Every effect has the result of its operation on the value left by the effects before it. */
  ghost predicate Sequential(v: Option<Bytes>, lin: seq<Effect>) {
    forall i :: 0 <= i < |lin| ==> lin[i].res == Apply(lin[i].op, Replay(v, lin[..i])).1
  }
}
