/** The hand-off between a resolver thread and its parent (asyn-thread.c), one resolve from
    `init_resolve_thread` to the end of `destroy_async_data`, as interleaved atomic steps.

    `struct thread_data` embeds `struct thread_sync_data`: freeing the data frees the memory of both,
    destroying the sync data frees the mutex, the host name and the address list. */
module Resolver {
  import opened Bytes

  datatype Side = Nobody | Parent | Thread

  /** The next statement of the parent. */
  datatype ParentPc =
    | Create                        // done = 0, create the thread
    | StoreHandle(started: bool)    // td->thread_hnd = ..., and done = 1 when there is no thread
    | Idle                          // between calls; tdata is set
    | PollLock | PollRead | PollUnlock(seen: bool) | Backoff
    | Join(collect: bool)           // thread_wait_resolv, with or without an entry to fill
    | Collect                       // getaddrinfo_complete: hand sock_error and res to the DNS layer
    | DropRes                       // tsd->res = NULL
    | DestroyLock | DestroySwap | DestroyUnlock(seen: bool)
    | Detach                        // !done: Curl_thread_destroy(td->thread_hnd)
    | DestroyJoin                   // done: join the thread if there is a handle
    | FreeSync | FreeData
    | Finished                      // tdata is NULL

  /** The next statement of the resolver thread. */
  datatype ThreadPc =
    | NotStarted
    | Resolve | StoreResult(ok: bool)
    | Lock | Test
    | LateUnlock | LateFreeSync | LateFreeData
    | Wake | SetDone | Unlock
    | Exited

  datatype State = State(
    parent: ParentPc, thread: ThreadPc,
    // res: does the record's pointer to the address list point to it, whoever owns or freed it?
    mutex: Side, done: bool, handle: bool, error: bool, res: bool,
    syncFrees: nat, dataFrees: nat, misuse: bool,
    // history: who set done first after the start, who freed, and what happened to the result
    doneBy: Side, freedBy: Side, resolved: bool, wakeFailed: bool, collected: bool,
    // ... and to the list: is it in the DNS cache, and how often was it freed?
    cached: bool, listFrees: nat)

  /** One step: the parent's or the thread's next statement, with the outcome of what it calls, or the
      start of a call into the resolver while the parent is idle. */
  datatype Move = ParentStep(ok: bool) | ThreadStep(ok: bool) | Poll | Wait | Kill(quick: bool) | Cancel

  const START :=
    State(Create, NotStarted, Nobody, true, false, false, false, 0, 0, false,
          Nobody, Nobody, false, false, false, false, 0)

  /** A step that touches the record: misuse if the memory is gone. */
  function Touch(s: State): (t: State)
    ensures t.parent == s.parent && t.thread == s.thread && t.done == s.done && t.doneBy == s.doneBy
    ensures t.misuse == (s.misuse || s.dataFrees > 0 || s.syncFrees > 0)
  {
    s.(misuse := s.misuse || s.dataFrees > 0 || s.syncFrees > 0)
  }

  /** A step that touches only `struct thread_data` outside the sync data. */
  function TouchData(s: State): (t: State)
    ensures t.parent == s.parent && t.thread == s.thread && t.done == s.done && t.doneBy == s.doneBy
    ensures t.misuse == (s.misuse || s.dataFrees > 0)
  {
    s.(misuse := s.misuse || s.dataFrees > 0)
  }

  /** `destroy_thread_sync_data`: frees the list the record points to, and clears the pointer. */
  function FreeSyncData(s: State, side: Side): (t: State)
    ensures t.parent == s.parent && t.thread == s.thread && t.done == s.done && t.doneBy == s.doneBy
    ensures t.misuse == (s.misuse || s.dataFrees > 0 || s.syncFrees > 0)
  {
    Touch(s).(syncFrees := s.syncFrees + 1, freedBy := side,
      listFrees := s.listFrees + (if s.res then 1 else 0), res := false)
  }

  function FreeRecord(s: State): (t: State)
    ensures t.parent == s.parent && t.thread == s.thread && t.done == s.done && t.doneBy == s.doneBy
    ensures t.misuse == (s.misuse || s.dataFrees > 0)
  {
    TouchData(s).(dataFrees := s.dataFrees + 1)
  }

  function ParentNext(s: State, ok: bool): Option<State> {
    match s.parent
    case Create =>
      Some(Touch(s).(done := false, parent := StoreHandle(ok), thread := if ok then Resolve else NotStarted))
    case StoreHandle(started) =>
      if started then Some(Touch(s).(handle := true, parent := Idle))
      else Some(Touch(s).(done := true, parent := DestroyLock))
    case Idle => None
    case PollLock => if s.mutex.Nobody? then Some(Touch(s).(mutex := Parent, parent := PollRead)) else None
    case PollRead => Some(Touch(s).(parent := PollUnlock(s.done)))
    case PollUnlock(seen) => Some(Touch(s).(mutex := Nobody, parent := if seen then Collect else Backoff))
    case Backoff => Some(TouchData(s).(parent := Idle))
    case Join(collect) =>
      if s.thread.Exited? then
        Some(TouchData(s).(handle := false, parent := if collect then Collect else DestroyLock))
      else
        None
    case Collect =>
      // Curl_addrinfo_callback takes the list only with a success status, and frees it if caching fails
      var taken := s.res && !s.error;
      Some(Touch(s).(cached := s.cached || (taken && ok), listFrees := s.listFrees + (if taken && !ok then 1 else 0),
        collected := true, parent := DropRes))
    case DropRes => Some(Touch(s).(res := false, parent := DestroyLock))
    case DestroyLock => if s.mutex.Nobody? then Some(Touch(s).(mutex := Parent, parent := DestroySwap)) else None
    case DestroySwap =>
      Some(Touch(s).(done := true, doneBy := if s.done then s.doneBy else Parent, parent := DestroyUnlock(s.done)))
    case DestroyUnlock(seen) => Some(Touch(s).(mutex := Nobody, parent := if seen then DestroyJoin else Detach))
    case Detach => Some(TouchData(s).(parent := Finished))
    case DestroyJoin =>
      if !s.handle then Some(TouchData(s).(parent := FreeSync))
      else if s.thread.Exited? then Some(TouchData(s).(handle := false, parent := FreeSync))
      else None
    case FreeSync => Some(FreeSyncData(s, Parent).(parent := FreeData))
    case FreeData => Some(FreeRecord(s).(parent := Finished))
    case Finished => None
  }

  function ThreadNext(s: State, ok: bool): Option<State> {
    match s.thread
    case NotStarted => None
    case Resolve => Some(Touch(s).(res := ok, resolved := ok, thread := StoreResult(ok)))
    case StoreResult(fine) => Some(Touch(s).(error := !fine, thread := Lock))
    case Lock => if s.mutex.Nobody? then Some(Touch(s).(mutex := Thread, thread := Test)) else None
    case Test => Some(Touch(s).(thread := if s.done then LateUnlock else Wake))
    case LateUnlock => Some(Touch(s).(mutex := Nobody, thread := LateFreeSync))
    case LateFreeSync => Some(FreeSyncData(s, Thread).(thread := LateFreeData))
    case LateFreeData => Some(FreeRecord(s).(thread := Exited))
    case Wake => Some(Touch(s).(error := s.error || !ok, wakeFailed := !ok, thread := SetDone))
    case SetDone => Some(Touch(s).(done := true, doneBy := Thread, thread := Unlock))
    case Unlock => Some(Touch(s).(mutex := Nobody, thread := Exited))
    case Exited => None
  }

  /** The state after a step, or none when the step is not possible now. */
  function Next(s: State, m: Move): Option<State> {
    match m
    case ParentStep(ok) => ParentNext(s, ok)
    case ThreadStep(ok) => ThreadNext(s, ok)
    case Poll => if s.parent.Idle? then Some(s.(parent := PollLock)) else None
    case Wait => if s.parent.Idle? then Some(s.(parent := Join(true))) else None
    case Kill(quick) =>
      if !s.parent.Idle? then None
      else Some(TouchData(s).(parent := if s.handle && !quick then Join(false) else DestroyLock))
    case Cancel => if s.parent.Idle? then Some(s.(parent := DestroyLock)) else None
  }

  /** The end of a run: what the moves lead to, or none when one of them is not possible. */
  function Run(s: State, moves: seq<Move>): Option<State>
    decreases moves
  {
    if moves == [] then Some(s)
    else match Next(s, moves[0])
      case None => None
      case Some(t) => Run(t, moves[1..])
  }

  // ---------- the invariant ----------

  predicate ParentHolds(p: ParentPc) {
    p.PollRead? || p.PollUnlock? || p.DestroySwap? || p.DestroyUnlock?
  }

  predicate ThreadHolds(t: ThreadPc) {
    t.Test? || t.LateUnlock? || t.Wake? || t.SetDone? || t.Unlock?
  }

  /** The thread was too late and cleans up. */
  predicate ThreadCleans(t: ThreadPc) {
    t.LateUnlock? || t.LateFreeSync? || t.LateFreeData?
  }

  /** The thread has not yet tried the mutex. */
  predicate BeforeLock(t: ThreadPc) {
    t.Resolve? || t.StoreResult? || t.Lock?
  }

  /** The parent has seen that the thread set done. */
  predicate SawDone(p: ParentPc) {
    (p.PollUnlock? && p.seen) || (p.DestroyUnlock? && p.seen)
    || p.Collect? || p.DropRes? || p.DestroyJoin? || p.FreeSync? || p.FreeData?
  }

  /** The parent set done itself and leaves the record to the thread. */
  predicate LeavesIt(p: ParentPc) {
    (p.DestroyUnlock? && !p.seen) || p.Detach?
  }

  predicate Destroys(p: ParentPc) {
    p.DestroyLock? || p.DestroySwap? || p.DestroyUnlock? || p.DestroyJoin? || p.FreeSync? || p.FreeData? || p.Finished?
  }

  ghost predicate MutexOk(s: State) {
    && (s.mutex == Parent <==> ParentHolds(s.parent))
    && (s.mutex == Thread <==> ThreadHolds(s.thread))
  }

  /** Nobody started the thread: the parent cleans up alone. */
  ghost predicate NoThread(s: State) {
    && s.thread.NotStarted? && s.doneBy.Nobody? && !s.handle && !s.resolved && !s.error
    && ((s.parent.StoreHandle? && !s.parent.started) || (s.done && Destroys(s.parent) && !LeavesIt(s.parent)))
  }

  ghost predicate Started(s: State) {
    && !s.thread.NotStarted? && !s.parent.Create? && !(s.parent.StoreHandle? && !s.parent.started)
    && s.done == !s.doneBy.Nobody?
    && (s.doneBy == Thread ==> s.thread.Unlock? || s.thread.Exited?)
    && (s.doneBy == Parent ==> LeavesIt(s.parent) || s.parent.Finished?)
    && (LeavesIt(s.parent) ==> s.doneBy == Parent)
    && (s.thread.Unlock? || SawDone(s.parent) ==> s.doneBy == Thread)
    && (ThreadCleans(s.thread) ==> s.doneBy == Parent)
    && (s.thread.Wake? || s.thread.SetDone? ==> !s.done)
    && (s.thread.Exited? || s.parent.Finished? ==> s.done)
    && (s.parent.FreeSync? || s.parent.FreeData? ==> s.thread.Exited?)
    && (s.parent.Finished? && s.doneBy == Thread ==> s.thread.Exited?)
    && (s.parent.DestroyUnlock? && !s.parent.seen ==> BeforeLock(s.thread))
    && (!s.handle ==> s.parent.StoreHandle? || s.thread.Exited?)
  }

  function Frees(first: bool, second: bool): nat {
    if first || second then 1 else 0
  }

  ghost predicate FreesOk(s: State) {
    && s.syncFrees == (if s.doneBy == Parent then Frees(s.thread.LateFreeData?, s.thread.Exited?)
                       else Frees(s.parent.FreeData?, s.parent.Finished?))
    && s.dataFrees == (if s.doneBy == Parent then Frees(false, s.thread.Exited?) else Frees(false, s.parent.Finished?))
    && (s.syncFrees > 0 ==> s.freedBy == if s.doneBy == Parent then Thread else Parent)
    && (s.misuse ==> s.doneBy == Parent && s.parent.Finished? && s.thread.Exited?)
  }

  ghost predicate ListOk(s: State) {
    && (s.thread.NotStarted? || s.thread.Resolve? ==> !s.resolved && !s.error)
    && (s.thread.StoreResult? ==> s.resolved == s.thread.ok && !s.error)
    && (!s.thread.NotStarted? && !s.thread.Resolve? && !s.thread.StoreResult? ==>
      s.error == (!s.resolved || s.wakeFailed))
    && (s.wakeFailed ==> (s.thread.SetDone? || s.doneBy == Thread))
    && (s.collected ==> s.doneBy == Thread && (s.parent.DropRes? || Destroys(s.parent)))
    && (s.parent.DropRes? ==> s.collected)
    && (!s.resolved ==> !s.res && !s.cached && s.listFrees == 0)
    && (s.resolved && !s.collected ==> s.res == (s.syncFrees == 0) && !s.cached && s.listFrees == Frees(false, !s.res))
    && (s.resolved && s.collected ==> s.res == s.parent.DropRes?)
    && (s.resolved && s.collected && s.error ==> !s.cached && s.listFrees == 0)
    && (s.resolved && s.collected && !s.error ==> s.listFrees == Frees(false, !s.cached))
  }

  ghost predicate Inv(s: State) {
    s == START || (MutexOk(s) && FreesOk(s) && ListOk(s) && (NoThread(s) || Started(s)))
  }

  lemma CallKeeps(s: State, ok: bool)
    requires Inv(s) && ParentNext(s, ok).Some?
    requires s.parent.Create? || s.parent.StoreHandle?
    ensures Inv(ParentNext(s, ok).value)
  {
    match s.parent
    case Create =>
    case StoreHandle(started) =>
  }

  lemma JoinKeeps(s: State, ok: bool)
    requires Inv(s) && s.parent.Join? && ParentNext(s, ok).Some?
    ensures Inv(ParentNext(s, ok).value)
  {
  }

  lemma PollKeeps(s: State, ok: bool)
    requires Inv(s) && ParentNext(s, ok).Some?
    requires s.parent.PollLock? || s.parent.PollRead? || s.parent.PollUnlock? || s.parent.Backoff?
    ensures Inv(ParentNext(s, ok).value)
  {
    match s.parent
    case PollLock =>
    case PollRead =>
    case PollUnlock(seen) =>
    case Backoff =>
  }

  lemma CollectKeeps(s: State, ok: bool)
    requires Inv(s) && (s.parent.Collect? || s.parent.DropRes?)
    ensures Inv(ParentNext(s, ok).value)
  {
    match s.parent
    case Collect =>
    case DropRes =>
  }

  lemma SwapKeeps(s: State, ok: bool)
    requires Inv(s) && ParentNext(s, ok).Some?
    requires s.parent.DestroyLock? || s.parent.DestroySwap? || s.parent.DestroyUnlock?
    ensures Inv(ParentNext(s, ok).value)
  {
    match s.parent
    case DestroyLock =>
    case DestroySwap =>
    case DestroyUnlock(seen) =>
  }

  lemma FreeKeeps(s: State, ok: bool)
    requires Inv(s) && ParentNext(s, ok).Some?
    requires s.parent.Detach? || s.parent.DestroyJoin? || s.parent.FreeSync? || s.parent.FreeData?
    ensures Inv(ParentNext(s, ok).value)
  {
    match s.parent
    case Detach =>
    case DestroyJoin =>
    case FreeSync =>
    case FreeData =>
  }

  lemma LateKeeps(s: State, ok: bool)
    requires Inv(s) && ThreadCleans(s.thread) && ThreadNext(s, ok).Some?
    ensures Inv(ThreadNext(s, ok).value)
  {
    match s.thread
    case LateUnlock =>
    case LateFreeSync =>
    case LateFreeData =>
  }

  lemma ResolveKeeps(s: State, ok: bool)
    requires Inv(s) && (BeforeLock(s.thread) || s.thread.Test?) && ThreadNext(s, ok).Some?
    ensures Inv(ThreadNext(s, ok).value)
  {
    match s.thread
    case Resolve =>
    case StoreResult(fine) =>
    case Lock =>
    case Test =>
  }

  lemma SignalKeeps(s: State, ok: bool)
    requires Inv(s) && (s.thread.Wake? || s.thread.SetDone? || s.thread.Unlock?)
    ensures Inv(ThreadNext(s, ok).value)
  {
    match s.thread
    case Wake =>
    case SetDone =>
    case Unlock =>
  }

  /** The start of a call into the resolver. */
  lemma StartKeeps(s: State, m: Move)
    requires Inv(s) && Next(s, m).Some? && !m.ParentStep? && !m.ThreadStep?
    ensures Inv(Next(s, m).value)
  {
    hide ParentNext, ThreadNext;
  }

  lemma StepKeeps(s: State, m: Move)
    requires Inv(s) && Next(s, m).Some?
    ensures Inv(Next(s, m).value)
  {
    hide Inv, Touch, TouchData, FreeSyncData, FreeRecord;
    match m
    case ParentStep(ok) =>
      if s.parent.DestroyLock? || s.parent.DestroySwap? || s.parent.DestroyUnlock? {
        SwapKeeps(s, ok);
      } else if s.parent.Detach? || Destroys(s.parent) {
        FreeKeeps(s, ok);
      } else if s.parent.Collect? || s.parent.DropRes? {
        CollectKeeps(s, ok);
      } else if s.parent.PollLock? || s.parent.PollRead? || s.parent.PollUnlock? || s.parent.Backoff? {
        PollKeeps(s, ok);
      } else if s.parent.Join? {
        JoinKeeps(s, ok);
      } else {
        CallKeeps(s, ok);
      }
    case ThreadStep(ok) =>
      if ThreadCleans(s.thread) {
        LateKeeps(s, ok);
      } else if BeforeLock(s.thread) || s.thread.Test? {
        ResolveKeeps(s, ok);
      } else {
        SignalKeeps(s, ok);
      }
    case _ => StartKeeps(s, m);
  }

  // ---------- every run ----------

  lemma {:induction false} RunKeeps(s: State, moves: seq<Move>)
    requires Inv(s) && Run(s, moves).Some?
    ensures Inv(Run(s, moves).value)
    decreases |moves|
  {
    if moves != [] {
      StepKeeps(s, moves[0]);
      RunKeeps(Next(s, moves[0]).value, moves[1..]);
    }
  }

  ghost predicate Reachable(s: State) {
    exists moves :: Run(START, moves) == Some(s)
  }

  predicate BothDone(s: State) {
    s.parent.Finished? && (s.thread.Exited? || s.thread.NotStarted?)
  }

  /** On every run the record and its sync data are freed at most once, and exactly once by the time
      both sides are done: by the side that came second to set done under the mutex. */
  lemma FreedOnce(moves: seq<Move>, s: State)
    requires Run(START, moves) == Some(s)
    ensures s.syncFrees <= 1 && s.dataFrees <= s.syncFrees
    ensures BothDone(s) ==> s.syncFrees == 1 && s.dataFrees == 1
    ensures BothDone(s) && s.thread.Exited? ==> {s.doneBy, s.freedBy} == {Parent, Thread}
    ensures s.dataFrees > 0 && s.freedBy == Parent ==> s.parent.Finished? && (s.thread.Exited? || s.thread.NotStarted?)
    ensures s.dataFrees > 0 && s.freedBy == Thread ==> s.thread.Exited? && (s.parent.Detach? || s.parent.Finished?)
  {
    RunKeeps(START, moves);
  }

  /** Nobody has the list any more, and it was not freed. */
  predicate Lost(s: State) {
    s.resolved && !s.res && !s.cached && s.listFrees == 0
  }

  /** What becomes of the address list. On every run it is freed at most once, and never both cached and freed,
      although the record points to it for a while after it was handed on. When both sides are done nothing points
      to it, and it is lost exactly if the thread resolved the name, then failed to signal it, and the parent still
      collected the result. */
  lemma ListFate(moves: seq<Move>, s: State)
    requires Run(START, moves) == Some(s)
    ensures s.listFrees <= 1 && !(s.cached && s.listFrees > 0) && (s.cached || s.listFrees > 0 ==> s.resolved)
    ensures s.res && (s.cached || s.listFrees > 0) ==> s.parent.DropRes?
    ensures Lost(s) ==> s.wakeFailed && s.collected
    ensures BothDone(s) ==> !s.res && (Lost(s) <==> s.resolved && s.wakeFailed && s.collected)
    ensures s.cached ==> s.collected && !s.wakeFailed
  {
    RunKeeps(START, moves);
  }

  lemma {:induction false} RunAppend(s: State, a: seq<Move>, b: seq<Move>)
    requires Run(s, a).Some?
    ensures Run(s, a + b) == Run(Run(s, a).value, b)
    decreases |a|
  {
    if a == [] {
      assert a + b == b;
    } else {
      assert (a + b)[0] == a[0] && (a + b)[1..] == a[1..] + b;
      RunAppend(Next(s, a[0]).value, a[1..], b);
    }
  }

  lemma RunOne(s: State, m: Move)
    ensures Run(s, [m]) == Next(s, m)
  {
    if Next(s, m).Some? {
      assert Run(Next(s, m).value, [m][1..]) == Next(s, m);
    }
  }

  /** One more move at the end of a run. */
  lemma RunMore(s: State, moves: seq<Move>, m: Move)
    requires Run(s, moves).Some?
    ensures Run(s, moves + [m]) == Next(Run(s, moves).value, m)
  {
    RunAppend(s, moves, [m]);
    RunOne(Run(s, moves).value, m);
  }

  lemma ReachableMore(s: State, moves: seq<Move>)
    requires Reachable(s) && Run(s, moves).Some?
    ensures Reachable(Run(s, moves).value)
  {
    var before :| Run(START, before) == Some(s);
    RunAppend(START, before, moves);
  }

  lemma ReachableInv(s: State)
    requires Reachable(s)
    ensures Inv(s)
  {
    var moves :| Run(START, moves) == Some(s);
    RunKeeps(START, moves);
  }

  // ---------- use after free ----------

  lemma ThreadCanStep(s: State)
    requires Inv(s) && !s.thread.NotStarted? && !s.thread.Exited? && !ParentHolds(s.parent)
    ensures ThreadNext(s, true).Some? && ThreadNext(s, true).value.parent == s.parent
    ensures !ThreadNext(s, true).value.thread.NotStarted?
  {
    hide FreesOk, ListOk;
  }

  /** Left alone, the thread runs to its end. */
  lemma {:induction false} ThreadRunsOut(s: State) returns (moves: seq<Move>)
    requires Inv(s) && !s.thread.NotStarted? && !ParentHolds(s.parent)
    ensures Run(s, moves).Some? && Run(s, moves).value.thread.Exited? && Run(s, moves).value.parent == s.parent
    ensures forall i :: 0 <= i < |moves| ==> moves[i] == ThreadStep(true)
    decreases ThreadRank(s.thread)
  {
    if s.thread.Exited? {
      moves := [];
    } else {
      ThreadCanStep(s);
      ThreadDecreases(s, true);
      StepKeeps(s, ThreadStep(true));
      hide Inv, ThreadNext, ThreadRank;
      var rest := ThreadRunsOut(Next(s, ThreadStep(true)).value);
      moves := [ThreadStep(true)] + rest;
      assert moves[1..] == rest;
    }
  }

  /** The only step that accesses a freed record is the parent's read of the thread handle, after it found the
      resolve unfinished and let go of the mutex; the thread then freed the record and is gone. */
  lemma OnlyMisuse(s: State, m: Move)
    requires Inv(s) && !s.misuse && Next(s, m).Some? && Next(s, m).value.misuse
    ensures m.ParentStep? && s.parent.Detach? && s.doneBy == Parent && s.freedBy == Thread && s.thread.Exited?
  {
    match m
    case ParentStep(ok) => ParentMisuse(s, ok);
    case ThreadStep(ok) => ThreadMisuse(s, ok);
    case _ =>
  }

  /** Who may still be there once memory is freed. */
  lemma WhenFreed(s: State)
    requires Inv(s) && (s.syncFrees > 0 || s.dataFrees > 0)
    ensures
      || ((s.parent.Detach? || s.parent.Finished?) && s.doneBy == Parent && s.freedBy == Thread
        && (s.thread.Exited? || (s.thread.LateFreeData? && s.dataFrees == 0)))
      || ((s.thread.Exited? || s.thread.NotStarted?)
        && (s.parent.Finished? || (s.parent.FreeData? && s.dataFrees == 0)))
  {
    hide ListOk, MutexOk;
  }

  lemma ParentMisuse(s: State, ok: bool)
    requires Inv(s) && !s.misuse && ParentNext(s, ok).Some? && ParentNext(s, ok).value.misuse
    ensures s.parent.Detach? && s.doneBy == Parent && s.freedBy == Thread && s.thread.Exited?
  {
    hide Inv, Touch, TouchData, FreeSyncData, FreeRecord;
    assert s.syncFrees > 0 || s.dataFrees > 0;
    WhenFreed(s);
  }

  lemma ThreadMisuse(s: State, ok: bool)
    requires Inv(s) && !s.misuse && ThreadNext(s, ok).Some?
    ensures !ThreadNext(s, ok).value.misuse
  {
    hide Inv, Touch, TouchData, FreeSyncData, FreeRecord;
    if s.syncFrees > 0 || s.dataFrees > 0 {
      WhenFreed(s);
    }
  }

  /** So a run with such an access has the parent's step somewhere on it. */
  lemma {:induction false} MisuseOnRun(s: State, moves: seq<Move>) returns (i: nat)
    requires Inv(s) && !s.misuse && Run(s, moves).Some? && Run(s, moves).value.misuse
    ensures i < |moves| && moves[i].ParentStep?
    ensures Run(s, moves[..i]).Some? && Run(s, moves[..i]).value.parent.Detach?
    ensures Run(s, moves[..i]).value.thread.Exited?
    decreases |moves|
  {
    var t := Next(s, moves[0]).value;
    if t.misuse {
      OnlyMisuse(s, moves[0]);
      i := 0;
    } else {
      StepKeeps(s, moves[0]);
      var rest := MisuseOnRun(t, moves[1..]);
      i := rest + 1;
      assert moves[..i][0] == moves[0] && moves[..i][1..] == moves[1..][..rest];
    }
  }

  /** When the parent has the mutex and is about to set done: some continuation touches freed memory if
      and only if done is not set yet. */
  lemma MisuseIffUnfinished(s: State)
    requires Reachable(s) && s.parent.DestroySwap?
    ensures (exists moves :: Run(s, moves).Some? && Run(s, moves).value.misuse) <==> !s.done
  {
    ReachableInv(s);
    if s.done {
      forall moves | Run(s, moves).Some?
        ensures !Run(s, moves).value.misuse
      {
        FinishedIsSafe(s, moves);
      }
    } else {
      var moves := TooLate(s);
    }
  }

  lemma FinishedIsSafe(s: State, moves: seq<Move>)
    requires Inv(s) && s.parent.DestroySwap? && s.done && Run(s, moves).Some?
    ensures !Run(s, moves).value.misuse
  {
    RunKeeps(s, moves);
    DoneByStays(s, moves);
  }

  /** The parent sets done and lets go of the mutex, the thread runs out, and the parent reads the handle. */
  lemma TooLate(s: State) returns (moves: seq<Move>)
    requires Inv(s) && s.parent.DestroySwap? && !s.done
    ensures Run(s, moves).Some? && Run(s, moves).value.misuse
  {
    var t := SwapAndLetGo(s);
    var out := ThreadRunsOut(t);
    RunKeeps(t, out);
    DoneByStays(t, out);
    ReadHandle(Run(t, out).value);
    hide Inv, Next, Run;
    var two := [ParentStep(true), ParentStep(true)];
    RunAppend(s, two, out);
    RunMore(s, two + out, ParentStep(true));
    moves := two + out + [ParentStep(true)];
  }

  lemma SwapAndLetGo(s: State) returns (t: State)
    requires Inv(s) && s.parent.DestroySwap? && !s.done
    ensures Inv(t) && Run(s, [ParentStep(true), ParentStep(true)]) == Some(t)
    ensures t.parent.Detach? && t.done && t.doneBy == Parent && !t.thread.NotStarted?
  {
    var s1 := Next(s, ParentStep(true)).value;
    t := Next(s1, ParentStep(true)).value;
    StepKeeps(s, ParentStep(true));
    StepKeeps(s1, ParentStep(true));
    RunOne(s, ParentStep(true));
    RunMore(s, [ParentStep(true)], ParentStep(true));
    assert [ParentStep(true)] + [ParentStep(true)] == [ParentStep(true), ParentStep(true)];
  }

  lemma ReadHandle(s: State)
    requires Inv(s) && s.parent.Detach? && s.doneBy == Parent && s.thread.Exited?
    ensures Next(s, ParentStep(true)).Some? && Next(s, ParentStep(true)).value.misuse
  {
    hide ListOk, MutexOk;
  }

  lemma DoneByStep(s: State, m: Move)
    requires Inv(s) && s.done && Next(s, m).Some? && !s.parent.Create? && !s.parent.StoreHandle?
    ensures var t := Next(s, m).value; t.doneBy == s.doneBy && t.done && !t.parent.Create? && !t.parent.StoreHandle?
  {
    hide Inv, ParentNext, ThreadNext, Touch, TouchData;
    match m
    case ParentStep(ok) => ParentDoneBy(s, ok);
    case ThreadStep(ok) =>
      NotSettingDone(s);
      ThreadDoneBy(s, ok);
    case _ =>
  }

  lemma ParentDoneBy(s: State, ok: bool)
    requires s.done && ParentNext(s, ok).Some? && !s.parent.Create? && !s.parent.StoreHandle?
    ensures var t := ParentNext(s, ok).value;
      t.doneBy == s.doneBy && t.done && !t.parent.Create? && !t.parent.StoreHandle?
  {
    hide Touch, TouchData, FreeSyncData, FreeRecord;
    match s.parent
    case PollLock =>
    case PollRead =>
    case PollUnlock(seen) =>
    case Backoff =>
    case Join(collect) =>
    case Collect =>
    case DropRes =>
    case DestroyLock =>
    case DestroySwap =>
    case DestroyUnlock(seen) =>
    case Detach =>
    case DestroyJoin =>
    case FreeSync =>
    case FreeData =>
  }

  lemma ThreadDoneBy(s: State, ok: bool)
    requires s.done && ThreadNext(s, ok).Some? && !s.thread.SetDone?
    ensures var t := ThreadNext(s, ok).value; t.doneBy == s.doneBy && t.done && t.parent == s.parent
  {
    hide Touch, TouchData, FreeSyncData, FreeRecord;
    match s.thread
    case Resolve =>
    case StoreResult(fine) =>
    case Lock =>
    case Test =>
    case LateUnlock =>
    case LateFreeSync =>
    case LateFreeData =>
    case Wake =>
    case Unlock =>
  }

  lemma NotSettingDone(s: State)
    requires Inv(s) && s.done && !s.parent.Create? && !s.parent.StoreHandle?
    ensures !s.thread.SetDone?
  {
    hide FreesOk, ListOk, MutexOk;
  }

  /** Done is set by one side only. */
  lemma {:induction false} DoneByStays(s: State, moves: seq<Move>)
    requires Inv(s) && s.done && Run(s, moves).Some? && !s.parent.Create? && !s.parent.StoreHandle?
    ensures Run(s, moves).value.doneBy == s.doneBy && Run(s, moves).value.done
    decreases |moves|
  {
    if moves != [] {
      StepKeeps(s, moves[0]);
      DoneByStep(s, moves[0]);
      hide Inv, Next;
      DoneByStays(Next(s, moves[0]).value, moves[1..]);
    }
  }

  // ---------- the result ----------

  /** The parent hands on `sock_error` and `res` only after the thread's last write to them: whatever the
      thread still does, both stay as they are. */
  lemma {:induction false} ResultIsFinal(s: State, moves: seq<Move>)
    requires Reachable(s) && (s.parent.Collect? || s.parent.DropRes?) && Run(s, moves).Some?
    requires forall i :: 0 <= i < |moves| ==> moves[i].ThreadStep?
    ensures Run(s, moves).value.error == s.error && Run(s, moves).value.res == s.res
    ensures Run(s, moves).value.cached == s.cached && Run(s, moves).value.listFrees == s.listFrees
    ensures s.thread.Unlock? || s.thread.Exited?
    decreases |moves|
  {
    ReachableInv(s);
    if moves != [] {
      RunOne(s, moves[0]);
      ReachableMore(s, [moves[0]]);
      ResultIsFinal(Next(s, moves[0]).value, moves[1..]);
    }
  }

  // ---------- progress ----------

  function ThreadRank(t: ThreadPc): nat {
    match t
    case Resolve => 7
    case StoreResult(_) => 6
    case Lock => 5
    case Test => 4
    case LateUnlock => 3
    case LateFreeSync => 2
    case LateFreeData => 1
    case Wake => 3
    case SetDone => 2
    case Unlock => 1
    case _ => 0
  }

  function ParentRank(p: ParentPc): nat {
    match p
    case Create => 19
    case StoreHandle(_) => 11
    case PollLock => 14
    case PollRead => 13
    case PollUnlock(_) => 12
    case Backoff => 11
    case Idle => 10
    case Join(_) => 9
    case Collect => 8
    case DropRes => 7
    case DestroyLock => 6
    case DestroySwap => 5
    case DestroyUnlock(_) => 4
    case DestroyJoin => 3
    case FreeSync => 2
    case FreeData => 1
    case Detach => 1
    case Finished => 0
  }

  function Rank(s: State): nat {
    ParentRank(s.parent) + ThreadRank(s.thread)
  }

  lemma ParentDecreases(s: State, ok: bool)
    requires ParentNext(s, ok).Some?
    ensures Rank(ParentNext(s, ok).value) < Rank(s)
  {
    hide Touch, TouchData, FreeSyncData, FreeRecord;
    match s.parent
    case Create =>
    case StoreHandle(started) =>
    case PollLock =>
    case PollRead =>
    case PollUnlock(seen) =>
    case Backoff =>
    case Join(collect) =>
    case Collect =>
    case DropRes =>
    case DestroyLock =>
    case DestroySwap =>
    case DestroyUnlock(seen) =>
    case Detach =>
    case DestroyJoin =>
    case FreeSync =>
    case FreeData =>
  }

  lemma ThreadDecreases(s: State, ok: bool)
    requires ThreadNext(s, ok).Some?
    ensures Rank(ThreadNext(s, ok).value) < Rank(s)
  {
    hide Touch, TouchData, FreeSyncData, FreeRecord;
    match s.thread
    case Resolve =>
    case StoreResult(fine) =>
    case Lock =>
    case Test =>
    case LateUnlock =>
    case LateFreeSync =>
    case LateFreeData =>
    case Wake =>
    case SetDone =>
    case Unlock =>
  }

  lemma StepDecreases(s: State, m: Move)
    requires m != Poll && Next(s, m).Some?
    ensures Rank(Next(s, m).value) < Rank(s)
  {
    match m
    case ParentStep(ok) => ParentDecreases(s, ok);
    case ThreadStep(ok) => ThreadDecreases(s, ok);
    case _ =>
  }

  /** No deadlock: until both sides are done, some move other than a poll is possible. */
  lemma CanMove(s: State) returns (m: Move)
    requires Inv(s) && !BothDone(s)
    ensures m != Poll && Next(s, m).Some?
  {
    if s.parent.Idle? {
      m := Cancel;
    } else if ParentNext(s, true).Some? {
      m := ParentStep(true);
    } else {
      m := ThreadStep(true);
    }
  }

  /** Apart from polls a run has at most 19 moves, and one that cannot go on has freed everything. */
  lemma {:induction false} RunsEnd(s: State, moves: seq<Move>)
    requires Inv(s) && Run(s, moves).Some? && Poll !in moves
    ensures |moves| + Rank(Run(s, moves).value) <= Rank(s)
    ensures (forall m :: m != Poll ==> Next(Run(s, moves).value, m).None?) ==> BothDone(Run(s, moves).value)
    decreases |moves|
  {
    if moves != [] {
      StepKeeps(s, moves[0]);
      StepDecreases(s, moves[0]);
      RunsEnd(Next(s, moves[0]).value, moves[1..]);
    } else if !BothDone(s) {
      var m := CanMove(s);
    }
  }

  // ---------- a lost list ----------

  lemma Take(moves: seq<Move>, s: State, m: Move) returns (more: seq<Move>, t: State)
    requires Run(START, moves) == Some(s) && Next(s, m).Some?
    ensures Some(t) == Next(s, m) && Run(START, more) == Some(t)
  {
    RunMore(START, moves, m);
    more, t := moves + [m], Next(s, m).value;
  }

  const RESOLVING := START.(parent := Idle, thread := Resolve, done := false, handle := true)
  const RESOLVED := RESOLVING.(thread := Wake, mutex := Thread, res := true, resolved := true)
  const SIGNAL_FAILED :=
    RESOLVED.(thread := Exited, mutex := Nobody, error := true, wakeFailed := true, done := true, doneBy := Thread)

  lemma ReachResolving() returns (moves: seq<Move>)
    ensures Run(START, moves) == Some(RESOLVING)
  {
    assert Run(START, []) == Some(START);
    hide Run;
    var s;
    moves, s := Take([], START, ParentStep(true));
    moves, s := Take(moves, s, ParentStep(true));
  }

  lemma ReachResolved() returns (moves: seq<Move>)
    ensures Run(START, moves) == Some(RESOLVED)
  {
    moves := ReachResolving();
    hide Run;
    var s;
    moves, s := Take(moves, RESOLVING, ThreadStep(true));
    moves, s := Take(moves, s, ThreadStep(true));
    moves, s := Take(moves, s, ThreadStep(true));
    moves, s := Take(moves, s, ThreadStep(true));
  }

  /** The resolve succeeds, the wake-up write fails, and the thread is gone. */
  lemma ReachSignalFailed() returns (moves: seq<Move>)
    ensures Run(START, moves) == Some(SIGNAL_FAILED)
  {
    moves := ReachResolved();
    hide Run;
    var s;
    moves, s := Take(moves, RESOLVED, ThreadStep(false));
    moves, s := Take(moves, s, ThreadStep(true));
    moves, s := Take(moves, s, ThreadStep(true));
  }

  /** The parent then polls, sees done, and hands on an error status with the list, which the DNS layer
      does not take. */
  lemma LostListExample()
    ensures exists s :: Reachable(s) && Lost(s)
  {
    var moves := ReachSignalFailed();
    hide Run;
    var s;
    moves, s := Take(moves, SIGNAL_FAILED, Poll);
    moves, s := Take(moves, s, ParentStep(true));
    moves, s := Take(moves, s, ParentStep(true));
    moves, s := Take(moves, s, ParentStep(true));
    moves, s := Take(moves, s, ParentStep(true));
    moves, s := Take(moves, s, ParentStep(true));
    assert Reachable(s);
  }

  // ---------- a late access ----------

  /** Such a state is reachable: the parent gives up while the thread still resolves. */
  lemma LateAccessExample()
    ensures exists s :: Reachable(s) && s.parent.DestroySwap? && !s.done
    ensures exists moves :: Run(START, moves).Some? && Run(START, moves).value.misuse
  {
    var before := ReachResolving();
    var s;
    before, s := Take(before, RESOLVING, Cancel);
    before, s := Take(before, s, ParentStep(true));
    RunKeeps(START, before);
    hide Run, Inv;
    assert Reachable(s);
    var moves := TooLate(s);
    RunAppend(START, before, moves);
    assert Run(START, before + moves).value.misuse;
  }
}
