/** Whole runs of queue operations, against one plain byte sequence. */
module BufRuns {
  import opened Bytes
  import opened BufCallbacks
  import opened BufQueue
  import opened BufWindows

  datatype Op =
    | Write(buf: seq<byte>)
    | Read(len: nat)
    | Skip(amount: nat)
    | Unwrite(amount: nat)
    | Reset
    | Peek
    | PeekAt(offset: nat)
    | Len

  /** What the caller learns from one operation. */
  datatype Seen = Wrote(count: nat) | Got(bytes: seq<byte>) | Done(ok: bool) | Length(n: nat)

  /** The options of a queue: with a soft limit it takes everything, else it has a capacity. */
  datatype Limits = Limits(soft: bool, capacity: nat, chunk: pos)

  type pos = x: nat | x > 0 witness 1

  /** All that the answers of a queue depend on: its bytes, and how many bytes in front of them were read but
      not yet reclaimed. */
  datatype Flow = Flow(bytes: seq<byte>, front: nat)

  /** How much of `buf` a write takes. */
  function Taken(l: Limits, s: Flow, buf: seq<byte>): (n: nat)
    ensures n <= |buf|
  {
    if l.soft then |buf|
    else if |s.bytes| + s.front >= l.capacity then 0
    else Min(|buf|, l.capacity - |s.bytes| - s.front)
  }

  /** The answer to an operation. */
  function Answer(l: Limits, op: Op, s: Flow): Seen
  {
    var n := |s.bytes|;
    match op
    case Write(buf) => Wrote(Taken(l, s, buf))
    case Read(len) => Got(s.bytes[..Min(len, n)])
    case Skip(_) => Done(true)
    case Unwrite(amount) => Done(amount <= n)
    case Reset => Done(true)
    case Peek => Got(s.bytes[..Min(n, l.chunk - Mod(s.front, l.chunk))])
    case PeekAt(offset) =>
      Got(if offset >= n then []
          else s.bytes[offset..offset + Min(n - offset, l.chunk - Mod(s.front + offset, l.chunk))])
    case Len => Length(n)
  }

  /** The state after the first `n` bytes were taken out. */
  function Behind(l: Limits, s: Flow, n: nat): Flow
    requires n <= |s.bytes|
  {
    Flow(s.bytes[n..], Onward(s.front, n, s.bytes[n..] == [], l.chunk))
  }

  /** The state after the operation. */
  function After(l: Limits, op: Op, s: Flow): Flow
  {
    match op
    case Write(buf) => s.(bytes := s.bytes + buf[..Taken(l, s, buf)])
    case Read(len) => Behind(l, s, Min(len, |s.bytes|))
    case Skip(amount) => Behind(l, s, Min(amount, |s.bytes|))
    case Unwrite(amount) =>
      var left := s.bytes[..|s.bytes| - Min(amount, |s.bytes|)];
      Flow(left, if left == [] then 0 else s.front)
    case Reset => Flow([], 0)
    case _ => s
  }

  function AfterRun(l: Limits, ops: seq<Op>, s: Flow): Flow
    decreases ops
  {
    if ops == [] then s else AfterRun(l, ops[1..], After(l, ops[0], s))
  }

  /** The answers to a run. */
  function Answers(l: Limits, ops: seq<Op>, s: Flow): seq<Seen>
    decreases ops
  {
    if ops == [] then [] else [Answer(l, ops[0], s)] + Answers(l, ops[1..], After(l, ops[0], s))
  }

  lemma {:induction false} RunMore(l: Limits, ops: seq<Op>, s: Flow, op: Op)
    ensures AfterRun(l, ops + [op], s) == After(l, op, AfterRun(l, ops, s))
    ensures Answers(l, ops + [op], s) == Answers(l, ops, s) + [Answer(l, op, AfterRun(l, ops, s))]
    decreases |ops|
  {
    var more := ops + [op];
    hide Answer, After;
    if ops == [] {
      assert more[1..] == [] && more[0] == op;
    } else {
      assert more[1..] == ops[1..] + [op] && more[0] == ops[0];
      RunMore(l, ops[1..], After(l, ops[0], s), op);
    }
  }

  /** Whatever is written, at most the capacity is stored, and never more than what was written or there. */
  lemma {:induction false} WithinCapacity(l: Limits, ops: seq<Op>, s: Flow)
    requires !l.soft && |s.bytes| + s.front <= l.capacity
    ensures var t := AfterRun(l, ops, s); |t.bytes| + t.front <= l.capacity
    decreases |ops|
  {
    if ops != [] {
      OnwardBelow(l, s, ops[0]);
      hide After;
      WithinCapacity(l, ops[1..], After(l, ops[0], s));
    }
  }

  lemma OnwardBelow(l: Limits, s: Flow, op: Op)
    requires !l.soft && |s.bytes| + s.front <= l.capacity
    ensures var t := After(l, op, s); |t.bytes| + t.front <= l.capacity
  {
    hide Mod;
    match op
    case Read(len) => ModAtMost(s.front + Min(len, |s.bytes|), l.chunk);
    case Skip(amount) => ModAtMost(s.front + Min(amount, |s.bytes|), l.chunk);
    case _ =>
  }

  ghost function LimitsOf(q: Bufq): Limits
    requires q.chunkSize > 0
  {
    Limits(q.softLimit, q.maxChunks * q.chunkSize, q.chunkSize)
  }

  ghost function FlowOf(q: Bufq): Flow
    reads q`windows
  {
    Flow(q.Contents(), q.Front())
  }

  lemma HasChunks(q: Bufq)
    requires q.Valid()
    ensures q.chunkSize > 0
  {
    q.Ends();
  }

  /** One operation. */
  method Do(q: Bufq, op: Op) returns (seen: Seen)
    requires q.Valid()
    modifies q.Footprint()
    ensures q.Valid() && q.Confined()
    ensures seen == Answer(LimitsOf(q), op, old(FlowOf(q)))
    ensures FlowOf(q) == After(LimitsOf(q), op, old(FlowOf(q)))
  {
    hide Bufq.PoolOk, Bufq.Chunks, Bufq.Counted, Packed, Flat, Start, Mod, Onward;
    q.Ends();
    match op {
      case Write(buf) =>
        seen := DoWrite(q, buf);
      case Read(len) =>
        var buf := new byte[len];
        var n, err := q.Read(buf);
        seen := Got(buf[..if n < 0 then 0 else n]);
      case Skip(amount) =>
        q.Skip(amount);
        seen := Done(true);
      case Unwrite(amount) =>
        var err := q.Unwrite(amount);
        seen := Done(err == Ok);
      case Reset =>
        q.Reset();
        seen := Done(true);
      case Peek =>
        seen := DoPeek(q);
      case PeekAt(offset) =>
        var c, at, len := q.PeekAt(offset);
        seen := Got(if c == null then [] else c.data[at..at + len]);
      case Len =>
        var n := q.Len();
        seen := Length(n);
    }
  }

  method DoPeek(q: Bufq) returns (seen: Seen)
    requires q.Valid()
    modifies q.Footprint()
    ensures q.Valid() && q.Confined()
    ensures seen == Answer(LimitsOf(q), Peek, old(FlowOf(q))) && FlowOf(q) == old(FlowOf(q))
  {
    hide Bufq.PoolOk, Bufq.Chunks, Bufq.Counted, Packed, Flat, Start, Mod, Onward;
    q.Ends();
    q.FrontNow();
    ModBelow(q.Front(), q.chunkSize);
    var c, at, len := q.Peek();
    seen := Got(if c == null then [] else c.data[at..at + len]);
  }

  method DoWrite(q: Bufq, buf: seq<byte>) returns (seen: Seen)
    requires q.Valid()
    modifies q.Footprint()
    ensures q.Valid() && q.Confined()
    ensures seen == Wrote(Taken(LimitsOf(q), old(FlowOf(q)), buf))
    ensures FlowOf(q) == old(FlowOf(q)).(bytes := old(FlowOf(q).bytes) + buf[..seen.count])
  {
    hide Bufq.PoolOk, Bufq.Chunks, Bufq.Counted, Packed, Flat, Start, FreeBytes;
    q.Ends();
    if !q.softLimit {
      q.SpaceLaw();
    }
    var n, err := q.Write(buf);
    seen := Wrote(if n < 0 then 0 else n);
  }

  /** Any run on a queue is a run on one byte sequence. */
  method Run(q: Bufq, ops: seq<Op>) returns (log: seq<Seen>)
    requires q.Valid()
    modifies q.Footprint()
    ensures q.Valid() && q.Confined()
    ensures log == Answers(LimitsOf(q), ops, old(FlowOf(q)))
    ensures FlowOf(q) == AfterRun(LimitsOf(q), ops, old(FlowOf(q)))
  {
    hide Bufq.PoolOk, Bufq.Chunks, Bufq.Valid, Answer, After, LimitsOf, FlowOf;
    HasChunks(q);
    ghost var l, s := LimitsOf(q), FlowOf(q);
    log := [];
    for i := 0 to |ops|
      invariant q.Valid() && q.Confined()
      invariant log == Answers(l, ops[..i], s) && FlowOf(q) == AfterRun(l, ops[..i], s)
    {
      var seen := Do(q, ops[i]);
      RunMore(l, ops[..i], s, ops[i]);
      assert ops[..i + 1] == ops[..i] + [ops[i]];
      log := log + [seen];
    }
    assert ops[..|ops|] == ops;
  }

  /** The operations of a script that are meant for queue `which`. */
  ghost function Part<T>(script: seq<(bool, T)>, which: bool): seq<T> {
    if script == [] then []
    else (if script[0].0 == which then [script[0].1] else []) + Part(script[1..], which)
  }

  lemma {:induction false} PartMore<T>(script: seq<(bool, T)>, which: bool, next: (bool, T))
    ensures Part(script + [next], which)
      == if next.0 == which then Part(script, which) + [next.1] else Part(script, which)
  {
    var more := script + [next];
    if script == [] {
      assert more[1..] == [];
    } else {
      assert more[1..] == script[1..] + [next];
      PartMore(script[1..], which, next);
      Associate(if script[0].0 == which then [script[0].1] else [], Part(script[1..], which),
                if next.0 == which then [next.1] else []);
    }
  }

  /** `other` keeps its bytes while `q`, which draws on the same pool, performs an operation. */
  method DoBeside(q: Bufq, other: Bufq, op: Op) returns (seen: Seen)
    requires q.Valid() && other.Valid() && q.pool == other.pool && q.Repr !! other.Repr
    modifies q.Footprint()
    ensures q.Valid() && other.Valid() && q.Repr !! other.Repr
    ensures forall o :: o in q.Footprint() && o !in old(q.Footprint()) ==> fresh(o)
    ensures forall o :: o in other.Footprint() && o !in old(q.Footprint()) && o !in old(other.Footprint()) ==> fresh(o)
    ensures seen == Answer(LimitsOf(q), op, old(FlowOf(q)))
    ensures FlowOf(q) == After(LimitsOf(q), op, old(FlowOf(q)))
    ensures FlowOf(other) == old(FlowOf(other))
  {
    hide Answer, After;
    seen := Do(q, op);
  }

  /** Two queues sharing a pool hand chunks to each other all the time; still each of them runs as its
      own byte sequence, whatever the order of the operations. */
  method RunShared(q0: Bufq, q1: Bufq, script: seq<(bool, Op)>) returns (log: seq<(bool, Seen)>)
    requires q0.Valid() && q1.Valid() && q0.pool == q1.pool && q0.Repr !! q1.Repr
    modifies q0.Footprint(), q1.Footprint()
    ensures q0.Valid() && q1.Valid()
    ensures Part(log, false) == Answers(LimitsOf(q0), Part(script, false), old(FlowOf(q0)))
    ensures FlowOf(q0) == AfterRun(LimitsOf(q0), Part(script, false), old(FlowOf(q0)))
    ensures Part(log, true) == Answers(LimitsOf(q1), Part(script, true), old(FlowOf(q1)))
    ensures FlowOf(q1) == AfterRun(LimitsOf(q1), Part(script, true), old(FlowOf(q1)))
  {
    hide Bufq.PoolOk, Bufq.Chunks, Bufq.Valid, Answer, After, LimitsOf, FlowOf;
    HasChunks(q0);
    HasChunks(q1);
    ghost var l0, s0, l1, s1 := LimitsOf(q0), FlowOf(q0), LimitsOf(q1), FlowOf(q1);
    log := [];
    for i := 0 to |script|
      invariant q0.Valid() && q1.Valid() && q0.Repr !! q1.Repr
      invariant forall o :: o in q0.Footprint() && o !in old(q0.Footprint()) && o !in old(q1.Footprint()) ==> fresh(o)
      invariant forall o :: o in q1.Footprint() && o !in old(q0.Footprint()) && o !in old(q1.Footprint()) ==> fresh(o)
      invariant Part(log, false) == Answers(l0, Part(script[..i], false), s0)
      invariant FlowOf(q0) == AfterRun(l0, Part(script[..i], false), s0)
      invariant Part(log, true) == Answers(l1, Part(script[..i], true), s1)
      invariant FlowOf(q1) == AfterRun(l1, Part(script[..i], true), s1)
    {
      var (which, op) := script[i];
      assert script[..i + 1] == script[..i] + [script[i]];
      var seen;
      if which {
        seen := DoBeside(q1, q0, op);
        RunMore(l1, Part(script[..i], true), s1, op);
      } else {
        seen := DoBeside(q0, q1, op);
        RunMore(l0, Part(script[..i], false), s0, op);
      }
      PartMore(script[..i], true, script[i]);
      PartMore(script[..i], false, script[i]);
      PartMore(log, true, (which, seen));
      PartMore(log, false, (which, seen));
      log := log + [(which, seen)];
    }
    assert script[..|script|] == script;
  }

  /** What writes put in, and what reads and skips took out, over a run. */
  function Entered(l: Limits, ops: seq<Op>, s: Flow): seq<byte>
    decreases ops
  {
    if ops == [] then []
    else
      (if ops[0].Write? then ops[0].buf[..Taken(l, s, ops[0].buf)] else [])
      + Entered(l, ops[1..], After(l, ops[0], s))
  }

  function Out(op: Op, bytes: seq<byte>): seq<byte> {
    match op
    case Read(len) => bytes[..Min(len, |bytes|)]
    case Skip(amount) => bytes[..Min(amount, |bytes|)]
    case _ => []
  }

  function Removed(l: Limits, ops: seq<Op>, s: Flow): seq<byte>
    decreases ops
  {
    if ops == [] then [] else Out(ops[0], s.bytes) + Removed(l, ops[1..], After(l, ops[0], s))
  }

  /** First in, first out: in a run that takes nothing back, the bytes that left followed by the bytes
      still there are the bytes at the start followed by the bytes that entered. */
  lemma {:induction false} FirstInFirstOut(l: Limits, ops: seq<Op>, s: Flow)
    requires forall i :: 0 <= i < |ops| ==> !ops[i].Unwrite? && !ops[i].Reset?
    ensures Removed(l, ops, s) + AfterRun(l, ops, s).bytes == s.bytes + Entered(l, ops, s)
    decreases |ops|
  {
    if ops != [] {
      var next := After(l, ops[0], s);
      var gone, come := Out(ops[0], s.bytes), if ops[0].Write? then ops[0].buf[..Taken(l, s, ops[0].buf)] else [];
      assert gone + next.bytes == s.bytes + come;
      hide After, Out, Taken;
      FirstInFirstOut(l, ops[1..], next);
      var removed, left, entered :=
        Removed(l, ops[1..], next), AfterRun(l, ops[1..], next).bytes, Entered(l, ops[1..], next);
      Associate(gone, removed, left);
      Associate(gone, next.bytes, entered);
      Associate(s.bytes, come, entered);
    }
  }
}
