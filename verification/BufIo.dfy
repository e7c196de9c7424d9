/** Draining a queue into a writer and filling it from a reader (bufq.c, last part). */
module BufIo {
  import opened Bytes
  import opened BufCallbacks
  import opened BufQueue
  import opened BufWindows

  /** One round of `Curl_bufq_pass`: the writer is offered the first chunk. */
  method PassChunk(q: Bufq, w: Writer) returns (offered: bool, n: int, err: Code)
    requires q.Valid() && w !in q.Footprint()
    modifies q.Footprint(), w
    ensures q.Valid() && q.Confined()
    ensures offered <==> old(q.Contents()) != []
    ensures !offered ==> q.Contents() == old(q.Contents()) && n == 0
    ensures w.calls == old(w.calls) + (if offered then 1 else 0) && (offered ==> w.lastResult == n)
    ensures -1 <= n <= |old(q.Contents())| && (n < 0 ==> err != Ok)
    ensures w.accepted == old(w.accepted) + old(q.Contents())[..if n < 0 then 0 else n]
    ensures q.Contents() == old(q.Contents())[if n < 0 then 0 else n..]
  {
    hide Bufq.PoolOk, Bufq.Chunks;
    var c, at, len := q.Peek();
    if c == null {
      return false, 0, Ok;
    }
    var buf := c.data[at..at + len];
    offered := true;
    n, err := w.Call(buf);
    if n > 0 {
      q.Skip(n);
    }
  }

  /** `Curl_bufq_pass`. `err0` is what the caller's error variable held before. */
  method Pass(q: Bufq, w: Writer, err0: Code) returns (n: int, err: Code)
    requires q.Valid() && w !in q.Footprint()
    modifies q.Footprint(), w
    ensures q.Valid() && q.Confined() && w !in q.Footprint()
    // no byte is lost, duplicated or reordered, whatever the writer does
    ensures w.accepted + q.Contents() == old(w.accepted) + old(q.Contents())
    ensures |w.accepted| >= |old(w.accepted)| && w.calls >= old(w.calls)
    ensures n >= 0 ==> n == |w.accepted| - |old(w.accepted)|
    // draining goes on until the queue is empty or the writer takes nothing
    ensures n >= 0 ==> q.Contents() == [] || (w.calls > old(w.calls) && w.lastResult <= 0)
    ensures n < 0 ==> n == -1 && err != Ok && w.calls > old(w.calls) && w.lastResult <= 0
    ensures n < 0 && err == Again ==> w.accepted == old(w.accepted)
    ensures old(q.Contents()) == [] ==> n == 0 && err == err0
  {
    hide Bufq.PoolOk, Bufq.Chunks;
    n, err := 0, err0;
    while true
      invariant q.Valid() && q.Confined() && w !in q.Footprint() && n >= 0
      invariant w.accepted + q.Contents() == old(w.accepted) + old(q.Contents())
      invariant |w.accepted| == |old(w.accepted)| + n
      invariant w.calls >= old(w.calls) && (n > 0 ==> w.calls > old(w.calls))
      invariant n == 0 ==> err == err0 && q.Contents() == old(q.Contents()) && w.accepted == old(w.accepted)
      decreases |q.Contents()|
    {
      label Round:
      var offered, k, e := PassChunk(q, w);
      Regroup(old@Round(w.accepted), old@Round(q.Contents()), if k < 0 then 0 else k);
      if !offered {
        break;
      }
      err := e;
      if k < 0 {
        if n == 0 || err != Again {
          n := -1;
        }
        break;
      }
      if k == 0 {
        if n == 0 {
          err := Again;
          n := -1;
        }
        break;
      }
      n := n + k;
    }
  }

  lemma Regroup(a: seq<byte>, b: seq<byte>, k: nat)
    requires k <= |b|
    ensures (a + b[..k]) + b[k..] == a + b
  {
  }

  /** One round of `Curl_bufq_write_pass`: makes room if the queue is full, and stores what then fits. */
  method WriteRound(q: Bufq, rest: seq<byte>, w: Writer, err0: Code) returns (k: int, err: Code)
    requires q.Valid() && w !in q.Footprint() && rest != []
    modifies q.Footprint(), w
    ensures q.Valid() && q.Confined() && w !in q.Footprint() && w.calls >= old(w.calls)
    ensures if k < 0 then k == -1 && err != Ok else 0 < k <= |rest| && err == Ok
    ensures w.accepted + q.Contents() == old(w.accepted) + old(q.Contents()) + rest[..if k < 0 then 0 else k]
    ensures err.Fault? ==> w.calls > old(w.calls)
    ensures k < 0 ==> w.calls > old(w.calls) && w.lastResult <= 0
    ensures q.softLimit && k > 0 ==> k == |rest|
    // with room for it, the writer is not called
    ensures !old(q.IsFull()) ==>
      w.calls == old(w.calls) && k == if q.softLimit then |rest| else Min(|rest|, old(q.Space()))
  {
    hide Bufq.PoolOk, Bufq.Chunks, Bufq.Counted, Bufq.Space, Bufq.IsFull, Packed, Flat;
    q.EmptyAndFull();
    err := err0;
    if q.IsFull() {
      var p, e := Pass(q, w, err0);
      err := e;
      if p < 0 {
        return -1, err;
      }
    }
    assert w.accepted + q.Contents() == old(w.accepted) + old(q.Contents());
    if !q.softLimit && q.Contents() == [] {
      q.EmptyHasSpace();
    }
    label Before:
    k, err := q.Write(rest);
    Associate(w.accepted, old@Before(q.Contents()), rest[..if k < 0 then 0 else k]);
  }

  /** `Curl_bufq_write_pass`. `used` is how much of `buf` went into the queue, which the caller can
      tell from the result except after a real error. */
  method WritePass(q: Bufq, buf: seq<byte>, w: Writer) returns (n: int, err: Code, ghost used: nat)
    requires q.Valid() && w !in q.Footprint()
    modifies q.Footprint(), w
    ensures q.Valid() && q.Confined() && w !in q.Footprint()
    // every byte accepted or queued is from the old queue or a prefix of buf, in order
    ensures used <= |buf| && w.accepted + q.Contents() == old(w.accepted) + old(q.Contents()) + buf[..used]
    ensures n >= 0 ==> n == used && err == Ok && (n == 0 ==> buf == [])
    ensures n < 0 ==> n == -1 && err != Ok && buf != []
    ensures n < 0 && err == Again ==> used == 0
    // a short count means that the writer took nothing more
    ensures err.Fault? || used < |buf| ==> w.calls > old(w.calls) && w.lastResult <= 0
    // and without need, with room for all of it, the writer is not called
    ensures !old(q.IsFull()) && (q.softLimit || |buf| <= old(q.Space())) ==> w.calls == old(w.calls) && n == |buf|
  {
    hide Bufq.PoolOk, Bufq.Chunks, Bufq.Counted, Bufq.Space, Bufq.IsFull, Packed, Flat;
    n, err, used := 0, Ok, 0;
    while n < |buf|
      invariant q.Valid() && q.Confined() && w !in q.Footprint() && used <= |buf| && n == used
      invariant w.accepted + q.Contents() == old(w.accepted) + old(q.Contents()) + buf[..used]
      invariant w.calls >= old(w.calls)
      invariant n == 0 ==> w.calls == old(w.calls) && q.IsFull() == old(q.IsFull()) && q.Space() == old(q.Space())
      invariant !old(q.IsFull()) && (q.softLimit || |buf| <= old(q.Space())) ==>
        w.calls == old(w.calls) && (n == 0 || n == |buf|)
      decreases |buf| - used
    {
      label Round:
      var k, e := WriteRound(q, buf[n..], w, err);
      err := e;
      if k < 0 {
        Chain(old@Round(w.accepted + q.Contents()), old(w.accepted) + old(q.Contents()), buf, used, 0);
        if err != Again {
          return -1, err, used;
        }
        break;
      }
      Chain(old@Round(w.accepted + q.Contents()), old(w.accepted) + old(q.Contents()), buf, used, k);
      n, used := n + k, used + k;
    }
    if n == 0 && |buf| > 0 {
      return -1, Again, used;
    }
    return n, Ok, used;
  }

  lemma Chain(a: seq<byte>, o: seq<byte>, buf: seq<byte>, i: nat, k: nat)
    requires i + k <= |buf| && a == o + buf[..i]
    ensures a + buf[i..][..k] == o + buf[..i + k]
  {
    assert buf[..i + k] == buf[..i] + buf[i..][..k];
    Associate(o, buf[..i], buf[i..][..k]);
  }

  /** `bufq_slurpn`; `Curl_bufq_slurp` is the call with `maxLen` 0. Each round stores at least one
      byte, so the free space bounds the rounds under the hard limit and `maxLen` does when it is
      given. A queue with a soft limit and no `maxLen` takes whatever the reader has: there the loop
      ends only if the reader falls short at some call, which `bound` names. */
  method Slurp(q: Bufq, maxLen: nat, reader: Reader, ghost bound: nat) returns (n: int, err: Code)
    requires q.Valid() && reader !in q.Footprint()
    requires q.softLimit && maxLen == 0 ==> reader.calls <= bound && reader.FallsShort(bound)
    modifies q.Footprint(), reader
    ensures q.Valid() && q.Confined() && reader !in q.Footprint()
    // the queue grows by exactly what the reader produced, also when the result is -1
    ensures old(reader.produced) <= reader.produced
    ensures q.Contents() == old(q.Contents()) + reader.produced[|old(reader.produced)|..]
    ensures n >= 0 ==> n == |reader.produced| - |old(reader.produced)| && err == Ok
    ensures n < 0 ==> n == -1 && err != Ok
    ensures n < 0 && err == Again ==> reader.produced == old(reader.produced)
    // it stops at the end of file, at a blocked or failed reader, with maxLen bytes, with a full queue, or with
    // room left in the tail, which there is after the first call that falls short
    ensures forall k :: old(reader.calls) <= k < reader.calls - 1 ==> !reader.FallsShort(k)
    ensures n == 0 ==> reader.calls > old(reader.calls) && reader.lastResult == 0
    ensures n > 0 ==>
      || (reader.calls > old(reader.calls) && reader.lastResult <= 0)
      || n == maxLen
      || (!q.softLimit && q.Space() == 0)
      || (q.tail != null && !q.tail.IsFull())
    ensures n < 0 ==>
      || (reader.calls > old(reader.calls) && reader.lastResult < 0)
      || (!q.softLimit && q.Space() == 0 && err == Again)
    ensures maxLen > 0 ==> |reader.produced| - |old(reader.produced)| <= maxLen
    ensures !q.softLimit ==> reader.calls - old(reader.calls) <= old(q.Space()) + 1
    ensures q.softLimit && maxLen == 0 ==> reader.calls <= bound + 1
  {
    hide Bufq.PoolOk, Bufq.Chunks, Bufq.Counted, Bufq.Contents, Bufq.Front, Bufq.Space, Packed, Reader.FallsShort;
    hide Reader.Fills;
    n, err := 0, Again;
    var left := maxLen;
    while true
      invariant q.Valid() && q.Confined() && reader !in q.Footprint() && n >= 0
      invariant old(reader.produced) <= reader.produced && |reader.produced| == |old(reader.produced)| + n
      invariant q.Contents() == old(q.Contents()) + reader.produced[|old(reader.produced)|..]
      invariant maxLen > 0 ==> 0 < left == maxLen - n
      invariant maxLen == 0 ==> left == 0
      invariant !q.softLimit ==> q.Space() == old(q.Space()) - n && reader.calls - old(reader.calls) <= n
      invariant q.softLimit && maxLen == 0 ==> reader.calls <= bound
      invariant reader.calls >= old(reader.calls)
      invariant forall k :: old(reader.calls) <= k < reader.calls ==> !reader.FallsShort(k)
      decreases if maxLen > 0 then left else if q.softLimit then bound - reader.calls else q.Space()
    {
      label Round:
      var k, e := q.Sip(left, reader);
      Gather(old(q.Contents()), old(reader.produced), old@Round(reader.produced), reader.produced);
      err := e;
      if k < 0 {
        if n == 0 || err != Again {
          n := -1;
        } else {
          err := Ok;
        }
        break;
      }
      if k == 0 {
        break;
      }
      n := n + k;
      if left > 0 {
        left := left - k;
        if left == 0 {
          break;
        }
      }
      if q.tail != null && !q.tail.IsFull() {
        break;
      }
    }
  }

  /** A queue with a soft limit, and a reader that fills its room at each of the next calls: the loop of
      `Curl_bufq_slurp` stores something and goes on after every one of them, however many there are. */
  method SlurpOn(q: Bufq, reader: Reader, rounds: nat)
    requires q.Valid() && reader !in q.Footprint() && q.softLimit
    requires forall k :: reader.calls <= k < reader.calls + rounds ==> reader.Fills(k)
    modifies q.Footprint(), reader
    ensures q.Valid() && q.Confined() && reader !in q.Footprint() && reader.calls == old(reader.calls) + rounds
    ensures |q.Contents()| >= |old(q.Contents())| + rounds && (rounds > 0 ==> q.tail != null && q.tail.IsFull())
  {
    hide Bufq.PoolOk, Bufq.Chunks, Bufq.Counted, Bufq.Space, Packed, Flat, Reader.Fills, Reader.FallsShort;
    for i := 0 to rounds
      invariant q.Valid() && q.Confined() && reader !in q.Footprint() && reader.calls == old(reader.calls) + i
      invariant |q.Contents()| >= |old(q.Contents())| + i && (i > 0 ==> q.tail != null && q.tail.IsFull())
    {
      var k, e := q.Sip(0, reader);
    }
  }

  lemma Gather(c: seq<byte>, p0: seq<byte>, p1: seq<byte>, p2: seq<byte>)
    requires p0 <= p1 <= p2
    ensures (c + p1[|p0|..]) + p2[|p1|..] == c + p2[|p0|..]
  {
    assert p1[|p0|..] + p2[|p1|..] == p2[|p0|..];
    Associate(c, p1[|p0|..], p2[|p1|..]);
  }
}
