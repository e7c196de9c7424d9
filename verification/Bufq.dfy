/** `struct bufq`: a byte queue over a linked list of fixed-size chunks (bufq.c). */
module BufQueue {
  import opened Bytes
  import opened BufCallbacks
  import opened BufChunk
  import opened BufPool
  import opened BufWindows

  /** The spare chunks of a queue, those of its pool, and the number of chunks the queue counts. */
  datatype Stock = Stock(own: seq<Chunk>, shared: seq<Chunk>, count: int)

  class Bufq {
    var head: Chunk?
    var tail: Chunk?
    var spare: Chunk?
    const pool: Pool?
    var chunkCount: nat
    const maxChunks: nat
    const chunkSize: nat
    const softLimit: bool
    const noSpares: bool

    ghost var heads: seq<Chunk>
    ghost var spares: seq<Chunk>
    ghost var windows: seq<Window>
    ghost var Repr: set<object>

    /** The objects an operation may change: this queue's, and the shared pool's. */
    ghost function Footprint(): set<object>
      reads this`Repr, if pool == null then {} else {pool}
    {
      Repr + if pool == null then {} else pool.Repr
    }

    /** Chunks only move between this queue and its pool; every other one is new. */
    twostate predicate Confined()
      reads this, pool
    {
      && (forall o :: o in Repr && o !in old(Footprint()) ==> fresh(o))
      && (pool != null ==> forall o :: o in pool.Repr && o !in old(Footprint()) ==> fresh(o))
    }

    ghost predicate PoolOk()
      reads this`Repr, pool, if pool == null then {} else pool.Repr
    {
      pool != null ==> pool.Valid() && pool.chunkSize == chunkSize && pool.Repr !! Repr
    }

    /** Both lists are well linked, made of this queue's own chunks, and seen through `windows`. */
    ghost predicate Chunks()
      reads this, Repr
    {
      && this in Repr && chunkSize > 0 && maxChunks > 0
      && Owned(heads, chunkSize, Repr) && Owned(spares, chunkSize, Repr)
      && Apart(heads) && Apart(spares)
      && (forall i :: 0 <= i < |heads| ==> Foreign(heads[i], spares))
      && Linked(head, heads) && Linked(spare, spares)
      && tail == (if heads == [] then null else heads[|heads| - 1])
      && |windows| == |heads|
      && (forall i :: 0 <= i < |heads| ==> heads[i].Ok() && heads[i].View() == windows[i])
    }

    ghost predicate Counted()
      reads this`chunkCount, this`heads, this`spares
    {
      chunkCount == |heads| + |spares| && (!softLimit ==> chunkCount <= maxChunks)
    }

    /** A chunk of this queue that is on neither list but still counted. */
    ghost predicate Loose(c: Chunk)
      reads this`chunkCount, this`heads, this`spares, this`Repr
    {
      && c in Repr && c.data in Repr && c.data.Length == chunkSize
      && Foreign(c, heads) && Foreign(c, spares)
      && chunkCount == |heads| + |spares| + 1
      && (!softLimit ==> chunkCount <= maxChunks)
    }

    ghost predicate Valid()
      reads this, Repr, pool, if pool == null then {} else pool.Repr
    {
      this in Repr && PoolOk() && Chunks() && Counted() && Packed(windows, chunkSize)
    }

    ghost function Contents(): seq<byte>
      reads this`windows
    {
      Flat(windows)
    }

    ghost function Stocked(): Stock
      reads this`spares, this`chunkCount, if pool == null then {} else {pool}
    {
      Stock(spares, if pool == null then [] else pool.spares, chunkCount)
    }

    /** Where an emptied chunk goes: to the pool, which may be full; else to the heap, when there are more than
        the maximum or spares are not wanted; else to the front of the own spares. */
    ghost function Put(c: Chunk, s: Stock): Stock {
      if pool != null then
        s.(shared := if |s.shared| < pool.spareMax then [c] + s.shared else s.shared, count := s.count - 1)
      else if s.count > maxChunks || noSpares then s.(count := s.count - 1)
      else s.(own := [c] + s.own)
    }

    /** ... several chunks, one after the other, from the front or from the back. */
    ghost function PutEach(cs: seq<Chunk>, s: Stock): Stock {
      if cs == [] then s else Put(cs[|cs| - 1], PutEach(cs[..|cs| - 1], s))
    }

    ghost function PutEachBack(cs: seq<Chunk>, s: Stock): Stock {
      if cs == [] then s else Put(cs[0], PutEachBack(cs[1..], s))
    }

    /** Either way: with a pool every chunk leaves the queue, and the pool keeps up to its maximum; without one
        the queue gives up chunks only down to its maximum, unless it wants no spares, and keeps the others. */
    lemma {:induction false} PutCounts(cs: seq<Chunk>, s: Stock)
      ensures forall t :: t in [PutEach(cs, s), PutEachBack(cs, s)] ==>
        if pool != null then
          && t.own == s.own && t.count == s.count - |cs|
          && |t.shared| == if |s.shared| >= pool.spareMax then |s.shared| else Min(|s.shared| + |cs|, pool.spareMax)
        else
          && t.shared == s.shared && |t.own| - |s.own| == |cs| - (s.count - t.count)
          && t.count == if noSpares || s.count - |cs| >= maxChunks then s.count - |cs| else Min(s.count, maxChunks)
      decreases |cs|
    {
      if cs != [] {
        PutCounts(cs[..|cs| - 1], s);
        PutCounts(cs[1..], s);
      }
    }

    /** What is left when a chunk was taken: an own spare one first, then one of the pool, then a new one. */
    ghost function Took(s: Stock): Stock {
      if s.own != [] then s.(own := s.own[1..])
      else s.(shared := if s.shared == [] then [] else s.shared[1..], count := s.count + 1)
    }

    constructor (chunkSize: nat, maxChunks: nat, pool: Pool?, softLimit: bool, noSpares: bool)
      requires chunkSize > 0 && maxChunks > 0
      requires pool != null ==> pool.Valid() && pool.chunkSize == chunkSize
      ensures Valid() && fresh(Repr) && Contents() == []
      ensures this.chunkSize == chunkSize && this.maxChunks == maxChunks && this.pool == pool
      ensures this.softLimit == softLimit && this.noSpares == noSpares && chunkCount == 0
    {
      this.chunkSize, this.maxChunks, this.pool := chunkSize, maxChunks, pool;
      this.softLimit, this.noSpares := softLimit, noSpares;
      head, tail, spare, chunkCount := null, null, null, 0;
      heads, spares, windows := [], [], [];
      Repr := {this};
    }

    /** The first spare chunk is no other chunk of the queue. */
    lemma FirstSpare()
      requires Chunks() && spare != null
      ensures spares != []
      ensures var c, rest := spares[0], spares[1..];
        && spare == c && Linked(c.next, rest) && c !in rest && c !in heads
        && Apart(rest) && Foreign(c, heads) && Foreign(c, rest)
        && forall i :: 0 <= i < |heads| ==> Foreign(heads[i], rest)
    {
      LinkedRest(spare, spares);
      ApartRest(spares);
      forall i | 0 <= i < |heads|
        ensures heads[i] != spares[0] && heads[i].data != spares[0].data && Foreign(heads[i], spares[1..])
      {
        assert Foreign(heads[i], spares);
      }
    }

    /** Takes the first chunk off the spare list, clean. */
    method PopSpare() returns (c: Chunk)
      requires PoolOk() && Chunks() && Counted() && spare != null
      modifies this`spare, this`spares, spare`next, spare`rOffset, spare`wOffset
      ensures PoolOk() && Chunks() && Loose(c) && c.next == null && c.rOffset == c.wOffset == 0
      ensures old(spares) == [c] + spares
    {
      hide Apart, Foreign, Linked;
      FirstSpare();
      c := spare;
      spare := c.next;
      c.Reset();
      spares := spares[1..];
    }

    lemma LooseAway(c: Chunk)
      requires Chunks() && Loose(c)
      ensures c !in heads && c !in spares
      ensures forall i :: 0 <= i < |heads| ==> Foreign(heads[i], [c] + spares)
    {
      forall i | 0 <= i < |heads|
        ensures Foreign(heads[i], [c] + spares)
      {
        assert Foreign(heads[i], spares);
      }
    }

    /** Puts a chunk in front of the spare list. */
    method PushSpare(c: Chunk)
      requires PoolOk() && Chunks() && Loose(c)
      modifies this`spare, this`spares, c`next
      ensures PoolOk() && Chunks() && Counted() && spares == [c] + old(spares)
    {
      LooseAway(c);
      ApartFront(c, spares);
      hide Apart, Foreign;
      c.next := spare;
      LinkedFront(c, spares);
      spare := c;
      spares := [c] + spares;
    }

    /** Makes a chunk that no queue owns a counted chunk of this queue. */
    method Adopt(c: Chunk)
      requires PoolOk() && Chunks() && chunkCount == |heads| + |spares| && (!softLimit ==> chunkCount < maxChunks)
      requires {c, c.data} !! Footprint() && c.data.Length == chunkSize
      modifies this`Repr, this`chunkCount
      ensures PoolOk() && Chunks() && Loose(c) && Repr == old(Repr) + {c, c.data} && chunkCount == old(chunkCount) + 1
    {
      Repr := Repr + {c, c.data};
      chunkCount := chunkCount + 1;
    }

    method Disown(c: Chunk)
      requires PoolOk() && Chunks() && Loose(c)
      modifies this`Repr, this`chunkCount
      ensures PoolOk() && Chunks() && Counted() && Repr == old(Repr) - {c, c.data}
      ensures {c, c.data} !! Footprint() && chunkCount == old(chunkCount) - 1
    {
      Repr := Repr - {c, c.data};
      chunkCount := chunkCount - 1;
    }

    lemma LooseBehind(c: Chunk)
      requires Chunks() && Loose(c) && tail != null
      ensures c !in heads && c !in spares && tail !in spares && Apart(heads + [c])
      ensures forall i :: 0 <= i < |heads + [c]| ==> Foreign((heads + [c])[i], spares)
      ensures forall i :: 0 <= i < |heads| - 1 ==> heads[i] != tail
    {
      assert Foreign(heads[|heads| - 1], spares);
    }

    /** Links a clean chunk behind the tail. */
    method LinkBehind(c: Chunk)
      requires PoolOk() && Chunks() && Loose(c) && c.next == null && c.rOffset == c.wOffset == 0 && tail != null
      modifies this`tail, this`heads, this`windows, tail`next
      ensures PoolOk() && Chunks() && Counted() && tail == c
      ensures heads == old(heads) + [c] && windows == old(windows) + [Window(0, [])]
    {
      hide Apart, Foreign;
      LooseBehind(c);
      tail.next := c;
      tail := c;
      heads := heads + [c];
      windows := windows + [Window(0, [])];
    }

    /** Makes a clean chunk the whole head list. */
    method LinkFirst(c: Chunk)
      requires PoolOk() && Chunks() && Loose(c) && c.next == null && c.rOffset == c.wOffset == 0 && tail == null
      modifies this`head, this`tail, this`heads, this`windows
      ensures PoolOk() && Chunks() && Counted() && tail == c
      ensures heads == old(heads) + [c] && windows == old(windows) + [Window(0, [])]
    {
      head, tail := c, c;
      heads := [c];
      windows := [Window(0, [])];
    }

    /** Takes the first chunk off the head list. */
    method UnlinkHead() returns (c: Chunk)
      requires PoolOk() && Chunks() && Counted() && head != null
      modifies this`head, this`tail, this`heads, this`windows
      ensures PoolOk() && Chunks() && Loose(c) && c == old(heads)[0]
      ensures heads == old(heads)[1..] && windows == old(windows)[1..]
    {
      c := head;
      LinkedRest(head, heads);
      ApartRest(heads);
      head := c.next;
      if tail == c {
        tail := head;
      }
      heads, windows := heads[1..], windows[1..];
    }

    /** `chunk_prev`: walks from the head to the chunk linked in front of the tail. */
    method BeforeTail() returns (p: Chunk?)
      requires Chunks() && tail != null
      ensures p == if |heads| == 1 then null else heads[|heads| - 2]
      ensures p != null ==> p in heads
    {
      if head == tail {
        return null;
      }
      p := head;
      ghost var i := 0;
      while p.next != tail
        invariant 0 <= i < |heads| - 1 && p == heads[i]
        decreases |heads| - i
      {
        p := p.next;
        i := i + 1;
      }
      assert heads[i + 1] == heads[|heads| - 1];
    }

    lemma LastIsLoose()
      requires Chunks() && |heads| > 1
      ensures var n := |heads| - 1; var c, front := heads[n], heads[..n];
        && tail == c && Apart(front) && Foreign(c, front) && Foreign(c, spares) && heads[n - 1] !in spares
        && (forall i :: 0 <= i < n ==> Foreign(heads[i], spares))
        && (forall i :: 0 <= i < n - 1 ==> heads[i] != heads[n - 1])
    {
      assert Foreign(heads[|heads| - 2], spares);
    }

    /** Takes the last of several chunks off the head list. */
    method UnlinkAfter(p: Chunk) returns (c: Chunk)
      requires PoolOk() && Chunks() && Counted() && |heads| > 1 && p == heads[|heads| - 2]
      modifies this`tail, this`heads, this`windows, p`next
      ensures PoolOk() && Chunks() && Loose(c)
      ensures windows == old(windows)[..|old(windows)| - 1] && old(heads) == heads + [c]
    {
      LastIsLoose();
      hide Apart, Foreign;
      c := tail;
      tail := p;
      tail.next := null;
      heads, windows := heads[..|heads| - 1], windows[..|windows| - 1];
    }

    /** Takes the only chunk off the head list. */
    method UnlinkOnly() returns (c: Chunk)
      requires PoolOk() && Chunks() && Counted() && |heads| == 1
      modifies this`head, this`tail, this`heads, this`windows
      ensures PoolOk() && Chunks() && Loose(c)
      ensures windows == [] && heads == [] && old(heads) == [c]
    {
      c := tail;
      head, tail := null, null;
      heads, windows := [], [];
    }

    /** Takes the last chunk off the head list. */
    method UnlinkTail() returns (c: Chunk)
      requires PoolOk() && Chunks() && Counted() && tail != null
      modifies this`head, this`tail, this`heads, this`windows, heads`next
      ensures PoolOk() && Chunks() && Loose(c)
      ensures windows == old(windows)[..|old(windows)| - 1] && old(heads) == heads + [c]
    {
      Ends();
      var p := BeforeTail();
      hide Chunks, PoolOk;
      if p == null {
        c := UnlinkOnly();
      } else {
        c := UnlinkAfter(p);
      }
    }

    /** A clean chunk from the pool if there is one, else from the heap. */
    method NewChunk() returns (c: Chunk)
      requires PoolOk() && Chunks()
      modifies if pool == null then {} else pool.Repr
      ensures PoolOk() && Chunks() && (pool != null ==> pool.Repr <= old(Footprint()))
      ensures fresh(Footprint() + {c, c.data} - old(Footprint()))
      ensures {c, c.data} !! Footprint() && c.data.Length == chunkSize
      ensures c.next == null && c.rOffset == c.wOffset == 0
      ensures if old(Stocked().shared) == [] then fresh({c, c.data}) else c == old(Stocked().shared)[0]
      ensures pool != null ==> pool.spares == if old(pool.spares) == [] then [] else old(pool.spares)[1..]
    {
      if pool != null {
        c := pool.Take();
      } else {
        c := new Chunk(chunkSize);
      }
    }

    /** `get_spare`: a clean chunk, or none when the hard limit is reached. */
    method GetSpare() returns (c: Chunk?)
      requires PoolOk() && Chunks() && Counted()
      modifies Footprint()
      ensures PoolOk() && Chunks() && Confined()
      ensures heads == old(heads) && windows == old(windows)
      ensures c == null <==> old(spares) == [] && old(chunkCount) >= maxChunks && !softLimit
      ensures c == null ==> Counted() && Stocked() == old(Stocked())
      ensures c != null ==> Loose(c) && c.next == null && c.rOffset == c.wOffset == 0
      ensures c != null ==> Stocked() == Took(old(Stocked()))
      ensures c != null ==>
        if old(spares) != [] then c == old(spares)[0]
        else if old(Stocked().shared) != [] then c == old(Stocked().shared)[0]
        else fresh({c, c.data})
    {
      hide Chunks;
      Ends();
      if spare != null {
        c := PopSpare();
      } else if chunkCount >= maxChunks && !softLimit {
        c := null;
      } else {
        c := TakeNew();
      }
    }

    /** A chunk from the pool or the heap, which this queue counts from now on. */
    method TakeNew() returns (c: Chunk)
      requires PoolOk() && Chunks() && Counted() && spares == [] && (!softLimit ==> chunkCount < maxChunks)
      modifies Footprint()
      ensures PoolOk() && Chunks() && Confined()
      ensures heads == old(heads) && windows == old(windows)
      ensures Loose(c) && c.next == null && c.rOffset == c.wOffset == 0
      ensures Stocked() == Took(old(Stocked()))
      ensures if old(Stocked().shared) != [] then c == old(Stocked().shared)[0] else fresh({c, c.data})
    {
      hide Chunks;
      Ends();
      c := NewChunk();
      Adopt(c);
    }

    method GiveToPool(c: Chunk)
      requires PoolOk() && Chunks() && Loose(c) && pool != null
      modifies Footprint()
      ensures PoolOk() && Chunks() && Counted() && Confined()
      ensures heads == old(heads) && windows == old(windows) && Stocked() == Put(c, old(Stocked()))
    {
      hide Chunks;
      Ends();
      Disown(c);
      pool.Put(c);
    }

    /** What `prune_head` and `prune_tail` do with a chunk they took off the head list. */
    method Retire(c: Chunk)
      requires PoolOk() && Chunks() && Loose(c)
      modifies Footprint()
      ensures PoolOk() && Chunks() && Counted() && Confined()
      ensures heads == old(heads) && windows == old(windows) && Stocked() == Put(c, old(Stocked()))
    {
      hide Chunks, PoolOk;
      Ends();
      if pool != null {
        GiveToPool(c);
      } else if chunkCount > maxChunks || noSpares {
        Disown(c);
      } else {
        PushSpare(c);
      }
    }

    /** Where the first unread byte is in its chunk. */
    ghost function Front(): nat
      reads this`windows
    {
      Start(windows)
    }

    /** What `Curl_bufq_space` adds up. */
    ghost function Space(): nat
      reads this`windows, this`spares, this`chunkCount
    {
      FreeBytes(windows, |spares|, chunkCount, maxChunks, chunkSize)
    }

    /** Under the hard limit every byte of capacity is stored, free, or already read from the head
        chunk and not yet reclaimed. */
    lemma SpaceLaw()
      requires Valid() && !softLimit
      ensures |Contents()| + Space() + Front() == maxChunks * chunkSize
    {
      Ends();
      CapacityLaw(windows, |spares|, maxChunks, chunkSize);
    }

    /** The invariant in terms of the chunks: every chunk but the tail is full and not empty, only the head
        chunk has been read from, the tail ends the list, and the counter counts both lists. */
    lemma Layout()
      requires Valid()
      ensures forall i ::
        0 <= i < |heads| - 1 ==> heads[i].rOffset < heads[i].wOffset == heads[i].data.Length == chunkSize
      ensures forall i :: 0 < i < |heads| ==> heads[i].rOffset == 0
      ensures forall i :: 0 <= i < |heads| - 1 ==> heads[i].next == heads[i + 1]
      ensures heads != [] ==> tail == heads[|heads| - 1] && tail.next == null
      ensures chunkCount == |heads| + |spares| && (!softLimit ==> chunkCount <= maxChunks)
    {
      hide PoolOk;
      forall i | 0 <= i < |heads|
        ensures heads[i].rOffset == windows[i].start
        ensures heads[i].wOffset == End(windows[i]) && heads[i].data.Length == chunkSize
      {
        assert heads[i].View() == windows[i];
      }
    }

    /** Puts a spare or new chunk behind the tail, if the limit allows one. */
    method GrowTail() returns (c: Chunk?)
      requires PoolOk() && Chunks() && Counted()
      modifies Footprint()
      ensures PoolOk() && Chunks() && Counted()
      ensures Confined()
      ensures c == null ==> windows == old(windows) && spares == [] && chunkCount >= maxChunks && !softLimit
      ensures c != null ==> c == tail && windows == old(windows) + [Window(0, [])]
    {
      hide Chunks, PoolOk, Stocked, Took;
      c := GetSpare();
      if c != null {
        Ends();
        if tail != null {
          LinkBehind(c);
        } else {
          LinkFirst(c);
        }
      }
    }

    /** `get_non_full_tail`: the tail if it has room, else a new tail, else null. */
    method GetNonFullTail() returns (c: Chunk?)
      requires Valid()
      modifies Footprint()
      ensures Valid()
      ensures Confined()
      ensures Contents() == old(Contents()) && Front() == old(Front())
      ensures c == null ==> !softLimit && Space() == 0
      ensures c != null ==> c == tail && TailSpace(windows, chunkSize) > 0
    {
      if tail != null && !tail.IsFull() {
        return tail;
      }
      PushWindow(windows, chunkSize);
      c := GrowTail();
    }

    /** The tail shares nothing with the other chunks. */
    lemma TailAlone()
      requires Chunks() && tail != null
      ensures forall i :: 0 <= i < |heads| - 1 ==> heads[i] != tail && heads[i].data != tail.data
      ensures tail !in spares
    {
      assert Foreign(heads[|heads| - 1], spares);
    }

    method AppendTail(buf: seq<byte>) returns (n: nat)
      requires PoolOk() && Chunks() && tail != null
      modifies this`windows, tail`wOffset, tail.data
      ensures PoolOk() && Chunks() && n == Min(TailSpace(old(windows), chunkSize), |buf|)
      ensures windows == Extended(old(windows), buf[..n])
    {
      TailAlone();
      hide Apart, Foreign;
      n := tail.Append(buf);
      windows := windows[|windows| - 1 := tail.View()];
    }

    /** One round of the write loop: what fits into the tail, or nothing when there is no room. */
    method WriteChunk(buf: seq<byte>) returns (k: nat)
      requires Valid() && buf != []
      modifies Footprint()
      ensures Valid() && Confined() && k <= |buf|
      ensures Contents() == old(Contents()) + buf[..k] && Front() == old(Front())
      ensures k == 0 ==> !softLimit && Space() == 0
    {
      hide Chunks, Packed, PoolOk, Extended, Flat;
      k := 0;
      var t := GetNonFullTail();
      if t != null {
        Ends();
        AppendLast(windows, buf[..Min(TailSpace(windows, chunkSize), |buf|)], chunkSize);
        k := AppendTail(buf);
      }
    }

    /** The write loop: takes bytes until all are stored or there is no room. */
    method WriteChunks(buf: seq<byte>) returns (i: nat)
      requires Valid()
      modifies Footprint()
      ensures Valid() && Confined() && i <= |buf|
      ensures Contents() == old(Contents()) + buf[..i] && Front() == old(Front())
      ensures i < |buf| ==> !softLimit && Space() == 0
    {
      hide Chunks, Packed, PoolOk;
      i := 0;
      while i < |buf|
        invariant 0 <= i <= |buf| && Valid() && Confined()
        invariant Contents() == old(Contents()) + buf[..i] && Front() == old(Front())
      {
        var k := WriteChunk(buf[i..]);
        if k == 0 {
          break;
        }
        TakeMore(old(Contents()), buf, i, k);
        i := i + k;
      }
    }

    /** `Curl_bufq_write`. */
    method Write(buf: seq<byte>) returns (n: int, err: Code)
      requires Valid()
      modifies Footprint()
      ensures Valid() && Confined()
      ensures (n == -1 && err == Again && buf != []) || (0 <= n <= |buf| && err == Ok && (n == 0 ==> buf == []))
      ensures Contents() == old(Contents()) + buf[..if n < 0 then 0 else n]
      ensures softLimit ==> n == |buf|
      ensures !softLimit ==> (if n < 0 then 0 else n) == Min(|buf|, old(Space()))
      ensures !softLimit ==> Space() == old(Space()) - if n < 0 then 0 else n
      ensures Front() == old(Front())
    {
      if !softLimit {
        SpaceLaw();
      }
      n := WriteChunks(buf);
      if !softLimit {
        SpaceLaw();
      }
      if n == 0 && |buf| > 0 {
        return -1, Again;
      }
      return n, Ok;
    }

    method DropHead()
      requires this in Repr && PoolOk() && Chunks() && Counted() && head != null
      modifies Footprint()
      ensures this in Repr && PoolOk() && Chunks() && Counted() && Confined()
      ensures windows == old(windows)[1..] && heads == old(heads)[1..]
      ensures Stocked() == Put(old(heads)[0], old(Stocked()))
    {
      hide Chunks, PoolOk;
      Ends();
      var c := UnlinkHead();
      Retire(c);
      Ends();
    }

    method DropTail()
      requires this in Repr && PoolOk() && Chunks() && Counted() && tail != null
      modifies Footprint()
      ensures this in Repr && PoolOk() && Chunks() && Counted() && Confined()
      ensures windows == old(windows)[..|old(windows)| - 1] && heads == old(heads)[..|old(heads)| - 1]
      ensures Stocked() == Put(old(heads)[|old(heads)| - 1], old(Stocked()))
    {
      hide Chunks, PoolOk;
      Ends();
      var c := UnlinkTail();
      Retire(c);
      Ends();
    }

    /** What the ends of the head list show. */
    lemma Ends()
      requires Chunks()
      ensures this in Repr && chunkSize > 0
      ensures (forall c :: c in heads ==> c in Repr) && (spare != null ==> spare in Repr)
      ensures |windows| == |heads| && (head == null <==> windows == []) && (head == null ==> Contents() == [])
      ensures tail == null <==> windows == []
      ensures tail != null ==> tail in Repr && tail.data in Repr && tail == heads[|heads| - 1]
      ensures tail != null ==> tail.data.Length == chunkSize
      ensures head != null ==> head in Repr && head.data in Repr && head == heads[0]
      ensures |heads| == |windows| && (spares == [] <==> spare == null) && (spare != null ==> spare == spares[0])
      ensures head != null ==> (head.IsEmpty() <==> windows[0].bytes == [])
      ensures tail != null ==> (tail.IsEmpty() <==> windows[|windows| - 1].bytes == [])
      ensures tail != null ==> (tail.IsFull() <==> TailSpace(windows, chunkSize) == 0)
      ensures tail != null ==> TailSpace(windows, chunkSize) == tail.data.Length - tail.wOffset
    {
    }

    ghost predicate Prunable()
      reads this, Repr, pool, if pool == null then {} else pool.Repr
    {
      this in Repr && PoolOk() && Chunks() && Counted() && AlmostPacked(windows, chunkSize)
    }

    /** `prune_head`: takes every leading empty chunk off the head list. */
    method PruneHead()
      requires Prunable()
      modifies Footprint()
      ensures Valid() && Confined()
      ensures windows == SkipEmpty(old(windows))
      ensures var n := |old(heads)| - |heads|;
        n >= 0 && heads == old(heads)[n..] && Stocked() == PutEach(old(heads)[..n], old(Stocked()))
    {
      hide Chunks, PoolOk, Packed, AlmostPacked, SkipEmpty, Stocked, Put;
      ghost var n := 0;
      while head != null && head.IsEmpty()
        invariant Prunable() && Confined()
        invariant SkipEmpty(windows) == SkipEmpty(old(windows))
        invariant n <= |old(heads)| && heads == old(heads)[n..] && Stocked() == PutEach(old(heads)[..n], old(Stocked()))
        decreases |windows|
      {
        Ends();
        SkipOne(windows, chunkSize);
        assert old(heads)[..n + 1][..n] == old(heads)[..n];
        DropHead();
        n := n + 1;
      }
      Ends();
      SkipNone(windows, chunkSize);
    }

    /** `prune_tail`: takes every trailing empty chunk off the head list. */
    method PruneTail()
      requires Valid()
      modifies Footprint()
      ensures Valid() && Confined()
      ensures windows == TrimEmpty(old(windows))
      ensures var n := |heads|;
        n <= |old(heads)| && heads == old(heads)[..n] && Stocked() == PutEachBack(old(heads)[n..], old(Stocked()))
    {
      hide Chunks, PoolOk, Packed, TrimEmpty, Stocked, Put;
      while tail != null && tail.IsEmpty()
        invariant Valid() && Confined()
        invariant TrimEmpty(windows) == TrimEmpty(old(windows))
        invariant var n := |heads|;
          n <= |old(heads)| && heads == old(heads)[..n] && Stocked() == PutEachBack(old(heads)[n..], old(Stocked()))
        decreases |windows|
      {
        Ends();
        TrimOne(windows, chunkSize);
        ghost var n := |heads| - 1;
        assert old(heads)[n..] == [heads[n]] + old(heads)[n + 1..];
        DropTail();
      }
      Ends();
      TrimNone(windows);
    }

    method ReadHead(buf: array<byte>, pos: nat) returns (n: nat)
      requires PoolOk() && Chunks() && head != null && pos <= buf.Length && buf !in Footprint()
      modifies this`windows, head`rOffset, head`wOffset, buf
      ensures PoolOk() && Chunks() && n == Min(|old(windows)[0].bytes|, buf.Length - pos)
      ensures windows == Advanced(old(windows), n)
      ensures buf[..pos] == old(buf[..pos]) && buf[pos + n..] == old(buf[pos + n..])
      ensures buf[pos..pos + n] == old(windows)[0].bytes[..n]
    {
      hide Consumed;
      n := head.Read(buf, pos);
      windows := windows[0 := head.View()];
    }

    method SkipHead(amount: nat) returns (n: nat)
      requires PoolOk() && Chunks() && head != null
      modifies this`windows, head`rOffset, head`wOffset
      ensures PoolOk() && Chunks() && n == Min(|old(windows)[0].bytes|, amount)
      ensures windows == Advanced(old(windows), n)
    {
      hide Consumed;
      n := head.Skip(amount);
      windows := windows[0 := head.View()];
    }

    method UnwriteTail(len: nat) returns (n: nat)
      requires PoolOk() && Chunks() && tail != null
      modifies this`windows, tail`rOffset, tail`wOffset
      ensures PoolOk() && Chunks() && n == Min(|old(windows)[|old(windows)| - 1].bytes|, len)
      ensures windows == Shortened(old(windows), n)
    {
      TailAlone();
      hide Apart, Foreign;
      hide Dropped;
      n := tail.Unwrite(len);
      windows := windows[|windows| - 1 := tail.View()];
    }

    /** Reads from the first chunk, which may leave it empty but still linked. */
    method ReadFirst(buf: array<byte>, pos: nat) returns (n: nat)
      requires Valid() && head != null && pos < buf.Length && buf !in Footprint()
      modifies this`windows, head`rOffset, head`wOffset, buf
      ensures Prunable() && n <= |old(Contents())| && pos + n <= buf.Length
      ensures windows != [] && |windows| == old(|windows|) && (windows[0].bytes == [] || pos + n == buf.Length)
      ensures n <= |old(windows)[0].bytes| && windows == Advanced(old(windows), n)
      ensures Contents() == old(Contents())[n..] && buf[pos..pos + n] == old(Contents())[..n]
      ensures buf[..pos] == old(buf[..pos]) && buf[pos + n..] == old(buf[pos + n..])
    {
      hide Chunks, PoolOk, Packed, AlmostPacked, Advanced, Flat;
      Ends();
      ConsumeFirst(windows, Min(|windows[0].bytes|, buf.Length - pos), chunkSize);
      n := ReadHead(buf, pos);
    }

    lemma FrontNow()
      requires Valid()
      ensures Front() == Onward(Front(), 0, Contents() == [], chunkSize) < chunkSize
      ensures Contents() == [] ==> Front() == 0
    {
      FrontBounds(windows, chunkSize);
    }

    /** One round of the read loop. */
    method ReadChunk(buf: array<byte>, pos: nat) returns (n: nat)
      requires Valid() && head != null && pos < buf.Length && buf !in Footprint()
      modifies Footprint(), buf
      ensures Valid() && Confined() && n <= |old(Contents())| && pos + n <= buf.Length
      ensures Contents() == old(Contents())[n..] && buf[pos..pos + n] == old(Contents())[..n]
      ensures buf[..pos] == old(buf[..pos]) && buf[pos + n..] == old(buf[pos + n..])
      ensures |windows| < old(|windows|) || (pos + n == buf.Length && |windows| == old(|windows|))
      ensures Front() == Onward(old(Front()), n, Contents() == [], chunkSize)
    {
      hide Chunks, PoolOk, Packed, AlmostPacked, Flat, SkipEmpty, Counted, Advanced, Start, Onward, Put, Stocked;
      Ends();
      n := ReadFirst(buf, pos);
      FrontAfterTaking(old(windows), n, chunkSize);
      label Copied:
      PruneHead();
      assert buf[..] == old@Copied(buf[..]);
    }

    /** The read loop: copies bytes until the buffer is full, or none are left. */
    method ReadChunks(buf: array<byte>) returns (pos: nat)
      requires Valid() && buf !in Footprint()
      modifies Footprint(), buf
      ensures Valid() && Confined() && pos <= buf.Length && LeftAfter(old(Contents()), pos, Contents())
      ensures (pos == buf.Length || Contents() == []) && pos <= |old(Contents())|
      ensures buf[..pos] == old(Contents())[..pos] && buf[pos..] == old(buf[pos..])
      ensures Front() == Onward(old(Front()), pos, Contents() == [], chunkSize)
    {
      hide Chunks, PoolOk, Packed, Flat, Counted, Contents, Front, Onward, LeftAfter;
      Ends();
      FrontNow();
      ghost var all, front := Contents(), Front();
      LeftAtFirst(all);
      pos := 0;
      while pos < buf.Length && head != null
        invariant Valid() && Confined() && pos <= buf.Length && pos <= |all| && LeftAfter(all, pos, Contents())
        invariant buf[..pos] == all[..pos] && buf[pos..] == old(buf[pos..])
        invariant Front() == Onward(front, pos, Contents() == [], chunkSize)
        decreases |windows|, buf.Length - pos
      {
        ghost var before := Contents();
        var k := ReadChunk(buf, pos);
        LeftMore(all, pos, before, k);
        FirstMore(all, pos, before, k);
        assert buf[..pos + k] == buf[..pos] + buf[pos..pos + k];
        assert buf[pos + k..] == old(buf[pos..])[k..];
        OnwardTwice(front, pos, k, before == [], Contents() == [], chunkSize);
        pos := pos + k;
      }
      Ends();
    }

    /** `Curl_bufq_read`, into a buffer of exactly `len` bytes. */
    method Read(buf: array<byte>) returns (n: int, err: Code)
      requires Valid() && buf !in Footprint()
      modifies Footprint(), buf
      ensures Valid() && Confined()
      ensures var k := Min(buf.Length, |old(Contents())|);
        && (n, err) == (if k == 0 then (-1, Again) else (k, Ok))
        && buf[..k] == old(Contents())[..k] && buf[k..] == old(buf[k..])
        && Contents() == old(Contents())[k..] && Front() == Onward(old(Front()), k, Contents() == [], chunkSize)
    {
      hide Chunks, PoolOk, Packed, Flat, Counted, Contents, Front, Onward;
      Ends();
      var pos := ReadChunks(buf);
      assert pos == Min(buf.Length, |old(Contents())|);
      if pos == 0 {
        return -1, Again;
      }
      return pos, Ok;
    }

    method SkipFirst(amount: nat) returns (n: nat)
      requires Valid() && head != null && amount > 0
      modifies this`windows, head`rOffset, head`wOffset
      ensures Prunable() && n <= Min(amount, |old(Contents())|)
      ensures windows != [] && |windows| == old(|windows|) && (windows[0].bytes == [] || n == amount)
      ensures n <= |old(windows)[0].bytes| && windows == Advanced(old(windows), n)
      ensures Contents() == old(Contents())[n..]
    {
      hide Chunks, PoolOk, Packed, AlmostPacked, Advanced, Flat;
      Ends();
      ConsumeFirst(windows, Min(|windows[0].bytes|, amount), chunkSize);
      n := SkipHead(amount);
    }

    /** One round of the skip loop. */
    method SkipChunk(amount: nat) returns (n: nat)
      requires Valid() && head != null && amount > 0
      modifies Footprint()
      ensures Valid() && Confined() && n <= Min(amount, |old(Contents())|)
      ensures |windows| < old(|windows|) || (n == amount && |windows| == old(|windows|))
      ensures Contents() == old(Contents())[n..] && Front() == Onward(old(Front()), n, Contents() == [], chunkSize)
    {
      hide Chunks, PoolOk, Packed, AlmostPacked, Flat, SkipEmpty, Stocked, Put, Counted, Advanced, Start, Onward;
      Ends();
      n := SkipFirst(amount);
      FrontAfterTaking(old(windows), n, chunkSize);
      PruneHead();
    }

    /** The skip loop: takes bytes until there are enough, or none left. */
    method SkipChunks(amount: nat) returns (ghost taken: nat)
      requires Valid()
      modifies Footprint()
      ensures Valid() && Confined() && LeftAfter(old(Contents()), taken, Contents())
      ensures taken <= amount && (taken == amount || Contents() == [])
      ensures Front() == Onward(old(Front()), taken, Contents() == [], chunkSize)
    {
      hide Chunks, PoolOk, Packed, Flat, Counted, Contents, Front, Onward, LeftAfter;
      Ends();
      FrontNow();
      ghost var all, front := Contents(), Front();
      LeftAtFirst(all);
      var left: nat := amount;
      taken := 0;
      while left > 0 && head != null
        invariant Valid() && Confined() && taken + left == amount && LeftAfter(all, taken, Contents())
        invariant Front() == Onward(front, taken, Contents() == [], chunkSize)
        decreases |windows|, left
      {
        ghost var before := Contents();
        var n := SkipChunk(left);
        LeftMore(all, taken, before, n);
        OnwardTwice(front, taken, n, before == [], Contents() == [], chunkSize);
        left, taken := left - n, taken + n;
      }
      Ends();
    }

    /** `Curl_bufq_skip`. */
    method Skip(amount: nat)
      requires Valid()
      modifies Footprint()
      ensures Valid() && Confined()
      ensures Contents() == old(Contents())[Min(amount, |old(Contents())|)..]
      ensures Front() == Onward(old(Front()), Min(amount, |old(Contents())|), Contents() == [], chunkSize)
    {
      hide Chunks, PoolOk, Packed, Flat, Counted, Contents, Front, Onward;
      Ends();
      ghost var taken := SkipChunks(amount);
      assert taken == Min(amount, |old(Contents())|);
    }

    method UnwriteLast(len: nat) returns (n: nat)
      requires Valid() && tail != null && len > 0
      modifies this`windows, tail`rOffset, tail`wOffset
      ensures Valid() && n <= Min(len, |old(Contents())|)
      ensures windows != [] && |windows| == old(|windows|) && (windows[|windows| - 1].bytes == [] || n == len)
      ensures n <= |old(windows)[|windows| - 1].bytes| && windows == Shortened(old(windows), n)
      ensures Contents() == old(Contents())[..|old(Contents())| - n]
    {
      hide Chunks, PoolOk, Packed, Shortened, Flat, Dropped, Counted;
      Ends();
      DropLast(windows, Min(|windows[|windows| - 1].bytes|, len), chunkSize);
      n := UnwriteTail(len);
    }

    /** One round of the unwrite loop. */
    method UnwriteChunk(len: nat) returns (n: nat)
      requires Valid() && tail != null && len > 0
      modifies Footprint()
      ensures Valid() && Confined() && n <= Min(len, |old(Contents())|)
      ensures |windows| < old(|windows|) || (n == len && |windows| == old(|windows|))
      ensures Contents() == old(Contents())[..|old(Contents())| - n]
      ensures Front() == if Contents() == [] then 0 else old(Front())
    {
      hide Chunks, PoolOk, Packed, Flat, TrimEmpty, Stocked, Put, Counted, Shortened, Start;
      Ends();
      n := UnwriteLast(len);
      FrontAfterDropping(old(windows), n, chunkSize);
      PruneTail();
    }

    /** `Curl_bufq_unwrite`. */
    method Unwrite(len: nat) returns (err: Code)
      requires Valid()
      modifies Footprint()
      ensures Valid() && Confined()
      ensures err == if len <= |old(Contents())| then Ok else Again
      ensures Contents() == old(Contents())[..|old(Contents())| - Min(len, |old(Contents())|)]
      ensures Front() == if Contents() == [] then 0 else old(Front())
    {
      hide Chunks, PoolOk, Packed, Flat, Counted, Contents, Front;
      Ends();
      FrontNow();
      ghost var all, front := Contents(), Front();
      var left: nat := len;
      ghost var kept: nat := |all|;
      while left > 0 && tail != null
        invariant Valid() && Confined() && kept <= |all| && |all| - kept + left == len
        invariant Contents() == all[..kept] && Front() == if Contents() == [] then 0 else front
        decreases |windows|, left
      {
        var n := UnwriteChunk(left);
        EarlierStill(all, kept, n);
        left, kept := left - n, kept - n;
      }
      Ends();
      return if left > 0 then Again else Ok;
    }

    /** `Curl_bufq_reset`: every chunk goes to the spare list, in either pool mode. */
    method Reset()
      requires Valid()
      modifies Footprint()
      ensures Valid() && Confined() && Contents() == [] && Front() == 0
      ensures chunkCount == old(chunkCount) && |spares| == chunkCount
    {
      hide Chunks, Packed, Flat;
      while head != null
        invariant this in Repr && PoolOk() && Chunks() && Counted() && Confined()
        invariant chunkCount == old(chunkCount) && Footprint() == old(Footprint())
        decreases |heads|
      {
        Ends();
        var c := UnlinkHead();
        PushSpare(c);
      }
      Ends();
      NothingPacked(chunkSize);
    }

    /** `Curl_bufq_free`. */
    method Free()
      requires Valid()
      modifies this
      ensures Valid() && Repr == {this} && Contents() == [] && chunkCount == 0
    {
      hide Apart, Foreign, Owned;
      NoChunks();
      head, tail, spare, chunkCount := null, null, null, 0;
      heads, spares, windows := [], [], [];
      Repr := {this};
    }

    static lemma NoChunks()
      ensures Apart([]) && forall size, repr: set<object> :: Owned([], size, repr)
    {
    }

    /** Node `i` of the head list and its successor. */
    lemma Node(i: nat)
      requires Chunks() && i < |heads|
      ensures heads[i].Ok() && heads[i].View() == windows[i] && |windows| == |heads|
      ensures heads[i].next == if i + 1 < |heads| then heads[i + 1] else null
    {
    }

    /** Node `i` of the spare list and its successor. */
    lemma SpareNode(i: nat)
      requires Chunks() && i < |spares|
      ensures spares[i].data.Length == chunkSize
      ensures spares[i].next == if i + 1 < |spares| then spares[i + 1] else null
    {
    }

    /** `Curl_bufq_len`. */
    method Len() returns (len: nat)
      requires Valid()
      ensures len == |Contents()|
    {
      assert Flat(windows[..0]) == [];
      hide Chunks, PoolOk, Packed, Flat;
      Ends();
      len := 0;
      var chunk := head;
      ghost var i := 0;
      while chunk != null
        invariant 0 <= i <= |heads| && chunk == if i < |heads| then heads[i] else null
        invariant len == |Flat(windows[..i])|
        decreases |heads| - i
      {
        Node(i);
        FlatTake(windows, i);
        len := len + (chunk.wOffset - chunk.rOffset);
        chunk := chunk.next;
        i := i + 1;
      }
      assert windows[..i] == windows;
    }

    /** The second part of `Curl_bufq_space`: the spare chunks. */
    method SpareBytes() returns (space: nat)
      requires Valid()
      ensures space == Times(|spares|, chunkSize)
    {
      hide Chunks, PoolOk, Packed, Flat;
      Ends();
      space := 0;
      var chunk := spare;
      ghost var i := 0;
      while chunk != null
        invariant 0 <= i <= |spares| && chunk == if i < |spares| then spares[i] else null
        invariant space == i * chunkSize
        decreases |spares| - i
      {
        SpareNode(i);
        assert (i + 1) * chunkSize == i * chunkSize + chunkSize;
        space := space + chunk.data.Length;
        chunk := chunk.next;
        i := i + 1;
      }
    }

    /** `Curl_bufq_space`. */
    method SpaceLeft() returns (space: nat)
      requires Valid()
      ensures space == Space()
    {
      space := SpareBytes();
      Ends();
      assert windows == [] ==> TailSpace(windows, chunkSize) == 0;
      hide Chunks, PoolOk, Packed, Flat, TailSpace, Times;
      if tail != null {
        space := space + (tail.data.Length - tail.wOffset);
      }
      if chunkCount < maxChunks {
        space := space + Times(maxChunks - chunkCount, chunkSize);
      }
    }

    /** `Curl_bufq_is_empty`. */
    predicate IsEmpty()
      reads this, head
    {
      head == null || head.IsEmpty()
    }

    /** `Curl_bufq_is_full`. */
    predicate IsFull()
      reads this, tail
    {
      if tail == null || spare != null then false
      else if chunkCount < maxChunks then false
      else if chunkCount > maxChunks then true
      else tail.IsFull()
    }

    /** Empty means no bytes. Full means no space, except that a queue past its soft limit also
        calls itself full while its tail has room. */
    lemma EmptyAndFull()
      requires Valid()
      ensures IsEmpty() <==> Contents() == []
      ensures !softLimit ==> (IsFull() <==> Space() == 0)
      ensures IsFull() <==> Space() == 0 || (spare == null && chunkCount > maxChunks)
    {
      Ends();
      FlatEmptyIff(windows, chunkSize);
      FreeBytesZero(windows, |spares|, chunkCount, maxChunks, chunkSize);
      hide Chunks, PoolOk, Packed, Flat, FreeBytes, TailSpace;
    }

    /** An empty queue has its whole capacity free. */
    lemma EmptyHasSpace()
      requires Valid() && !softLimit && Contents() == []
      ensures Space() > 0
    {
      hide Chunks, PoolOk, Packed, Counted, FreeBytes, Flat;
      Ends();
      FrontNow();
      SpaceLaw();
      HasChunkSize();
    }

    lemma HasChunkSize()
      requires Chunks()
      ensures maxChunks * chunkSize > 0
    {
    }

    /** `Curl_bufq_peek`: the unread bytes of the first chunk; drops leading empty chunks. */
    method Peek() returns (c: Chunk?, at: nat, len: nat)
      requires Valid()
      modifies Footprint()
      ensures Valid() && Confined() && Contents() == old(Contents()) && Front() == old(Front())
      ensures c == null <==> Contents() == []
      ensures c != null ==> c in Repr && c.data in Repr && at + len <= c.data.Length
      ensures len == Min(|Contents()|, chunkSize - Front())
      ensures c != null ==> len > 0 && c.data[at..at + len] == Contents()[..len]
    {
      hide Chunks, PoolOk, Packed, AlmostPacked, Counted, Front, Contents;
      Ends();
      Settle();
      Ends();
      FrontNow();
      if head != null && !head.IsEmpty() {
        FirstBytes();
        return head, head.rOffset, head.wOffset - head.rOffset;
      }
      return null, 0, 0;
    }

    /** Drops leading empty chunks, for a peek. */
    method Settle()
      requires Valid()
      modifies Footprint()
      ensures Valid() && Confined() && Contents() == old(Contents()) && Front() == old(Front())
      ensures head == null || head.IsEmpty() ==> Contents() == []
    {
      hide Chunks, PoolOk, Packed, SkipEmpty, Flat, Stocked, Put, Start, Counted;
      Ends();
      if head != null && head.IsEmpty() {
        SkippedFront(windows, chunkSize);
        PruneHead();
      }
      Ends();
    }

    /** The bytes of the first chunk are the first of the queue. */
    lemma FirstBytes()
      requires Valid() && head != null && !head.IsEmpty()
      ensures var at, len := head.rOffset, head.wOffset - head.rOffset;
        && head in Repr && head.data in Repr && 0 < len == Min(|Contents()|, chunkSize - Front())
        && at + len == head.wOffset <= head.data.Length && head.data[at..at + len] == Contents()[..len]
    {
      hide Chunks, PoolOk, Packed, Flat, Start, Mod, Onward, Counted;
      Ends();
      FrontNow();
      FlatNone(windows);
      Slice(0, 0);
      ModBelow(Front(), chunkSize);
    }

    /** Byte `k` of window `i`, and what follows it there, as seen from the whole queue. */
    lemma Slice(i: nat, k: nat)
      requires Chunks() && Packed(windows, chunkSize) && i < |heads| && k < heads[i].wOffset - heads[i].rOffset
      ensures var offset := |Flat(windows[..i])| + k; var c := heads[i]; var len := c.wOffset - (c.rOffset + k);
        0 < len == Min(|Contents()| - offset, chunkSize - Mod(Front() + offset, chunkSize)) && c.Ok()
        && c.data[c.rOffset + k..c.rOffset + k + len] == Contents()[offset..offset + len]
    {
      hide Chunks, Packed, Flat, Start, Mod;
      Node(i);
      Ends();
      WholeChunks(windows, i, k, chunkSize);
      FlatSlice(windows, i, k);
      assert windows[i].bytes[k..] == heads[i].data[heads[i].rOffset + k..heads[i].wOffset];
    }

    /** The loop of `Curl_bufq_peek_at`: the chunk that holds byte `offset`, and the byte's distance
        from the first unread one there. */
    method Locate(offset: nat) returns (c: Chunk?, left: nat, ghost i: nat)
      requires Valid()
      ensures c == null ==> offset >= |Contents()|
      ensures c != null ==> i < |heads| && c == heads[i] && c.Ok() && left < c.wOffset - c.rOffset
      ensures c != null ==> offset == |Flat(windows[..i])| + left
    {
      Ends();
      assert Flat(windows[..0]) == [];
      hide Chunks, PoolOk, Packed, Flat;
      c, left, i := head, offset, 0;
      while c != null
        invariant 0 <= i <= |heads| && c == if i < |heads| then heads[i] else null
        invariant offset == |Flat(windows[..i])| + left
        decreases |heads| - i
      {
        Node(i);
        FlatTake(windows, i);
        var clen := c.wOffset - c.rOffset;
        if clen == 0 {
          FlatEnd(windows, i, chunkSize);
          return null, left, i;
        }
        if left < clen {
          return;
        }
        left := left - clen;
        c := c.next;
        i := i + 1;
      }
      FlatEnd(windows, i, chunkSize);
    }

    /** `Curl_bufq_peek_at`: the unread bytes from `offset` on to the end of their chunk. */
    method PeekAt(offset: nat) returns (c: Chunk?, at: nat, len: nat)
      requires Valid()
      ensures c == null <==> offset >= |Contents()|
      ensures c != null ==> c in heads && c.rOffset <= at && at + len == c.wOffset <= c.data.Length
      ensures if c == null then len == 0
        else
          && 0 < len == Min(|Contents()| - offset, chunkSize - Mod(Front() + offset, chunkSize))
          && c.data[at..at + len] == Contents()[offset..offset + len]
    {
      hide Chunks, PoolOk, Packed, Flat, Mod, Start;
      Ends();
      var left: nat;
      ghost var i: nat;
      c, left, i := Locate(offset);
      if c == null {
        return null, 0, 0;
      }
      Slice(i, left);
      return c, c.rOffset + left, c.wOffset - (c.rOffset + left);
    }

    method SlurpTail(maxLen: nat, reader: Reader) returns (n: int, err: Code, ghost got: seq<byte>)
      requires PoolOk() && Chunks() && tail != null && TailSpace(windows, chunkSize) > 0 && reader !in Footprint()
      modifies this`windows, tail`wOffset, tail.data, reader
      ensures PoolOk() && Chunks() && reader.calls == old(reader.calls) + 1 && reader.lastResult == n
      ensures var room := TailSpace(old(windows), chunkSize);
        -1 <= n <= room && (maxLen > 0 ==> n <= maxLen)
        && (reader.FallsShort(old(reader.calls)) ==> n < room && (maxLen > 0 ==> n < maxLen))
        && (reader.Fills(old(reader.calls)) && maxLen == 0 ==> n == room)
      ensures n < 0 ==> err != Ok
      ensures n >= 0 ==> err == Ok
      ensures |got| == (if n < 0 then 0 else n) && reader.produced == old(reader.produced) + got
      ensures windows == Extended(old(windows), got)
    {
      TailAlone();
      hide Apart, Foreign;
      hide Reader.Fills, Reader.FallsShort;
      n, err, got := tail.Slurp(maxLen, reader);
      windows := windows[|windows| - 1 := tail.View()];
    }

    /** `Curl_bufq_sipn`: one reader call into the tail, for at most `maxLen` bytes unless that is 0. */
    method Sip(maxLen: nat, reader: Reader) returns (n: int, err: Code)
      requires Valid() && reader !in Footprint()
      modifies Footprint(), reader
      ensures Valid() && Confined() && -1 <= n && (n >= 0 <==> err == Ok)
      ensures old(reader.produced) <= reader.produced
      ensures |reader.produced| == |old(reader.produced)| + (if n < 0 then 0 else n)
      ensures Contents() == old(Contents()) + reader.produced[|old(reader.produced)|..]
      ensures Front() == old(Front())
      ensures old(reader.calls) <= reader.calls <= old(reader.calls) + 1
      ensures reader.calls == old(reader.calls) ==> n == -1 && err == Again && !softLimit && Space() == 0
      ensures reader.calls > old(reader.calls) ==> reader.lastResult == n
      ensures !softLimit ==> Space() == old(Space()) - if n < 0 then 0 else n
      ensures maxLen > 0 ==> n <= maxLen
      ensures n > 0 && (tail == null || tail.IsFull()) ==> !reader.FallsShort(old(reader.calls)) || n == maxLen
      ensures softLimit && maxLen == 0 && reader.Fills(old(reader.calls)) ==> n > 0 && tail != null && tail.IsFull()
    {
      hide Chunks, PoolOk, Packed, Extended, Flat, Reader.Fills, Reader.FallsShort, FreeBytes;
      if !softLimit {
        SpaceLaw();
      }
      var t := GetNonFullTail();
      if t == null {
        SpaceLaw();
        return -1, Again;
      }
      Ends();
      label Ready:
      ghost var got;
      n, err, got := SlurpTail(maxLen, reader);
      AppendLast(old@Ready(windows), got, chunkSize);
      Ends();
      if !softLimit {
        SpaceLaw();
      }
    }
  }
}
