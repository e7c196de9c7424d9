/** The chunk of `struct buf_chunk` (bufq.h) and the singly linked lists made of chunks. */
module BufChunk {
  import opened BufCallbacks
  import opened Bytes

  /** What a chunk holds: where its unread bytes start and which bytes they are. */
  datatype Window = Window(start: nat, bytes: seq<byte>)

  class Chunk {
    var next: Chunk?
    const data: array<byte>
    var rOffset: nat
    var wOffset: nat

    ghost predicate Ok()
      reads this`rOffset, this`wOffset
    {
      rOffset <= wOffset <= data.Length
    }

    ghost function View(): Window
      requires Ok()
      reads this`rOffset, this`wOffset, data
    {
      Window(rOffset, data[rOffset..wOffset])
    }

    constructor (size: nat)
      ensures Ok() && next == null && data.Length == size && fresh(data)
      ensures rOffset == wOffset == 0
    {
      next := null;
      data := new byte[size];
      rOffset, wOffset := 0, 0;
    }

    predicate IsEmpty()
      reads this`rOffset, this`wOffset
    {
      rOffset >= wOffset
    }

    predicate IsFull()
      reads this`wOffset
    {
      wOffset >= data.Length
    }

    method Reset()
      modifies this`next, this`rOffset, this`wOffset
      ensures next == null && rOffset == wOffset == 0
    {
      next := null;
      rOffset, wOffset := 0, 0;
    }

    method Append(buf: seq<byte>) returns (n: nat)
      requires Ok()
      modifies this`wOffset, data
      ensures Ok()
      ensures n == Min(data.Length - old(wOffset), |buf|)
      ensures View() == Window(old(rOffset), old(View().bytes) + buf[..n])
    {
      n := data.Length - wOffset;
      if n != 0 {
        n := Min(n, |buf|);
        forall i | 0 <= i < n {
          data[wOffset + i] := buf[i];
        }
        wOffset := wOffset + n;
      }
    }

    /** Copies into `buf` from position `pos` on; a chunk read empty starts over at offset 0. */
    method Read(buf: array<byte>, pos: nat) returns (n: nat)
      requires Ok() && pos <= buf.Length && buf != data
      modifies this`rOffset, this`wOffset, buf
      ensures Ok()
      ensures n == Min(|old(View().bytes)|, buf.Length - pos)
      ensures buf[..pos] == old(buf[..pos]) && buf[pos + n..] == old(buf[pos + n..])
      ensures buf[pos..pos + n] == old(View().bytes)[..n]
      ensures View() == Consumed(old(View()), n)
    {
      n := wOffset - rOffset;
      if n == 0 {
      } else if n <= buf.Length - pos {
        Copy(data, rOffset, buf, pos, n);
        rOffset, wOffset := 0, 0;
      } else {
        n := buf.Length - pos;
        Copy(data, rOffset, buf, pos, n);
        Parts(data, rOffset, rOffset + n, wOffset);
        rOffset := rOffset + n;
      }
    }

    /** `memcpy`. */
    static method Copy(from: array<byte>, at: nat, to: array<byte>, pos: nat, n: nat)
      requires from != to && at + n <= from.Length && pos + n <= to.Length
      modifies to
      ensures to[pos..pos + n] == from[at..at + n]
      ensures to[..pos] == old(to[..pos]) && to[pos + n..] == old(to[pos + n..])
    {
      forall i | 0 <= i < n {
        to[pos + i] := from[at + i];
      }
    }

    static lemma Parts(a: array<byte>, lo: nat, mid: nat, hi: nat)
      requires lo <= mid <= hi <= a.Length
      ensures a[lo..hi][..mid - lo] == a[lo..mid] && a[lo..hi][mid - lo..] == a[mid..hi]
    {
    }

    method Skip(amount: nat) returns (n: nat)
      requires Ok()
      modifies this`rOffset, this`wOffset
      ensures Ok()
      ensures n == Min(|old(View().bytes)|, amount)
      ensures View() == Consumed(old(View()), n)
    {
      n := wOffset - rOffset;
      if n != 0 {
        n := Min(n, amount);
        Parts(data, rOffset, rOffset + n, wOffset);
        rOffset := rOffset + n;
        if rOffset == wOffset {
          rOffset, wOffset := 0, 0;
        }
      }
    }

    /** `chunk_slurpn`: one reader call into the unused part, for at most `maxLen` bytes unless that is 0; no
        call for a full chunk. */
    method Slurp(maxLen: nat, reader: Reader) returns (n: int, err: Code, ghost got: seq<byte>)
      requires Ok()
      modifies this`wOffset, data, reader
      ensures Ok() && reader.calls == old(reader.calls) + (if old(wOffset) == data.Length then 0 else 1)
      ensures if old(wOffset) == data.Length then n == -1 && err == Again else reader.lastResult == n
      ensures var room := data.Length - old(wOffset);
        -1 <= n <= room && (maxLen > 0 ==> n <= maxLen)
        && (reader.FallsShort(old(reader.calls)) ==> n < room && (maxLen > 0 ==> n < maxLen))
        && (reader.Fills(old(reader.calls)) && maxLen == 0 && room > 0 ==> n == room)
      ensures n < 0 ==> err != Code.Ok
      ensures n >= 0 ==> err == Code.Ok
      ensures |got| == (if n < 0 then 0 else n) && reader.produced == old(reader.produced) + got
      ensures View() == Window(old(rOffset), old(View().bytes) + got)
    {
      hide Reader.Fills, Reader.FallsShort;
      var room := data.Length - wOffset;
      if room == 0 {
        return -1, Again, [];
      }
      if maxLen > 0 && room > maxLen {
        room := maxLen;
      }
      n, err := reader.Call(data, wOffset, room);
      got := if n < 0 then [] else data[wOffset..wOffset + n];
      assert data[rOffset..wOffset] == old(data[rOffset..wOffset]);
      if n > 0 {
        assert data[rOffset..wOffset + n] == data[rOffset..wOffset] + data[wOffset..wOffset + n];
        wOffset := wOffset + n;
      }
    }

    method Unwrite(len: nat) returns (n: nat)
      requires Ok()
      modifies this`rOffset, this`wOffset
      ensures Ok()
      ensures n == Min(|old(View().bytes)|, len)
      ensures View() == Dropped(old(View()), n)
    {
      n := wOffset - rOffset;
      if n == 0 {
      } else if n <= len {
        rOffset, wOffset := 0, 0;
      } else {
        n := len;
        Parts(data, rOffset, wOffset - n, wOffset);
        wOffset := wOffset - n;
      }
    }
  }

  /** A view after its first `n` bytes were read. */
  ghost function Consumed(v: Window, n: nat): Window
    requires n <= |v.bytes|
  {
    if n == |v.bytes| && n > 0 then Window(0, []) else Window(v.start + n, v.bytes[n..])
  }

  /** A view after its last `n` bytes were taken back. */
  ghost function Dropped(v: Window, n: nat): Window
    requires n <= |v.bytes|
  {
    if n == |v.bytes| && n > 0 then Window(0, []) else Window(v.start, v.bytes[..|v.bytes| - n])
  }

  /** `first` heads a null-terminated list whose nodes are exactly `cs`, in order. */
  ghost predicate Linked(first: Chunk?, cs: seq<Chunk>)
    reads cs`next
  {
    && (cs == [] ==> first == null)
    && (cs != [] ==> first == cs[0] && cs[|cs| - 1].next == null)
    && (forall i :: 0 <= i < |cs| - 1 ==> cs[i].next == cs[i + 1])
  }

  /** No chunk and no buffer occurs twice. */
  ghost predicate Apart(cs: seq<Chunk>) {
    forall i, j :: 0 <= i < j < |cs| ==> cs[i] != cs[j] && cs[i].data != cs[j].data
  }

  ghost predicate Foreign(c: Chunk, cs: seq<Chunk>) {
    forall i :: 0 <= i < |cs| ==> cs[i] != c && cs[i].data != c.data
  }

  /** Every chunk of `cs`, with its buffer of `size` bytes, belongs to `repr`. */
  ghost predicate Owned(cs: seq<Chunk>, size: nat, repr: set<object>) {
    forall i :: 0 <= i < |cs| ==> cs[i] in repr && cs[i].data in repr && cs[i].data.Length == size
  }

  lemma LinkedRest(first: Chunk?, cs: seq<Chunk>)
    requires Linked(first, cs) && cs != []
    ensures Linked(cs[0].next, cs[1..])
  {
  }

  lemma LinkedFront(c: Chunk, cs: seq<Chunk>)
    requires Linked(c.next, cs)
    ensures Linked(c, [c] + cs)
  {
  }

  lemma ApartRest(cs: seq<Chunk>)
    requires Apart(cs) && cs != []
    ensures Apart(cs[1..]) && Foreign(cs[0], cs[1..])
  {
  }

  lemma ApartFront(c: Chunk, cs: seq<Chunk>)
    requires Apart(cs) && Foreign(c, cs)
    ensures Apart([c] + cs)
  {
  }
}
