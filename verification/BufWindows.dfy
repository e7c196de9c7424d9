/** The bytes of a list of chunks, as values: concatenation, packing, and the space they leave. */
module BufWindows {
  import opened Bytes
  import opened BufChunk

  /** The queue's byte sequence: the unread bytes of its chunks, in list order. */
  ghost function Flat(ws: seq<Window>): seq<byte> {
    if ws == [] then [] else ws[0].bytes + Flat(ws[1..])
  }

  ghost function End(w: Window): nat {
    w.start + |w.bytes|
  }

  /** Only the first window may start late; all but the last reach the end of their chunk and are
      not empty; an empty one starts at 0. */
  ghost predicate Packed(ws: seq<Window>, size: nat) {
    forall i :: 0 <= i < |ws| ==>
      && End(ws[i]) <= size
      && (ws[i].start > 0 ==> i == 0 && ws[i].bytes != [])
      && (i + 1 < |ws| ==> ws[i].bytes != [] && End(ws[i]) == size)
  }

  lemma {:induction false} FlatConcat(a: seq<Window>, b: seq<Window>)
    ensures Flat(a + b) == Flat(a) + Flat(b)
  {
    hide Flat;
    if a == [] {
      assert a + b == b && a[..0] == a;
      FlatNone(a);
    } else {
      assert (a + b)[0] == a[0] && (a + b)[1..] == a[1..] + b;
      FlatStep(a);
      FlatStep(a + b);
      FlatConcat(a[1..], b);
      Associate(a[0].bytes, Flat(a[1..]), Flat(b));
    }
  }

  lemma FlatStep(ws: seq<Window>)
    requires ws != []
    ensures Flat(ws) == ws[0].bytes + Flat(ws[1..])
  {
  }

  lemma FlatSingle(w: Window)
    ensures Flat([w]) == w.bytes
  {
    assert Flat([w]) == w.bytes + Flat([w][1..]);
  }

  /** Replacing the last window replaces the last part of the byte sequence. */
  lemma FlatLast(ws: seq<Window>, w: Window)
    requires ws != []
    ensures Flat(ws) == Flat(ws[..|ws| - 1]) + ws[|ws| - 1].bytes
    ensures Flat(ws[|ws| - 1 := w]) == Flat(ws[..|ws| - 1]) + w.bytes
  {
    var n := |ws| - 1;
    assert ws == ws[..n] + [ws[n]] && ws[n := w] == ws[..n] + [w];
    FlatConcat(ws[..n], [ws[n]]);
    FlatConcat(ws[..n], [w]);
    FlatSingle(ws[n]);
    FlatSingle(w);
  }

  lemma FlatFirst(ws: seq<Window>, w: Window)
    requires ws != []
    ensures Flat(ws[0 := w]) == w.bytes + Flat(ws[1..])
  {
    assert ws[0 := w][1..] == ws[1..];
  }

  lemma FlatPush(ws: seq<Window>)
    ensures Flat(ws + [Window(0, [])]) == Flat(ws)
  {
    FlatConcat(ws, [Window(0, [])]);
    FlatSingle(Window(0, []));
  }

  /** Packing leaves no holes: the bytes, plus what was read from the first chunk, fill all chunks
      but the last one. */
  lemma {:induction false} PackedLength(ws: seq<Window>, size: nat)
    requires Packed(ws, size) && ws != []
    ensures |Flat(ws)| + ws[0].start == (|ws| - 1) * size + End(ws[|ws| - 1])
  {
    if |ws| == 1 {
      FlatSingle(ws[0]);
      assert ws == [ws[0]];
    } else {
      var rest := ws[1..];
      assert Packed(rest, size) by {
        assert forall i :: 0 <= i < |rest| ==> rest[i] == ws[i + 1];
      }
      PackedLength(rest, size);
      assert |Flat(rest)| == (|ws| - 2) * size + End(ws[|ws| - 1]);
      assert (|ws| - 1) * size == (|ws| - 2) * size + size;
    }
  }

  /** `ws` is packed once an emptied first chunk is taken off. */
  ghost predicate AlmostPacked(ws: seq<Window>, size: nat) {
    Packed(ws, size) || (ws != [] && ws[0] == Window(0, []) && Packed(ws[1..], size))
  }

  lemma PackedRest(ws: seq<Window>, size: nat)
    requires Packed(ws, size) && ws != []
    ensures Packed(ws[1..], size)
  {
    assert forall i :: 0 <= i < |ws| - 1 ==> ws[1..][i] == ws[i + 1];
  }

  ghost function Advanced(ws: seq<Window>, n: nat): seq<Window>
    requires ws != [] && n <= |ws[0].bytes|
  {
    ws[0 := Consumed(ws[0], n)]
  }

  ghost function Shortened(ws: seq<Window>, n: nat): seq<Window>
    requires ws != [] && n <= |ws[|ws| - 1].bytes|
  {
    ws[|ws| - 1 := Dropped(ws[|ws| - 1], n)]
  }

  /** Reading from the first chunk reads from the byte sequence, and what remains is packed once an
      emptied chunk is gone. */
  lemma ConsumeFirst(ws: seq<Window>, n: nat, size: nat)
    requires Packed(ws, size) && ws != [] && n <= |ws[0].bytes|
    ensures n <= |Flat(ws)| && Flat(ws)[..n] == ws[0].bytes[..n]
    ensures Flat(Advanced(ws, n)) == Flat(ws)[n..]
    ensures AlmostPacked(Advanced(ws, n), size)
    ensures |Advanced(ws, n)| == |ws|
    ensures n == |ws[0].bytes| ==> Advanced(ws, n)[0].bytes == []
  {
    FlatFirst(ws, Consumed(ws[0], n));
    PackedRest(ws, size);
    assert ws[0 := Consumed(ws[0], n)][1..] == ws[1..];
  }

  /** Taking bytes back from the last chunk takes them from the end of the byte sequence. */
  lemma DropLast(ws: seq<Window>, n: nat, size: nat)
    requires Packed(ws, size) && ws != [] && n <= |ws[|ws| - 1].bytes|
    ensures n <= |Flat(ws)|
    ensures Flat(Shortened(ws, n)) == Flat(ws)[..|Flat(ws)| - n]
    ensures Packed(Shortened(ws, n), size)
    ensures |Shortened(ws, n)| == |ws|
    ensures n == |ws[|ws| - 1].bytes| ==> Shortened(ws, n)[|ws| - 1].bytes == []
  {
    FlatLast(ws, Dropped(ws[|ws| - 1], n));
  }

  ghost function Start(ws: seq<Window>): nat {
    if ws == [] then 0 else ws[0].start
  }

  /** The part of the last chunk that is still unused. */
  ghost function TailSpace(ws: seq<Window>, size: nat): nat {
    if ws == [] || End(ws[|ws| - 1]) > size then 0 else size - End(ws[|ws| - 1])
  }

  ghost function Extended(ws: seq<Window>, more: seq<byte>): seq<Window>
    requires ws != []
  {
    var w := ws[|ws| - 1];
    ws[|ws| - 1 := Window(w.start, w.bytes + more)]
  }

  /** Appending to the last chunk appends to the byte sequence. */
  lemma AppendLast(ws: seq<Window>, more: seq<byte>, size: nat)
    requires Packed(ws, size) && ws != [] && |more| <= TailSpace(ws, size)
    ensures var next := Extended(ws, more);
      Packed(next, size) && Flat(next) == Flat(ws) + more && Start(next) == Start(ws)
      && TailSpace(next, size) == TailSpace(ws, size) - |more|
  {
    var w := ws[|ws| - 1];
    FlatLast(ws, Window(w.start, w.bytes + more));
  }

  /** A new chunk behind a full one. */
  lemma PushWindow(ws: seq<Window>, size: nat)
    requires Packed(ws, size) && TailSpace(ws, size) == 0 && size > 0
    ensures var next := ws + [Window(0, [])];
      Packed(next, size) && Flat(next) == Flat(ws) && Start(next) == Start(ws) && TailSpace(next, size) == size
  {
    FlatPush(ws);
  }

  function Times(chunks: nat, size: nat): nat {
    chunks * size
  }

  /** Free bytes: the rest of the tail, all of the `k` spare chunks, and the chunks not made yet. */
  ghost function FreeBytes(ws: seq<Window>, k: nat, count: nat, max: nat, size: nat): nat {
    TailSpace(ws, size) + Times(k, size) + if count < max then Times(max - count, size) else 0
  }

  lemma ThreeParts(a: nat, b: nat, c: nat, size: nat)
    ensures (a + b + c) * size == a * size + Times(b, size) + Times(c, size)
  {
  }

  /** While at most `max` chunks exist, what is stored, free, and read but not reclaimed adds up to
      the whole capacity. */
  lemma CapacityLaw(ws: seq<Window>, k: nat, max: nat, size: nat)
    requires Packed(ws, size) && |ws| + k <= max
    ensures |Flat(ws)| + FreeBytes(ws, k, |ws| + k, max, size) + Start(ws) == max * size
  {
    ThreeParts(|ws|, k, max - (|ws| + k), size);
    if ws != [] {
      PackedLength(ws, size);
      ThreeParts(|ws| - 1, 1, 0, size);
    }
    hide Flat, Packed;
  }

  ghost function SkipEmpty(ws: seq<Window>): (r: seq<Window>)
    ensures Flat(r) == Flat(ws) && |r| <= |ws|
    ensures r != [] ==> r[0].bytes != []
    ensures ws != [] && ws[0].bytes == [] ==> |r| < |ws|
  {
    if ws != [] && ws[0].bytes == [] then SkipEmpty(ws[1..]) else ws
  }

  ghost function TrimEmpty(ws: seq<Window>): (r: seq<Window>)
    ensures Flat(r) == Flat(ws) && |r| <= |ws|
    ensures r != [] ==> r[|r| - 1].bytes != []
    ensures ws != [] && ws[|ws| - 1].bytes == [] ==> |r| < |ws|
  {
    if ws != [] && ws[|ws| - 1].bytes == [] then
      FlatLast(ws, ws[|ws| - 1]);
      TrimEmpty(ws[..|ws| - 1])
    else
      ws
  }

  lemma SkipOne(ws: seq<Window>, size: nat)
    requires AlmostPacked(ws, size) && ws != [] && ws[0].bytes == []
    ensures AlmostPacked(ws[1..], size) && SkipEmpty(ws) == SkipEmpty(ws[1..])
  {
    if Packed(ws, size) {
      PackedRest(ws, size);
    }
  }

  lemma SkipNone(ws: seq<Window>, size: nat)
    requires AlmostPacked(ws, size) && (ws == [] || ws[0].bytes != [])
    ensures Packed(ws, size) && SkipEmpty(ws) == ws
  {
  }

  lemma TrimNone(ws: seq<Window>)
    requires ws == [] || ws[|ws| - 1].bytes != []
    ensures TrimEmpty(ws) == ws
  {
  }

  lemma TrimOne(ws: seq<Window>, size: nat)
    requires Packed(ws, size) && ws != [] && ws[|ws| - 1].bytes == []
    ensures Packed(ws[..|ws| - 1], size) && TrimEmpty(ws) == TrimEmpty(ws[..|ws| - 1])
  {
  }

  lemma NothingPacked(size: nat)
    ensures Packed([], size)
  {
  }

  lemma TakeMore(a: seq<byte>, buf: seq<byte>, i: nat, k: nat)
    requires i + k <= |buf|
    ensures a + buf[..i] + buf[i..][..k] == a + buf[..i + k]
  {
    assert buf[..i] + buf[i..][..k] == buf[..i + k];
  }

  /** What is left of `all` when its first `n` bytes are gone. */
  ghost predicate LeftAfter(all: seq<byte>, n: nat, left: seq<byte>) {
    n <= |all| && left == all[n..]
  }

  lemma LeftAtFirst(all: seq<byte>)
    ensures LeftAfter(all, 0, all)
  {
  }

  lemma LeftMore(all: seq<byte>, n: nat, left: seq<byte>, k: nat)
    requires LeftAfter(all, n, left) && k <= |left|
    ensures LeftAfter(all, n + k, left[k..])
  {
    LaterStill(all, n, k);
  }

  lemma FirstMore(all: seq<byte>, n: nat, left: seq<byte>, k: nat)
    requires LeftAfter(all, n, left) && k <= |left|
    ensures n + k <= |all| && all[..n] + left[..k] == all[..n + k]
  {
    LaterStill(all, n, k);
  }

  lemma EarlierStill(s: seq<byte>, i: nat, k: nat)
    requires k <= i <= |s|
    ensures s[..i][..i - k] == s[..i - k]
  {
  }

  lemma LaterStill(s: seq<byte>, i: nat, k: nat)
    requires i + k <= |s|
    ensures s[i..][k..] == s[i + k..] && s[i..][..k] == s[i..i + k]
  {
  }

  lemma FlatTake(ws: seq<Window>, i: nat)
    requires i < |ws|
    ensures Flat(ws[..i + 1]) == Flat(ws[..i]) + ws[i].bytes
  {
    assert ws[..i + 1] == ws[..i] + [ws[i]];
    FlatConcat(ws[..i], [ws[i]]);
    FlatSingle(ws[i]);
  }

  lemma FlatNone(ws: seq<Window>)
    ensures Flat(ws[..0]) == []
  {
  }

  lemma FlatSplit(ws: seq<Window>, i: nat)
    requires i <= |ws|
    ensures Flat(ws) == Flat(ws[..i]) + Flat(ws[i..])
  {
    assert ws == ws[..i] + ws[i..];
    FlatConcat(ws[..i], ws[i..]);
  }

  lemma FlatEmptyIff(ws: seq<Window>, size: nat)
    requires Packed(ws, size)
    ensures Flat(ws) == [] <==> ws == [] || ws[0].bytes == []
  {
    if ws != [] && ws[0].bytes == [] {
      assert |ws| == 1 && ws == [ws[0]];
      FlatSingle(ws[0]);
    }
  }

  lemma FreeBytesZero(ws: seq<Window>, k: nat, count: nat, max: nat, size: nat)
    requires size > 0
    ensures FreeBytes(ws, k, count, max, size) == 0 <==> TailSpace(ws, size) == 0 && k == 0 && count >= max
  {
    assert k > 0 ==> k * size > 0;
    assert count < max ==> (max - count) * size > 0;
  }

  /** Where the bytes of window `i` from position `k` on are in the byte sequence. */
  lemma FlatSlice(ws: seq<Window>, i: nat, k: nat)
    requires i < |ws| && k <= |ws[i].bytes|
    ensures |Flat(ws[..i])| + |ws[i].bytes| <= |Flat(ws)|
    ensures Flat(ws)[|Flat(ws[..i])| + k..|Flat(ws[..i])| + |ws[i].bytes|] == ws[i].bytes[k..]
  {
    FlatSplit(ws, i + 1);
    FlatTake(ws, i);
  }

  /** An empty window is the last one, so nothing follows it. */
  lemma FlatEnd(ws: seq<Window>, i: nat, size: nat)
    requires Packed(ws, size) && i <= |ws| && (i == |ws| || ws[i].bytes == [])
    ensures Flat(ws) == Flat(ws[..i])
  {
    if i == |ws| {
      assert ws[..i] == ws;
    } else {
      FlatTake(ws, i);
      assert ws[..i + 1] == ws;
    }
  }

  // ---------- where the first unread byte is ----------

  function Mod(x: nat, size: nat): (r: nat)
    requires size > 0
    ensures r < size
  {
    x % size
  }

  /** Where the first unread byte is in its chunk, `n` bytes after one at `front`; 0 if there is none. */
  function Onward(front: nat, n: nat, none: bool, size: nat): nat
    requires size > 0
  {
    if none then 0 else Mod(front + n, size)
  }

  lemma NoMultiple(a: int, r: int, size: nat)
    requires r < size && -r < size && a * size == r
    ensures r == 0
  {
    if a > 0 {
      ThreeParts(0, a - 1, 1, size);
    } else if a < 0 {
      var b: nat := -a;
      ThreeParts(0, b - 1, 1, size);
    }
  }

  lemma LessTimes(a: int, b: int, c: int, size: int)
    ensures (a - b - c) * size == a * size - b * size - c * size
  {
  }

  lemma ModShift(q: nat, x: nat, size: nat)
    requires size > 0
    ensures Mod(Times(q, size) + x, size) == Mod(x, size)
  {
    var y := q * size + x;
    var p, r, p', r' := y / size, y % size, x / size, x % size;
    LessTimes(p, q, p', size);
    NoMultiple(p - q - p', r' - r, size);
  }

  lemma ModBelow(x: nat, size: nat)
    requires x < size
    ensures Mod(x, size) == x
  {
  }

  lemma ModAtMost(x: nat, size: nat)
    requires size > 0
    ensures Mod(x, size) <= x
  {
  }

  lemma OnwardTwice(front: nat, a: nat, b: nat, none: bool, nothing: bool, size: nat)
    requires size > 0 && (none ==> nothing)
    ensures Onward(Onward(front, a, none, size), b, nothing, size) == Onward(front, a + b, nothing, size)
  {
    if !none {
      var x := front + a;
      assert x + b == x / size * size + (x % size + b);
      ModShift(x / size, x % size + b, size);
    }
  }

  lemma FrontBounds(ws: seq<Window>, size: nat)
    requires Packed(ws, size) && size > 0
    ensures Start(ws) < size && (Flat(ws) == [] ==> Start(ws) == 0)
    ensures Onward(Start(ws), 0, Flat(ws) == [], size) == Start(ws)
  {
    hide Mod;
    if ws != [] {
      assert Flat(ws) == [] ==> ws[0].bytes == [];
      if ws[0].start < size {
        ModBelow(ws[0].start, size);
      }
    }
  }

  /** Reading from the first chunk and dropping it when it is empty moves the front onward. */
  lemma FrontAfterTaking(ws: seq<Window>, n: nat, size: nat)
    requires Packed(ws, size) && ws != [] && n <= |ws[0].bytes| && size > 0
    ensures var r := SkipEmpty(Advanced(ws, n));
      Start(r) == Onward(Start(ws), n, Flat(r) == [], size)
  {
    hide Mod, Flat;
    var next := Advanced(ws, n);
    if n == |ws[0].bytes| {
      assert next[1..] == ws[1..];
      if |ws| > 1 {
        FrontOfRest(ws, size);
      } else {
        assert SkipEmpty(next[1..]) == [];
        FlatNone(ws);
        assert ws[..0] == [];
      }
    } else {
      assert SkipEmpty(next) == next;
      assert next[0].bytes != [];
      FlatEmptyIff(ws, size);
      FlatFirst(ws, next[0]);
      ModBelow(ws[0].start + n, size);
    }
  }

  lemma FrontOfRest(ws: seq<Window>, size: nat)
    requires Packed(ws, size) && |ws| > 1 && size > 0
    ensures Start(SkipEmpty(ws[1..])) == 0
    ensures Mod(Start(ws) + |ws[0].bytes|, size) == 0
  {
    var rest := ws[1..];
    assert rest[0] == ws[1];
    if ws[1].bytes == [] {
      assert |ws| == 2 && rest[1..] == [];
      assert SkipEmpty(rest[1..]) == [];
    }
  }

  lemma SkippedFront(ws: seq<Window>, size: nat)
    requires Packed(ws, size)
    ensures Start(SkipEmpty(ws)) == Start(ws)
  {
    if ws != [] && ws[0].bytes == [] {
      assert |ws| == 1 && ws[1..] == [];
      assert SkipEmpty(ws[1..]) == [];
    }
  }

  /** Taking bytes back leaves the front where it is, unless nothing is left. */
  lemma FrontAfterDropping(ws: seq<Window>, n: nat, size: nat)
    requires Packed(ws, size) && ws != [] && n <= |ws[|ws| - 1].bytes| && size > 0
    ensures var r := TrimEmpty(Shortened(ws, n));
      Start(r) == if Flat(r) == [] then 0 else Start(ws)
  {
    var last, next := |ws| - 1, Shortened(ws, n);
    DropLast(ws, n, size);
    TrimKeepsFirst(next, size);
    FrontBounds(TrimEmpty(next), size);
  }

  lemma {:induction false} TrimKeepsFirst(ws: seq<Window>, size: nat)
    requires Packed(ws, size)
    ensures Packed(TrimEmpty(ws), size) && TrimEmpty(ws) <= ws
    decreases |ws|
  {
    if ws != [] && ws[|ws| - 1].bytes == [] {
      TrimOne(ws, size);
      TrimKeepsFirst(ws[..|ws| - 1], size);
    }
  }

  /** Whole chunks in front of window `i`, so that byte `k` there is that far into its chunk. */
  lemma WholeChunks(ws: seq<Window>, i: nat, k: nat, size: nat)
    requires Packed(ws, size) && i < |ws| && k < |ws[i].bytes| && size > 0
    ensures |Flat(ws[..i])| + k < |Flat(ws)|
    ensures var at := Mod(Start(ws) + |Flat(ws[..i])| + k, size);
      |ws[i].bytes| - k == Min(|Flat(ws)| - |Flat(ws[..i])| - k, size - at)
  {
    hide Flat, Mod, Times;
    Behind(ws, i, size);
    if i == 0 {
      FlatNone(ws);
      ModBelow(ws[0].start + k, size);
    } else {
      FullFront(ws, i, size);
      ModShift(i, k, size);
      ModBelow(k, size);
      assert ws[i].start == 0;
    }
  }

  /** What follows window `i`, which reaches the end of its chunk if there is anything. */
  lemma Behind(ws: seq<Window>, i: nat, size: nat)
    requires Packed(ws, size) && i < |ws|
    ensures |Flat(ws)| >= |Flat(ws[..i])| + |ws[i].bytes|
    ensures |Flat(ws)| > |Flat(ws[..i])| + |ws[i].bytes| ==> End(ws[i]) == size
    ensures End(ws[i]) <= size
  {
    FlatSplit(ws, i + 1);
    FlatTake(ws, i);
    hide Flat;
    if i + 1 == |ws| {
      FlatNone(ws);
      assert ws[i + 1..] == ws[..0];
    }
  }

  lemma FullFront(ws: seq<Window>, i: nat, size: nat)
    requires Packed(ws, size) && 0 < i < |ws|
    ensures Start(ws) + |Flat(ws[..i])| == Times(i, size)
  {
    var front := ws[..i];
    assert Packed(front, size);
    PackedLength(front, size);
    assert (i - 1) * size + size == i * size;
  }
}
