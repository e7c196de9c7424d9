/** `struct bufc_pool`: spare chunks that several queues of one thread share. */
module BufPool {
  import opened Bytes
  import opened BufChunk

  class Pool {
    var spare: Chunk?
    const chunkSize: nat
    var spareCount: nat
    const spareMax: nat

    ghost var spares: seq<Chunk>
    ghost var Repr: set<object>

    ghost predicate Valid()
      reads this, Repr
    {
      && this in Repr
      && Owned(spares, chunkSize, Repr)
      && Apart(spares)
      && Linked(spare, spares)
      && spareCount == |spares| <= spareMax
      && chunkSize > 0
    }

    constructor (chunkSize: nat, spareMax: nat)
      requires chunkSize > 0 && spareMax > 0
      ensures Valid() && fresh(Repr) && spares == []
      ensures this.chunkSize == chunkSize && this.spareMax == spareMax
    {
      this.chunkSize, this.spareMax := chunkSize, spareMax;
      spare, spareCount := null, 0;
      spares := [];
      Repr := {this};
    }

    /** `bufcp_take`: a spare one if there is one, else a new one; always clean. */
    method Take() returns (c: Chunk)
      requires Valid()
      modifies Repr
      ensures Valid() && Repr <= old(Repr)
      ensures c !in Repr && c.data !in Repr && c.data.Length == chunkSize
      ensures c.next == null && c.rOffset == c.wOffset == 0
      ensures if old(spares) == [] then fresh({c, c.data}) && spares == []
              else c == old(spares[0]) && {c, c.data} <= old(Repr) && spares == old(spares)[1..]
    {
      if spare != null {
        c := spare;
        LinkedRest(spare, spares);
        ApartRest(spares);
        spare := c.next;
        spareCount := spareCount - 1;
        c.Reset();
        spares := spares[1..];
        Repr := Repr - {c, c.data};
      } else {
        c := new Chunk(chunkSize);
      }
    }

    /** `bufcp_put`: keep the chunk, clean, unless the pool holds its maximum already. */
    method Put(c: Chunk)
      requires Valid() && c !in Repr && c.data !in Repr && c.data.Length == chunkSize
      modifies Repr, c
      ensures Valid() && Repr <= old(Repr) + {c, c.data}
      ensures spares == if old(|spares|) < spareMax then [c] + old(spares) else old(spares)
    {
      if spareCount < spareMax {
        c.Reset();
        c.next := spare;
        LinkedFront(c, spares);
        ApartFront(c, spares);
        spare := c;
        spareCount := spareCount + 1;
        spares := [c] + spares;
        Repr := Repr + {c, c.data};
      }
    }

    /** `Curl_bufcp_free`. */
    method Free()
      requires Valid()
      modifies this
      ensures Valid() && Repr == {this} && spares == []
    {
      spare, spareCount := null, 0;
      spares := [];
      Repr := {this};
    }
  }
}
