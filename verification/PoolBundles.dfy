/** Connections, and the bundles that hold them by destination (conncache.c). The fields of a connection are
    in a table under its address, so that freeing it takes it out of the table. */
module PoolBundles {
  import opened Timeval

  // The address of a connection, and the destination it never changes.
  datatype Conn = Conn(address: nat, destination: string)

  // The list a connection's node is linked in.
  datatype Node = Unlinked | InBundle | InShutdowns

  // The fields of a connection that change.
  datatype Info = Info(
    connectionId: int,
    lastused: Time,
    users: nat,
    close: bool,
    connectOnly: bool,
    aborted: bool,
    inCpool: bool,
    node: Node)

  // The connections that are allocated.
  type Memory = map<Conn, Info>

  type Bundles = map<string, seq<Conn>>

  ghost predicate Distinct(list: seq<Conn>) {
    forall i, j :: 0 <= i < j < |list| ==> list[i] != list[j]
  }

  ghost function Members(list: seq<Conn>): set<Conn> {
    set c | c in list
  }

  ghost predicate IsBundle(list: seq<Conn>, dest: string, conns: set<Conn>) {
    list != [] && Distinct(list) && forall c :: c in list ==> c in conns && c.destination == dest
  }

  /** The bundles hold exactly these connections, each by its destination and once; none is empty. */
  ghost predicate Bundled(m: Bundles, conns: set<Conn>) {
    && (forall d :: d in m ==> IsBundle(m[d], d, conns))
    && (forall c :: c in conns ==> c.destination in m && c in m[c.destination])
  }

  /** The list without a connection. */
  function Drop(list: seq<Conn>, c: Conn): seq<Conn> {
    if list == [] then [] else if list[0] == c then list[1..] else [list[0]] + Drop(list[1..], c)
  }

  lemma {:induction false} DropIs(list: seq<Conn>, c: Conn)
    requires Distinct(list) && c in list
    ensures Distinct(Drop(list, c)) && |Drop(list, c)| == |list| - 1
    ensures forall d :: d in Drop(list, c) <==> d in list && d != c
    decreases |list|
  {
    var rest := list[1..];
    assert list == [list[0]] + rest;
    assert forall k :: 0 <= k < |rest| ==> rest[k] == list[k + 1];
    assert list[0] !in rest;
    if list[0] != c {
      DropIs(rest, c);
      var less := Drop(rest, c);
      assert forall k :: 0 <= k < |less| ==> less[k] in less;
    }
  }

  function Added(m: Bundles, c: Conn): Bundles {
    if c.destination in m then m[c.destination := m[c.destination] + [c]] else m[c.destination := [c]]
  }

  lemma AddKeeps(m: Bundles, conns: set<Conn>, c: Conn)
    requires Bundled(m, conns) && c !in conns
    ensures Bundled(Added(m, c), conns + {c})
  {
    var d, after := c.destination, Added(m, c);
    forall e | e in after
      ensures IsBundle(after[e], e, conns + {c})
    {
      if e == d && d in m {
        assert after[e] == m[d] + [c];
      }
    }
  }

  function Removed(m: Bundles, c: Conn): Bundles
    requires c.destination in m
  {
    var list := Drop(m[c.destination], c);
    if list == [] then m - {c.destination} else m[c.destination := list]
  }

  lemma RemoveKeeps(m: Bundles, conns: set<Conn>, c: Conn)
    requires Bundled(m, conns) && c in conns
    ensures c.destination in m && Bundled(Removed(m, c), conns - {c}) && |conns - {c}| == |conns| - 1
  {
    var d, after := c.destination, Removed(m, c);
    DropIs(m[d], c);
    hide Drop;
    forall e | e in after
      ensures IsBundle(after[e], e, conns - {c})
    {
      if e == d {
        assert after[e] == Drop(m[d], c);
        assert after[e] != [];
        assert Distinct(after[e]);
        assert forall o :: o in after[e] ==> o in m[d];
        assert forall o :: o in after[e] ==> o != c;
      } else {
        assert after[e] == m[e] && IsBundle(m[e], e, conns);
        assert forall o :: o in after[e] ==> o != c;
      }
    }
    forall other | other in conns - {c}
      ensures other.destination in after && other in after[other.destination]
    {
      if other.destination == d {
        assert other in Drop(m[d], c);
      }
    }
  }

  // ---------- the sum of the bundle sizes ----------

  ghost function Pick(m: Bundles): string
    requires m.Keys != {}
    ensures Pick(m) in m
  {
    var d :| d in m.Keys;
    d
  }

  ghost function SizeSum(m: Bundles): nat
    decreases |m|
  {
    if m.Keys == {} then 0
    else
      var d := Pick(m);
      assert (m - {d}).Keys == m.Keys - {d};
      |m[d]| + SizeSum(m - {d})
  }

  lemma {:induction false} SetOfList(list: seq<Conn>)
    requires Distinct(list)
    ensures |Members(list)| == |list|
    decreases |list|
  {
    if list != [] {
      var n := |list| - 1;
      SetOfList(list[..n]);
      assert list == list[..n] + [list[n]];
      assert Members(list) == Members(list[..n]) + {list[n]};
    }
  }

  /** The number of connections is the sum of the bundle sizes. */
  lemma {:induction false} SumIsSize(m: Bundles, conns: set<Conn>)
    requires Bundled(m, conns)
    ensures SizeSum(m) == |conns|
    decreases |m|
  {
    if m.Keys == {} {
      assert conns == {};
    } else {
      var d := Pick(m);
      var here, rest := Members(m[d]), m - {d};
      SetOfList(m[d]);
      assert rest.Keys == m.Keys - {d};
      assert Bundled(rest, conns - here);
      SumIsSize(rest, conns - here);
      assert here <= conns && conns == (conns - here) + here;
    }
  }
}
