/** The connection pool (conncache.c). Callbacks, the state of the network and the clock are arbitrary
    choices; the clock does not go back. */
module ConnPool {
  import opened Timeval
  import opened PoolBundles

  // One more than the largest unsigned int.
  const UNSIGNED := 0x1_0000_0000

  datatype Limit = LimitOk | LimitDest | LimitTotal

  // ---------- searching for an idle connection ----------

  /** May this connection be taken to make room? The search of the whole pool also leaves connections alone
      that are marked to close or were made to connect only. */
  predicate Choosable(c: Info, whole: bool) {
    c.users == 0 && (whole ==> !c.close && !c.connectOnly)
  }

  function Score(mem: Memory, c: Conn, now: Time): int
    requires c in mem
  {
    Timediff(now, mem[c].lastused)
  }

  datatype Found = Nothing | Oldest(conn: Conn)

  /** The result of a search among some connections: one with the highest score of those that may be taken,
      or none if none of those has a score from 0 on. */
  ghost predicate IsOldest(r: Found, mem: Memory, among: set<Conn>, now: Time, whole: bool)
    requires among <= mem.Keys
  {
    match r
    case Nothing => forall c :: c in among && Choosable(mem[c], whole) ==> Score(mem, c, now) < 0
    case Oldest(o) =>
      && o in among && Choosable(mem[o], whole) && Score(mem, o, now) >= 0
      && forall c :: c in among && Choosable(mem[c], whole) ==> Score(mem, c, now) <= Score(mem, o, now)
  }

  /** One step of a search. */
  method Better(r: Found, highscore: int, c: Conn, mem: Memory, ghost among: set<Conn>, now: Time, whole: bool)
    returns (better: Found, score: int)
    requires c in mem && among <= mem.Keys && IsOldest(r, mem, among, now, whole)
    requires highscore == if r.Nothing? then -1 else Score(mem, r.conn, now)
    ensures IsOldest(better, mem, among + {c}, now, whole)
    ensures score == if better.Nothing? then -1 else Score(mem, better.conn, now)
  {
    hide Timediff;
    better, score := r, highscore;
    if Choosable(mem[c], whole) {
      var s := Timediff(now, mem[c].lastused);
      if s > highscore {
        better, score := Oldest(c), s;
      }
    }
  }

  /** `cpool_bundle_get_oldest_idle`. */
  method OldestInBundle(bundle: seq<Conn>, mem: Memory, now: Time) returns (r: Found)
    requires forall c :: c in bundle ==> c in mem
    ensures IsOldest(r, mem, Members(bundle), now, false)
  {
    r := Nothing;
    var highscore := -1;
    for n := 0 to |bundle|
      invariant IsOldest(r, mem, Members(bundle[..n]), now, false)
      invariant highscore == if r.Nothing? then -1 else Score(mem, r.conn, now)
    {
      assert bundle[..n + 1] == bundle[..n] + [bundle[n]];
      assert Members(bundle[..n + 1]) == Members(bundle[..n]) + {bundle[n]};
      r, highscore := Better(r, highscore, bundle[n], mem, Members(bundle[..n]), now, false);
    }
    assert bundle[..|bundle|] == bundle;
  }

  /** `cpool_get_oldest_idle`; the hash gives the bundles in any order. */
  method OldestInPool(m: Bundles, ghost conns: set<Conn>, mem: Memory, now: Time) returns (r: Found)
    requires Bundled(m, conns) && conns <= mem.Keys
    ensures IsOldest(r, mem, conns, now, true)
  {
    r := Nothing;
    var highscore := -1;
    var left := m.Keys;
    ghost var seen: set<Conn> := {};
    while left != {}
      invariant left <= m.Keys && seen <= conns && IsOldest(r, mem, seen, now, true)
      invariant highscore == if r.Nothing? then -1 else Score(mem, r.conn, now)
      invariant forall c :: c in conns && c.destination !in left ==> c in seen
      decreases |left|
    {
      var dest :| dest in left;
      left := left - {dest};
      var bundle := m[dest];
      assert IsBundle(bundle, dest, conns);
      ghost var before := seen;
      for n := 0 to |bundle|
        invariant seen == before + Members(bundle[..n]) && seen <= conns && IsOldest(r, mem, seen, now, true)
        invariant highscore == if r.Nothing? then -1 else Score(mem, r.conn, now)
      {
        assert bundle[..n + 1] == bundle[..n] + [bundle[n]];
        r, highscore := Better(r, highscore, bundle[n], mem, seen, now, true);
        seen := seen + {bundle[n]};
      }
      assert bundle[..|bundle|] == bundle;
    }
    assert seen == conns;
  }

  lemma ChosenIsIdle(c: Conn, mem: Memory, among: set<Conn>, now: Time, whole: bool)
    requires among <= mem.Keys && IsOldest(Oldest(c), mem, among, now, whole)
    ensures c in among && mem[c].users == 0
  {
  }

  // ---------- the invariant ----------

  /** The bundles, the counter and the list of connections that are being shut down. */
  ghost predicate Shape(m: Bundles, conns: set<Conn>, numConn: nat, shutdowns: seq<Conn>) {
    Bundled(m, conns) && numConn == |conns| && Distinct(shutdowns) && conns !! Members(shutdowns)
  }

  function NodeOf(c: Conn, conns: set<Conn>, shutdowns: seq<Conn>): Node {
    if c in conns then InBundle else if c in shutdowns then InShutdowns else Unlinked
  }

  /** Connections in lists are allocated; each is marked with the list it is in. */
  ghost predicate Tagged(mem: Memory, conns: set<Conn>, shutdowns: seq<Conn>) {
    && conns <= mem.Keys && Members(shutdowns) <= mem.Keys
    && forall c :: c in mem ==> mem[c].inCpool == (c in conns) && mem[c].node == NodeOf(c, conns, shutdowns)
  }

  /** Connections that ever got an id have different ones, all below the next; those in lists have one. */
  ghost predicate Numbered(mem: Memory, listed: set<Conn>, next: int)
    requires listed <= mem.Keys
  {
    && 0 <= next && (forall c :: c in mem ==> mem[c].connectionId < next)
    && (forall c :: c in listed ==> mem[c].connectionId >= 0)
    && (forall a, b :: a in mem && b in mem && a != b && mem[a].connectionId >= 0 ==>
      mem[a].connectionId != mem[b].connectionId)
  }

  /** Nothing was last used in the future. */
  ghost predicate Timely(mem: Memory, clock: Time) {
    Proper(clock) && forall c :: c in mem ==> Proper(mem[c].lastused) && NotAfter(mem[c].lastused, clock)
  }

  /** A search that finds nothing: there is nothing that may be taken. */
  lemma NothingToTake(mem: Memory, among: set<Conn>, now: Time, whole: bool)
    requires among <= mem.Keys && Timely(mem, now) && IsOldest(Nothing, mem, among, now, whole)
    ensures forall c :: c in among ==> !Choosable(mem[c], whole)
  {
    forall c | c in among
      ensures !Choosable(mem[c], whole)
    {
      PastScore(now, mem[c].lastused);
    }
  }

  lemma TimelyOne(mem: Memory, clock: Time, c: Conn)
    requires Timely(mem, clock) && c in mem
    ensures Proper(mem[c].lastused) && NotAfter(mem[c].lastused, clock)
  {
  }

  lemma ClockIsTimely(mem: Memory, clock: Time)
    requires Timely(mem, clock)
    ensures Proper(clock) && NotAfter(clock, clock)
  {
  }

  lemma TimelyLater(mem: Memory, clock: Time, now: Time)
    requires Timely(mem, clock) && Proper(now) && NotAfter(clock, now)
    ensures Timely(mem, now)
  {
    forall c | c in mem
      ensures NotAfter(mem[c].lastused, now)
    {
      NotAfterAgain(mem[c].lastused, clock, now);
    }
  }

  function Bundle(c: Info, id: int): Info {
    c.(inCpool := true, node := InBundle, connectionId := id)
  }

  function Unbundle(c: Info): Info {
    c.(inCpool := false, node := Unlinked)
  }

  lemma AllocateOne(mem: Memory, conns: set<Conn>, shutdowns: seq<Conn>, next: int, clock: Time, c: Conn)
    requires Tagged(mem, conns, shutdowns) && Numbered(mem, conns + Members(shutdowns), next) && Timely(mem, clock)
    requires c !in mem
    ensures var after := mem[c := Info(-1, clock, 0, false, false, false, false, Unlinked)];
      Tagged(after, conns, shutdowns) && Timely(after, clock) && Numbered(after, conns + Members(shutdowns), next)
  {
    assert NotAfter(clock, clock);
    hide NotAfter, Proper;
  }

  lemma ShapeAdd(m: Bundles, conns: set<Conn>, numConn: nat, shutdowns: seq<Conn>, c: Conn)
    requires Shape(m, conns, numConn, shutdowns) && c !in conns && c !in Members(shutdowns)
    ensures Shape(Added(m, c), conns + {c}, numConn + 1, shutdowns)
  {
    hide Bundled, PoolBundles.Added, Members, Distinct;
    AddKeeps(m, conns, c);
  }

  lemma ShapeUnshut(m: Bundles, conns: set<Conn>, numConn: nat, shutdowns: seq<Conn>, freed: set<Conn>)
    requires Shape(m, conns, numConn, shutdowns) && shutdowns != []
    ensures Shape(m, conns, numConn, shutdowns[1..]) && Distinct(shutdowns) && conns !! Members(shutdowns)
    ensures Members(shutdowns[1..]) + (freed + {shutdowns[0]}) == Members(shutdowns) + freed
  {
    hide Bundled;
    assert shutdowns == [shutdowns[0]] + shutdowns[1..];
    assert Members(shutdowns) == {shutdowns[0]} + Members(shutdowns[1..]);
  }

  lemma ShapeShut(m: Bundles, conns: set<Conn>, numConn: nat, shutdowns: seq<Conn>, c: Conn)
    requires Shape(m, conns, numConn, shutdowns) && c !in conns && c !in shutdowns
    ensures Shape(m, conns, numConn, shutdowns + [c])
  {
    hide Bundled;
    assert Members(shutdowns + [c]) == Members(shutdowns) + {c};
  }

  lemma ShapeRemove(m: Bundles, conns: set<Conn>, numConn: nat, shutdowns: seq<Conn>, c: Conn)
    requires Shape(m, conns, numConn, shutdowns) && c in conns
    ensures c.destination in m && numConn > 0 && c !in Members(shutdowns)
    ensures Shape(Removed(m, c), conns - {c}, numConn - 1, shutdowns)
  {
    hide Bundled, Removed, Members, Distinct;
    RemoveKeeps(m, conns, c);
  }

  lemma TagAdd(mem: Memory, conns: set<Conn>, shutdowns: seq<Conn>, next: int, clock: Time, c: Conn)
    requires Tagged(mem, conns, shutdowns) && Numbered(mem, conns + Members(shutdowns), next) && Timely(mem, clock)
    requires c in mem && mem[c].node == Unlinked
    ensures c !in conns && c !in Members(shutdowns)
    ensures var after := mem[c := Bundle(mem[c], next)];
      && Tagged(after, conns + {c}, shutdowns) && Timely(after, clock)
      && Numbered(after, conns + {c} + Members(shutdowns), next + 1)
  {
    hide NotAfter, Proper;
  }

  lemma TagRemove(mem: Memory, conns: set<Conn>, shutdowns: seq<Conn>, next: int, clock: Time, c: Conn)
    requires Tagged(mem, conns, shutdowns) && Numbered(mem, conns + Members(shutdowns), next) && Timely(mem, clock)
    requires c in conns && c !in Members(shutdowns)
    ensures c in mem
    ensures var after := mem[c := Unbundle(mem[c])];
      && Tagged(after, conns - {c}, shutdowns) && Timely(after, clock)
      && Numbered(after, conns - {c} + Members(shutdowns), next)
  {
    hide NotAfter, Proper;
  }

  lemma TagFree(mem: Memory, conns: set<Conn>, shutdowns: seq<Conn>, next: int, clock: Time, c: Conn)
    requires Tagged(mem, conns, shutdowns) && Numbered(mem, conns + Members(shutdowns), next) && Timely(mem, clock)
    requires c in mem && mem[c].node == Unlinked
    ensures var after := mem - {c};
      && after.Keys == mem.Keys - {c} && Tagged(after, conns, shutdowns) && Timely(after, clock)
      && Numbered(after, conns + Members(shutdowns), next)
  {
    hide NotAfter, Proper;
    assert c !in conns && c !in shutdowns;
  }

  lemma TagShut(mem: Memory, conns: set<Conn>, shutdowns: seq<Conn>, next: int, clock: Time, c: Conn)
    requires Tagged(mem, conns, shutdowns) && Numbered(mem, conns + Members(shutdowns), next) && Timely(mem, clock)
    requires c in mem && mem[c].node == Unlinked && mem[c].connectionId >= 0
    ensures var after, list := mem[c := mem[c].(node := InShutdowns)], shutdowns + [c];
      && Tagged(after, conns, list) && Timely(after, clock) && Numbered(after, conns + Members(list), next)
    ensures c !in conns && c !in shutdowns && Members(shutdowns + [c]) == Members(shutdowns) + {c}
  {
    hide NotAfter, Proper;
    assert c !in conns && c !in shutdowns;
    assert forall d :: d in shutdowns + [c] <==> d in shutdowns || d == c;
  }

  lemma TagUnshut(mem: Memory, conns: set<Conn>, shutdowns: seq<Conn>, next: int, clock: Time)
    requires Tagged(mem, conns, shutdowns) && Numbered(mem, conns + Members(shutdowns), next) && Timely(mem, clock)
    requires Distinct(shutdowns) && shutdowns != [] && conns !! Members(shutdowns)
    ensures shutdowns[0] in mem
    ensures var c := shutdowns[0];
      var after, list := mem[c := mem[c].(node := Unlinked)], shutdowns[1..];
      && Tagged(after, conns, list) && Timely(after, clock) && Numbered(after, conns + Members(list), next)
    ensures Members(shutdowns[1..]) == Members(shutdowns) - {shutdowns[0]}
  {
    hide NotAfter, Proper;
    var c, list := shutdowns[0], shutdowns[1..];
    assert shutdowns == [c] + list;
    assert forall k :: 0 <= k < |list| ==> list[k] == shutdowns[k + 1];
    assert c !in list && c !in conns;
    assert forall d :: d in shutdowns <==> d in list || d == c;
  }

  lemma NotListed(mem: Memory, conns: set<Conn>, shutdowns: seq<Conn>, c: Conn)
    requires Tagged(mem, conns, shutdowns) && c in mem && mem[c].node == Unlinked
    ensures c !in conns && c !in shutdowns
  {
  }

  lemma TagMark(mem: Memory, conns: set<Conn>, shutdowns: seq<Conn>, next: int, clock: Time, c: Conn, info: Info)
    requires Tagged(mem, conns, shutdowns) && Numbered(mem, conns + Members(shutdowns), next) && Timely(mem, clock)
    requires c in mem && mem[c].node == info.node
    requires mem[c].inCpool == info.inCpool && mem[c].connectionId == info.connectionId
    requires Proper(info.lastused) && NotAfter(info.lastused, clock)
    ensures var after := mem[c := info];
      && Tagged(after, conns, shutdowns) && Timely(after, clock) && Numbered(after, conns + Members(shutdowns), next)
  {
    hide NotAfter, Proper;
  }

  /** All connections but one, and those that were being shut down, are as they were. */
  ghost predicate Spares(mem: Memory, after: Memory, shutdowns: seq<Conn>, c: Conn) {
    forall d :: d in mem && d != c && d !in shutdowns ==> d in after && after[d] == mem[d]
  }

  // ---------- evictions ----------

  /** One eviction: what was taken, among which connections, and at which reading of the clock. */
  datatype Eviction = Eviction(conn: Conn, among: set<Conn>, tick: nat, whole: bool)

  ghost function Evicted(log: seq<Eviction>): set<Conn> {
    set e | e in log :: e.conn
  }

  lemma EvictedMore(log: seq<Eviction>, e: Eviction)
    ensures Evicted(log + [e]) == Evicted(log) + {e.conn}
  {
  }

  /** The pool before some evictions: what it held, in all and for one destination, the limits to reach, and
      how often the clock had been read. */
  datatype Before = Before(
    mem: Memory,
    conns: set<Conn>,
    dest: string,
    bundle: set<Conn>,
    destLimit: nat,
    totalLimit: nat,
    times: nat -> Time,
    from: nat)

  /** The connection is idle and the longest unused of those it was taken from: none of the others that may
      be taken has a higher score or was unused for two milliseconds longer, except where scores are capped;
      and one that was unused longer at all has the same score. */
  ghost predicate LongestUnused(c: Conn, mem: Memory, among: set<Conn>, now: Time, whole: bool) {
    && among <= mem.Keys && c in among && Choosable(mem[c], whole)
    && forall d :: d in among && Choosable(mem[d], whole) ==>
      && Score(mem, d, now) <= Score(mem, c, now)
      && (Micros(mem[c].lastused) < Micros(mem[d].lastused) + 2000 || now.sec - mem[c].lastused.sec >= MANY_SECONDS)
      && (NotAfter(mem[d].lastused, mem[c].lastused) ==> Score(mem, d, now) == Score(mem, c, now))
  }

  lemma OldestIsLongestUnused(c: Conn, mem: Memory, among: set<Conn>, now: Time, whole: bool)
    requires among <= mem.Keys && Timely(mem, now) && IsOldest(Oldest(c), mem, among, now, whole)
    ensures LongestUnused(c, mem, among, now, whole)
  {
    hide Timediff, Micros, NotAfter, Proper;
    forall d | d in among && Choosable(mem[d], whole)
      ensures Micros(mem[c].lastused) < Micros(mem[d].lastused) + 2000 || now.sec - mem[c].lastused.sec >= MANY_SECONDS
      ensures NotAfter(mem[d].lastused, mem[c].lastused) ==> Score(mem, d, now) == Score(mem, c, now)
    {
      PastScore(now, mem[d].lastused);
      HigherScoreIsOlder(now, mem[c].lastused, mem[d].lastused);
      if NotAfter(mem[d].lastused, mem[c].lastused) {
        EarlierScoresHigher(now, mem[d].lastused, mem[c].lastused);
      }
    }
  }

  lemma SameLongest(c: Conn, mem: Memory, other: Memory, among: set<Conn>, now: Time, whole: bool)
    requires LongestUnused(c, mem, among, now, whole)
    requires among <= other.Keys && forall d :: d in among ==> mem[d] == other[d]
    ensures LongestUnused(c, other, among, now, whole)
  {
    hide Timediff, Micros, NotAfter;
  }

  /** An eviction was needed and fair: the pool, or the bundle of the destination, had all the connections it
      had before but those evicted earlier, which were at or above the limit, and the longest unused of them at
      this reading of the clock was taken. */
  ghost predicate Fair(b: Before, log: seq<Eviction>, n: nat, to: nat)
    requires n < |log|
  {
    var e := log[n];
    var limit := if e.whole then b.totalLimit else b.destLimit;
    && e.among == (if e.whole then b.conns else b.bundle) - Evicted(log[..n])
    && 0 < limit <= |e.among|
    && b.from < e.tick <= to
    && LongestUnused(e.conn, b.mem, e.among, b.times(e.tick), e.whole)
  }

  /** A pool that came from another by these evictions, each of them fair, and nothing else. */
  ghost predicate Cut(b: Before, mem: Memory, conns: set<Conn>, bundle: set<Conn>, log: seq<Eviction>, to: nat) {
    && conns == b.conns - Evicted(log) && bundle == b.bundle - Evicted(log)
    && (forall c :: c in conns ==> c in b.mem && c in mem && mem[c] == b.mem[c])
    && (forall n :: 0 <= n < |log| ==> Fair(b, log, n, to))
  }

  lemma CutStart(b: Before)
    requires b.conns <= b.mem.Keys
    ensures Cut(b, b.mem, b.conns, b.bundle, [], b.from)
  {
  }

  /** Later readings do not matter to evictions that were made. */
  lemma CutLater(b: Before, mem: Memory, conns: set<Conn>, bundle: set<Conn>, log: seq<Eviction>, to: nat, later: nat)
    requires Cut(b, mem, conns, bundle, log, to) && to <= later
    ensures Cut(b, mem, conns, bundle, log, later)
  {
    hide LongestUnused;
    forall n | 0 <= n < |log|
      ensures Fair(b, log, n, later)
    {
      assert Fair(b, log, n, to);
    }
  }

  /** One eviction more. */
  lemma CutMore(b: Before, mem: Memory, conns: set<Conn>, bundle: set<Conn>, log: seq<Eviction>, to: nat,
                e: Eviction, after: Memory, shutdowns: seq<Conn>)
    requires Cut(b, mem, conns, bundle, log, to) && conns <= mem.Keys && bundle <= conns && conns !! Members(shutdowns)
    requires e.among == (if e.whole then conns else bundle) && b.from < e.tick == to
    requires 0 < (if e.whole then b.totalLimit else b.destLimit) <= |e.among|
    requires Timely(mem, b.times(to)) && IsOldest(Oldest(e.conn), mem, e.among, b.times(to), e.whole)
    requires Spares(mem, after, shutdowns, e.conn)
    ensures Cut(b, after, conns - {e.conn}, bundle - {e.conn}, log + [e], to)
  {
    hide IsOldest, LongestUnused, Timely, Score, Choosable, Evicted, Fair;
    OldestIsLongestUnused(e.conn, mem, e.among, b.times(to), e.whole);
    SameLongest(e.conn, mem, b.mem, e.among, b.times(to), e.whole);
    EvictedMore(log, e);
    FairMore(b, log, to, e);
    forall c | c in conns - {e.conn}
      ensures c in b.mem && c in after && after[c] == b.mem[c]
    {
      assert c !in Members(shutdowns);
    }
  }

  lemma FairMore(b: Before, log: seq<Eviction>, to: nat, e: Eviction)
    requires forall n :: 0 <= n < |log| ==> Fair(b, log, n, to)
    requires e.among == (if e.whole then b.conns else b.bundle) - Evicted(log) && b.from < e.tick <= to
    requires 0 < (if e.whole then b.totalLimit else b.destLimit) <= |e.among|
    requires LongestUnused(e.conn, b.mem, e.among, b.times(e.tick), e.whole)
    ensures forall n :: 0 <= n < |log + [e]| ==> Fair(b, log + [e], n, to)
  {
    hide LongestUnused, Evicted;
    var longer := log + [e];
    forall n | 0 <= n < |longer|
      ensures Fair(b, longer, n, to)
    {
      assert longer[..n] == log[..n];
      if n < |log| {
        assert Fair(b, log, n, to);
      } else {
        assert log[..n] == log;
      }
    }
  }

  function Count(m: Bundles, dest: string): nat {
    if dest in m then |m[dest]| else 0
  }

  ghost function BundleOf(m: Bundles, dest: string): set<Conn> {
    if dest in m then Members(m[dest]) else {}
  }

  lemma BundleSize(m: Bundles, conns: set<Conn>, dest: string)
    requires Bundled(m, conns)
    ensures BundleOf(m, dest) <= conns && |BundleOf(m, dest)| == Count(m, dest)
  {
    if dest in m {
      assert IsBundle(m[dest], dest, conns);
      SetOfList(m[dest]);
    }
  }

  lemma BundleShrinks(m: Bundles, conns: set<Conn>, c: Conn, dest: string)
    requires Bundled(m, conns) && c in conns
    ensures c.destination in m && BundleOf(Removed(m, c), dest) == BundleOf(m, dest) - {c}
  {
    var d := c.destination;
    assert IsBundle(m[d], d, conns);
    DropIs(m[d], c);
    hide Drop;
    if dest == d {
      assert Drop(m[d], c) == [] ==> forall o :: o in m[d] ==> o == c;
    } else if dest in m {
      assert IsBundle(m[dest], dest, conns);
    }
  }

  class Pool {
    var mem: Memory
    var dest2bundle: Bundles
    var numConn: nat
    var nextConnectionId: int
    var shutdowns: seq<Conn>
    const maxShutdown: int
    var locked: bool
    // The clock, and how often it was read.
    const times: nat -> Time
    var ticks: nat

    // The connections in bundles, and those that were freed.
    ghost var conns: set<Conn>
    ghost var freed: set<Conn>

    ghost predicate Valid()
      reads this`mem, this`dest2bundle, this`numConn, this`nextConnectionId, this`shutdowns, this`ticks, this`conns,
        this`freed
    {
      && Shape(dest2bundle, conns, numConn, shutdowns)
      && Tagged(mem, conns, shutdowns)
      && Numbered(mem, conns + Members(shutdowns), nextConnectionId)
      && Timely(mem, Clock())
      && mem.Keys !! freed && Ticking(times)
    }

    /** The last time read. */
    function Clock(): Time
      reads this`ticks
    {
      times(ticks)
    }

    /** Every connection there ever was. */
    ghost function Ever(): set<Conn>
      reads this`mem, this`freed
    {
      mem.Keys + freed
    }

    /** Those that were freed, or are being shut down. */
    ghost function Closed(): set<Conn>
      reads this`shutdowns, this`freed
    {
      Members(shutdowns) + freed
    }

    constructor (maxShutdown: int, times: nat -> Time)
      requires Ticking(times)
      ensures this.times == times && this.maxShutdown == maxShutdown && ticks == 0
      ensures Valid() && conns == {} && shutdowns == [] && mem == map[] && freed == {} && !locked
    {
      mem, dest2bundle, numConn, nextConnectionId, shutdowns := map[], map[], 0, 0, [];
      this.maxShutdown, this.times, locked, ticks := maxShutdown, times, false, 0;
      conns, freed := {}, {};
    }

    /** What the invariant says of the lists: the counter is the sum of the bundle sizes, no bundle is empty,
        each connection in one is marked and there by its destination, none is in a bundle and being shut down,
        and no two connections in lists have the same id. */
    lemma Consistent()
      requires Valid()
      ensures numConn == SizeSum(dest2bundle)
      ensures forall d :: d in dest2bundle ==> dest2bundle[d] != []
      ensures forall d, c :: d in dest2bundle && c in dest2bundle[d] ==>
        c.destination == d && c in mem && mem[c].inCpool && c !in shutdowns
      ensures forall d, c, e :: d in dest2bundle && c in dest2bundle[d] && e in mem && c != e ==>
        mem[c].connectionId != mem[e].connectionId
      ensures forall c, e ::
        c in shutdowns && e in mem && c != e ==> c in mem && mem[c].connectionId != mem[e].connectionId
    {
      SumIsSize(dest2bundle, conns);
      forall d, c | d in dest2bundle && c in dest2bundle[d]
        ensures c.destination == d && c in conns && c !in shutdowns
      {
        assert IsBundle(dest2bundle[d], d, conns);
        assert c in shutdowns ==> c in Members(shutdowns);
      }
      forall c | c in shutdowns
        ensures c in Members(shutdowns)
      {
      }
      hide Shape, Timely;
    }

    /** `Curl_now`. */
    method Now() returns (now: Time)
      requires Valid()
      modifies this`ticks
      ensures Valid() && ticks == old(ticks) + 1 && now == Clock()
    {
      hide Shape, Tagged, Numbered, Timely, NotAfter, Proper;
      TicksOn(times, ticks, ticks + 1);
      hide Ticking;
      TimelyLater(mem, times(ticks), times(ticks + 1));
      ticks := ticks + 1;
      now := times(ticks);
    }

    // ---------- what transfers do ----------

    /** A new connection, not yet in the pool. */
    method Allocate(c: Conn)
      requires Valid() && c !in Ever()
      modifies this`mem
      ensures Valid() && mem == old(mem)[c := Info(-1, Clock(), 0, false, false, false, false, Unlinked)]
    {
      AllocateOne(mem, conns, shutdowns, nextConnectionId, Clock(), c);
      hide Shape, Tagged, Numbered, Timely, Members;
      mem := mem[c := Info(-1, Clock(), 0, false, false, false, false, Unlinked)];
    }

    /** Transfers come and go, and mark connections. */
    method Use(c: Conn, users: nat, close: bool, connectOnly: bool)
      requires Valid() && c in mem
      modifies this`mem
      ensures Valid() && mem == old(mem)[c := old(mem)[c].(users := users, close := close, connectOnly := connectOnly)]
    {
      TimelyOne(mem, Clock(), c);
      hide Shape, Tagged, Numbered, Timely, Members, NotAfter, Proper;
      ghost var info := mem[c].(users := users, close := close, connectOnly := connectOnly);
      TagMark(mem, conns, shutdowns, nextConnectionId, Clock(), c, info);
      mem := mem[c := mem[c].(users := users, close := close, connectOnly := connectOnly)];
    }

    // ---------- adding and removing ----------

    /** `Curl_cpool_add_conn`. */
    method AddConn(conn: Conn)
      requires Valid() && !locked && conn in mem && mem[conn].node == Unlinked
      modifies this`mem, this`dest2bundle, this`numConn, this`nextConnectionId, this`conns, this`locked
      ensures Valid() && !locked && conns == old(conns) + {conn} && dest2bundle == Added(old(dest2bundle), conn)
      ensures mem == old(mem)[conn := Bundle(old(mem)[conn], old(nextConnectionId))]
    {
      hide Shape, PoolBundles.Added, Tagged, Numbered, Timely, Members;
      TagAdd(mem, conns, shutdowns, nextConnectionId, Clock(), conn);
      ShapeAdd(dest2bundle, conns, numConn, shutdowns, conn);
      locked := true;
      dest2bundle := PoolBundles.Added(dest2bundle, conn);
      mem := mem[conn := Bundle(mem[conn], nextConnectionId)];
      nextConnectionId := nextConnectionId + 1;
      numConn := numConn + 1;
      conns := conns + {conn};
      locked := false;
    }

    /** `cpool_remove_conn`, of a connection in the pool; an empty bundle is dropped. */
    method RemoveConn(conn: Conn)
      requires Valid() && conn in conns
      modifies this`mem, this`dest2bundle, this`numConn, this`conns
      ensures Ever() == old(Ever())
      ensures Valid() && conns == old(conns) - {conn} && dest2bundle == Removed(old(dest2bundle), conn)
      ensures conn in old(mem) && mem == old(mem)[conn := Unbundle(old(mem)[conn])]
    {
      hide Shape, Removed, Tagged, Numbered, Timely, Members;
      ShapeRemove(dest2bundle, conns, numConn, shutdowns, conn);
      TagRemove(mem, conns, shutdowns, nextConnectionId, Clock(), conn);
      dest2bundle := Removed(dest2bundle, conn);
      mem := mem[conn := Unbundle(mem[conn])];
      numConn := numConn - 1;
      conns := conns - {conn};
    }

    // ---------- closing ----------

    /** `cpool_close_and_destroy`: nothing may refer to the connection any more. */
    method Destroy(conn: Conn)
      requires Valid() && conn in mem && mem[conn].node == Unlinked
      modifies this`mem, this`freed
      ensures Valid() && mem == old(mem) - {conn} && freed == old(freed) + {conn} && Ever() == old(Ever())
    {
      hide Shape, Tagged, Numbered, Timely, Members;
      TagFree(mem, conns, shutdowns, nextConnectionId, Clock(), conn);
      mem := mem - {conn};
      freed := freed + {conn};
    }

    /** `cpool_shutdown_destroy_oldest`. */
    method DestroyOldest()
      requires Valid()
      modifies this`mem, this`freed, this`shutdowns
      ensures Valid() && Ever() == old(Ever()) && Closed() == old(Closed())
      ensures if old(shutdowns) == [] then mem == old(mem) && shutdowns == [] && freed == old(freed)
        else
          && shutdowns == old(shutdowns[1..]) && mem == old(mem) - {old(shutdowns[0])}
          && freed == old(freed) + {old(shutdowns[0])}
    {
      hide Tagged, Numbered, Timely, Shape, Members;
      if shutdowns != [] {
        var conn := shutdowns[0];
        ShapeUnshut(dest2bundle, conns, numConn, shutdowns, freed);
        TagUnshut(mem, conns, shutdowns, nextConnectionId, Clock());
        mem := mem[conn := mem[conn].(node := Unlinked)];
        shutdowns := shutdowns[1..];
        Destroy(conn);
      }
    }

    /** Marks a connection as aborted, or as not aborted. */
    method MarkAborted(conn: Conn, aborted: bool)
      requires Valid() && conn in mem
      modifies this`mem
      ensures Valid() && Ever() == old(Ever()) && mem == old(mem)[conn := old(mem)[conn].(aborted := aborted)]
    {
      hide Tagged, Numbered, Timely, Shape, Members, NotAfter, Proper;
      TimelyOne(mem, Clock(), conn);
      TagMark(mem, conns, shutdowns, nextConnectionId, Clock(), conn, mem[conn].(aborted := aborted));
      mem := mem[conn := mem[conn].(aborted := aborted)];
    }

    /** The end of `cpool_discard_conn`: the connection goes to the list of those that are being shut down,
        unless its events cannot be set up; the oldest one may have to leave that list first. */
    method QueueShutdown(conn: Conn)
      requires Valid() && conn in mem && mem[conn].node == Unlinked && mem[conn].connectionId >= 0
      modifies this`mem, this`freed, this`shutdowns
      ensures Valid() && Ever() == old(Ever()) && Spares(old(mem), mem, old(shutdowns), conn)
      ensures Members(shutdowns) <= old(Members(shutdowns)) + {conn}
      ensures old(Closed()) + {conn} <= Closed()
    {
      hide Valid, Numbered;
      UnlinkedIsNotListed(conn);
      if maxShutdown > 0 && maxShutdown >= |shutdowns| {
        DestroyOldest();
      }
      // The events of the connection may fail to be set up.
      var failed := *;
      if failed {
        Destroy(conn);
        return;
      }
      Shut(conn);
    }

    lemma UnlinkedIsNotListed(conn: Conn)
      requires Valid() && conn in mem && mem[conn].node == Unlinked
      ensures conn !in conns && conn !in shutdowns
    {
      hide Shape, Numbered, Timely;
      NotListed(mem, conns, shutdowns, conn);
    }

    /** `cpool_discard_conn`: frees a connection that left the pool, or puts it on the list of those that are
        being shut down; one that is still in use is left to its users, unless it is to be aborted. */
    method DiscardConn(conn: Conn, abort: bool)
      requires Valid() && conn in mem && mem[conn].node == Unlinked && (abort || mem[conn].connectionId >= 0)
      modifies this`mem, this`freed, this`shutdowns
      ensures Valid() && Ever() == old(Ever()) && Spares(old(mem), mem, old(shutdowns), conn)
      ensures Members(shutdowns) <= old(Members(shutdowns)) + {conn}
      ensures old(mem[conn].users) > 0 && !abort ==>
        mem == old(mem) && shutdowns == old(shutdowns) && freed == old(freed)
      ensures old(Closed()) <= Closed() && (old(mem[conn].users) == 0 || abort ==> conn in Closed())
      ensures abort || (old(mem[conn].users) == 0 && old(mem[conn].connectOnly)) ==> conn in freed
    {
      hide Valid;
      if mem[conn].users > 0 && !abort {
        return;
      }
      var aborted := abort || mem[conn].connectOnly;
      MarkAborted(conn, aborted);
      var done := aborted;
      if !done {
        // The shutdown may be over at once.
        done := *;
      }
      if done {
        Destroy(conn);
      } else {
        QueueShutdown(conn);
      }
    }

    /** Appends a connection to the list of those that are being shut down. */
    method Shut(conn: Conn)
      requires Valid() && conn in mem && mem[conn].node == Unlinked && mem[conn].connectionId >= 0
      modifies this`mem, this`shutdowns
      ensures Valid() && shutdowns == old(shutdowns) + [conn]
      ensures mem == old(mem)[conn := old(mem)[conn].(node := InShutdowns)]
    {
      hide Tagged, Numbered, Timely, Shape, Members;
      TagShut(mem, conns, shutdowns, nextConnectionId, Clock(), conn);
      ShapeShut(dest2bundle, conns, numConn, shutdowns, conn);
      shutdowns := shutdowns + [conn];
      mem := mem[conn := mem[conn].(node := InShutdowns)];
    }

    /** `Curl_cpool_disconnect`: takes a connection out of the pool and discards it, unless it is in use and
        not to be aborted. */
    method Disconnect(conn: Conn, abort: bool)
      requires Valid() && conn in mem && conn !in shutdowns && (abort || mem[conn].connectionId >= 0)
      modifies this`mem, this`dest2bundle, this`numConn, this`conns, this`freed, this`shutdowns, this`locked
      ensures Valid() && locked == old(locked) && Ever() == old(Ever())
      ensures Spares(old(mem), mem, old(shutdowns), conn) && Members(shutdowns) <= old(Members(shutdowns)) + {conn}
      ensures if old(mem[conn].users) > 0 && !abort
        then mem == old(mem) && conns == old(conns) && dest2bundle == old(dest2bundle) && shutdowns == old(shutdowns)
        else
          && conns == old(conns) - {conn}
          && dest2bundle == if conn in old(conns) then Removed(old(dest2bundle), conn) else old(dest2bundle)
      ensures old(Closed()) <= Closed() && (old(mem[conn].users) == 0 || abort ==> conn in Closed())
      ensures abort || (old(mem[conn].users) == 0 && old(mem[conn].connectOnly)) ==> conn in freed
    {
      hide Valid, Numbered, Removed, Members, Ever, Closed;
      MarkedIfInPool(conn);
      if mem[conn].users > 0 && !abort {
        return;
      }
      var doLock := !locked;
      if doLock {
        locked := true;
      }
      if mem[conn].inCpool {
        RemoveConn(conn);
      }
      // The callback, `Curl_on_disconnect`, aborts a connection that is only for connecting.
      var aborted := abort || mem[conn].connectOnly;
      DiscardConn(conn, aborted);
      if doLock {
        locked := false;
      }
    }

    lemma MarkedIfInPool(conn: Conn)
      requires Valid() && conn in mem
      ensures mem[conn].inCpool == (conn in conns) && mem[conn].node == NodeOf(conn, conns, shutdowns)
    {
      hide Shape, Numbered, Timely;
    }

    // ---------- limits ----------

    /** What evictions made so far, from the pool `b` was, have left. */
    ghost predicate Left(b: Before, log: seq<Eviction>)
      reads this`mem, this`conns, this`dest2bundle, this`ticks
    {
      b.times == times && b.from <= ticks && Cut(b, mem, conns, BundleOf(dest2bundle, b.dest), log, ticks)
    }

    /** The frame of the limit operations: no connection is lost, and what was evicted is closed. */
    twostate predicate Kept(log: seq<Eviction>, longer: seq<Eviction>)
      reads this`mem, this`freed, this`shutdowns, this`locked
    {
      && locked == old(locked) && Ever() == old(Ever())
      && old(Closed()) <= Closed() && (Evicted(log) <= old(Closed()) ==> Evicted(longer) <= Closed())
    }

    /** Disconnects the connection a search found. */
    method Evict(conn: Conn, ghost whole: bool, ghost b: Before, ghost log: seq<Eviction>)
      returns (ghost longer: seq<Eviction>)
      requires Valid() && Left(b, log) && b.from < ticks
      requires var among := if whole then conns else BundleOf(dest2bundle, b.dest);
        && among <= conns <= mem.Keys && IsOldest(Oldest(conn), mem, among, Clock(), whole)
        && 0 < (if whole then b.totalLimit else b.destLimit) <= |among|
      modifies this`mem, this`dest2bundle, this`numConn, this`conns, this`freed, this`shutdowns, this`locked
      ensures Valid() && Left(b, longer) && Kept(log, longer)
      ensures numConn < old(numConn) && Count(dest2bundle, b.dest) <= Count(old(dest2bundle), b.dest)
      ensures conns == old(conns) - {conn}
      ensures exists e :: longer == log + [e] && e.conn == conn
    {
      hide Valid, Ever, Closed, IsOldest, Cut, Removed, Spares, Bundled, Members, Count, Distinct, BundleOf, Timely,
        Evicted;
      var among := if whole then conns else BundleOf(dest2bundle, b.dest);
      ghost var e := Eviction(conn, among, ticks, whole);
      longer := log + [e];
      ghost var mem0, conns0, listed, bundles := mem, conns, shutdowns, dest2bundle;
      ChosenIsIdle(conn, mem, among, Clock(), whole);
      InPool(conn);
      BundleSize(dest2bundle, conns, b.dest);
      NowIsTimely();
      Disconnect(conn, false);
      CutMore(b, mem0, conns0, BundleOf(bundles, b.dest), log, ticks, e, mem, listed);
      BundleShrinks(bundles, conns0, conn, b.dest);
      EvictedMore(log, e);
      InPoolNow();
      BundleSize(dest2bundle, conns, b.dest);
    }

    lemma NumIsSize()
      requires Valid()
      ensures numConn == |conns|
    {
      hide Tagged, Numbered, Timely;
    }

    lemma InPoolNow()
      requires Valid()
      ensures numConn == |conns| && conns <= mem.Keys && Bundled(dest2bundle, conns)
    {
      hide Numbered, Timely;
    }

    lemma InPool(conn: Conn)
      requires Valid() && conn in conns
      ensures conn in mem && conn !in shutdowns && mem[conn].connectionId >= 0
      ensures conns !! Members(shutdowns) && Bundled(dest2bundle, conns) && numConn == |conns| == |conns - {conn}| + 1
    {
      assert conn !in Members(shutdowns);
    }

    lemma NowIsTimely()
      requires Valid()
      ensures Timely(mem, Clock())
    {
      hide Shape, Tagged, Numbered, Timely;
    }

    lemma AllInPool()
      requires Valid()
      ensures conns <= mem.Keys && Bundled(dest2bundle, conns)
    {
      hide Numbered, Timely;
    }

    lemma BundleInPool(dest: string)
      requires Valid() && dest in dest2bundle
      ensures BundleOf(dest2bundle, dest) <= conns && |BundleOf(dest2bundle, dest)| == |dest2bundle[dest]|
      ensures conns <= mem.Keys && forall c :: c in dest2bundle[dest] ==> c in mem && c in BundleOf(dest2bundle, dest)
      ensures Members(dest2bundle[dest]) == BundleOf(dest2bundle, dest)
    {
      AllInPool();
      BundleSize(dest2bundle, conns, dest);
    }

    /** `Curl_now` once more, which does not matter to what was evicted. */
    method Reread(ghost b: Before, ghost log: seq<Eviction>) returns (now: Time)
      requires Valid() && Left(b, log)
      modifies this`ticks
      ensures Valid() && ticks == old(ticks) + 1 && now == Clock() && Left(b, log) && b.from < ticks
    {
      hide Valid, Cut, BundleOf;
      now := Now();
      CutLater(b, mem, conns, BundleOf(dest2bundle, b.dest), log, ticks - 1, ticks);
    }

    /** One round of the first loop of `Curl_cpool_check_limits`: evicts from a full bundle, or is stuck. */
    method TrimBundle(ghost b: Before, dest: string, ghost log: seq<Eviction>)
      returns (stuck: bool, ghost longer: seq<Eviction>)
      requires Valid() && Left(b, log) && dest == b.dest
      requires dest in dest2bundle && 0 < b.destLimit <= |dest2bundle[dest]|
      modifies this`mem, this`dest2bundle, this`numConn, this`conns, this`freed, this`shutdowns, this`locked, this`ticks
      ensures Valid() && Left(b, longer) && Kept(log, longer)
      ensures stuck ==> dest2bundle == old(dest2bundle)
      ensures stuck ==> forall c :: c in dest2bundle[dest] ==> c in mem && mem[c].users > 0
      ensures !stuck ==> numConn < old(numConn)
    {
      hide Valid, Left, Ever, Closed, IsOldest, Bundled, Members, BundleOf, Evicted;
      var now := Reread(b, log);
      BundleInPool(dest);
      var oldest := OldestInBundle(dest2bundle[dest], mem, now);
      match oldest {
        case Nothing =>
          NowIsTimely();
          NothingToTake(mem, BundleOf(dest2bundle, dest), now, false);
          return true, log;
        case Oldest(conn) =>
          longer := Evict(conn, false, b, log);
          stuck := false;
      }
    }

    /** The first loop: makes room in the bundle of a destination. */
    method MakeRoomIn(ghost b: Before, dest: string, limit: nat, ghost log: seq<Eviction>)
      returns (full: bool, ghost longer: seq<Eviction>)
      requires Valid() && Left(b, log) && dest == b.dest && limit == b.destLimit > 0
      modifies this`mem, this`dest2bundle, this`numConn, this`conns, this`freed, this`shutdowns, this`locked, this`ticks
      ensures Valid() && Left(b, longer) && Kept(log, longer)
      ensures full <==> Count(dest2bundle, dest) >= limit
      ensures full ==> forall c :: c in dest2bundle[dest] ==> c in mem && mem[c].users > 0
    {
      hide Valid, Left, Ever, Closed, Evicted;
      longer, full := log, false;
      while dest in dest2bundle && |dest2bundle[dest]| >= limit
        invariant Valid() && Left(b, longer) && locked == old(locked)
        invariant Ever() == old(Ever()) && old(Closed()) <= Closed()
        invariant Evicted(log) <= old(Closed()) ==> Evicted(longer) <= Closed()
        decreases numConn
      {
        full, longer := TrimBundle(b, dest, longer);
        if full {
          return;
        }
      }
    }

    /** One round of the second loop: evicts from the pool, or is stuck. */
    method TrimPool(ghost b: Before, ghost log: seq<Eviction>) returns (oldest: Found, ghost longer: seq<Eviction>)
      requires Valid() && Left(b, log) && 0 < b.totalLimit <= numConn
      modifies this`mem, this`dest2bundle, this`numConn, this`conns, this`freed, this`shutdowns, this`locked, this`ticks
      ensures Valid() && Left(b, longer) && Kept(log, longer)
      ensures Count(dest2bundle, b.dest) <= Count(old(dest2bundle), b.dest)
      ensures oldest.Nothing? ==> longer == log && numConn == old(numConn) && conns == old(conns)
      ensures oldest.Nothing? ==> forall c :: c in conns ==> c in mem && !Choosable(mem[c], true)
      ensures oldest.Oldest? ==> numConn < old(numConn) && conns == old(conns) - {oldest.conn}
      ensures oldest.Oldest? ==> oldest.conn in old(conns) && exists e :: longer == log + [e]
    {
      hide Valid, Left, Ever, Closed, IsOldest, Bundled, Members, BundleOf, Evicted, Count, Choosable;
      var now := Reread(b, log);
      AllInPool();
      NumIsSize();
      oldest := OldestInPool(dest2bundle, conns, mem, now);
      match oldest {
        case Nothing =>
          NowIsTimely();
          NothingToTake(mem, conns, now, true);
          longer := log;
        case Oldest(conn) =>
          ChosenIsIdle(conn, mem, conns, now, true);
          longer := Evict(conn, true, b, log);
      }
    }

    /** The second loop: makes room in the pool. */
    method MakeRoom(ghost b: Before, limit: nat, ghost log: seq<Eviction>)
      returns (full: bool, ghost longer: seq<Eviction>)
      requires Valid() && Left(b, log) && limit == b.totalLimit > 0
      modifies this`mem, this`dest2bundle, this`numConn, this`conns, this`freed, this`shutdowns, this`locked, this`ticks
      ensures Valid() && Left(b, longer) && Kept(log, longer)
      ensures Count(dest2bundle, b.dest) <= Count(old(dest2bundle), b.dest)
      ensures full <==> numConn >= limit
      ensures full ==> forall c :: c in conns ==> c in mem && !Choosable(mem[c], true)
    {
      hide Valid, Left, Ever, Closed, Evicted, Count, Choosable;
      longer, full := log, false;
      while numConn >= limit
        invariant Valid() && Left(b, longer) && locked == old(locked)
        invariant Ever() == old(Ever()) && old(Closed()) <= Closed()
        invariant Evicted(log) <= old(Closed()) ==> Evicted(longer) <= Closed()
        invariant Count(dest2bundle, b.dest) <= Count(old(dest2bundle), b.dest)
        decreases numConn
      {
        var oldest: Found;
        oldest, longer := TrimPool(b, longer);
        if oldest.Nothing? {
          return true, longer;
        }
      }
    }

    /** The pool as it is, before any eviction. */
    ghost function BeforeAny(dest: string, destLimit: nat, totalLimit: nat): Before
      reads this`mem, this`conns, this`dest2bundle, this`ticks
    {
      Before(mem, conns, dest, BundleOf(dest2bundle, dest), destLimit, totalLimit, times, ticks)
    }

    lemma NothingYet(b: Before)
      requires Valid() && b == BeforeAny(b.dest, b.destLimit, b.totalLimit)
      ensures Left(b, []) && Evicted([]) == {}
    {
      hide Numbered, Timely, BundleOf, Cut;
      CutStart(b);
    }

    /** `Curl_cpool_check_limits`: OK means room for one more connection to the destination; otherwise nothing
        is left that may be evicted. Every eviction was needed and fair, and nothing else changed. */
    method CheckLimits(dest: string, destLimit: nat, totalLimit: nat) returns (result: Limit, ghost log: seq<Eviction>)
      requires Valid() && !locked
      modifies this`mem, this`dest2bundle, this`numConn, this`conns, this`freed, this`shutdowns, this`locked, this`ticks
      ensures Valid() && !locked && Ever() == old(Ever()) && old(Closed()) + Evicted(log) <= Closed()
      ensures Left(old(BeforeAny(dest, destLimit, totalLimit)), log)
      ensures result == LimitOk ==>
        && (destLimit > 0 ==> Count(dest2bundle, dest) < destLimit) && (totalLimit > 0 ==> numConn < totalLimit)
      ensures result == LimitDest ==>
        && destLimit > 0 && Count(dest2bundle, dest) >= destLimit
        && (forall c :: c in dest2bundle[dest] ==> c in mem && mem[c].users > 0)
      ensures result == LimitTotal ==>
        && totalLimit > 0 && numConn >= totalLimit
        && (forall c :: c in conns ==> c in mem && !Choosable(mem[c], true))
    {
      hide Valid, Left, Ever, Closed, Evicted, Count, Choosable;
      ghost var b := BeforeAny(dest, destLimit, totalLimit);
      NothingYet(b);
      log, result := [], LimitOk;
      if destLimit == 0 && totalLimit == 0 {
        return;
      }
      locked := true;
      if destLimit > 0 {
        var full: bool;
        full, log := MakeRoomIn(b, dest, destLimit, log);
        if full {
          result := LimitDest;
        }
      }
      if result == LimitOk && totalLimit > 0 {
        var full: bool;
        full, log := MakeRoom(b, totalLimit, log);
        if full {
          result := LimitTotal;
        }
      }
      locked := false;
    }

    /** A connection was used up to now. */
    method Touch(conn: Conn)
      requires Valid() && conn in mem
      modifies this`mem, this`ticks
      ensures Valid() && ticks == old(ticks) + 1 && Ever() == old(Ever())
      ensures conn in old(mem) && mem == old(mem)[conn := old(mem)[conn].(lastused := Clock())]
    {
      hide Shape, Tagged, Numbered, Timely, Members, Proper, NotAfter, Ticking;
      var now := Now();
      ClockIsTimely(mem, Clock());
      TagMark(mem, conns, shutdowns, nextConnectionId, Clock(), conn, mem[conn].(lastused := now));
      mem := mem[conn := mem[conn].(lastused := now)];
    }

    /** `Curl_cpool_conn_now_idle`: the connection was used up to now; with too many connections the longest
        unused one that may be taken is closed. True means that it was not the one given. */
    method ConnNowIdle(conn: Conn, maxconnects: nat, numEasy: nat)
      returns (kept: bool, ghost b: Before, ghost log: seq<Eviction>)
      requires Valid() && conn in conns
      modifies this`mem, this`dest2bundle, this`numConn, this`conns, this`freed, this`shutdowns, this`locked, this`ticks
      ensures Valid() && locked == old(locked) && Ever() == old(Ever()) && old(Closed()) + Evicted(log) <= Closed()
      ensures conn in old(mem) && b.mem == old(mem)[conn := old(mem)[conn].(lastused := times(old(ticks) + 1))]
      ensures b.conns == old(conns) && b.destLimit == 0 && b.from == old(ticks) + 1
      ensures Left(b, log) && |log| <= 1 && (kept <==> conn in conns)
      ensures var limit := if maxconnects == 0 then numEasy * 4 % UNSIGNED else maxconnects;
        && b.totalLimit == limit + 1
        && (limit == 0 ==> log == [])
        && (limit > 0 && old(numConn) > limit && log == [] ==>
          forall c :: c in conns ==> c in mem && !Choosable(mem[c], true))
    {
      hide Valid, Left, Ever, Closed, Evicted, Choosable, BundleOf;
      AllInPool();
      Touch(conn);
      var limit := if maxconnects == 0 then numEasy * 4 % UNSIGNED else maxconnects;
      b := BeforeAny("", 0, limit + 1);
      NothingYet(b);
      kept, log := true, [];
      if limit > 0 {
        var doLock := !locked;
        if doLock {
          locked := true;
        }
        if numConn > limit {
          var oldest: Found;
          oldest, log := TrimPool(b, log);
          kept := oldest != Oldest(conn);
        }
        if doLock {
          locked := false;
        }
      }
    }
  }
}
