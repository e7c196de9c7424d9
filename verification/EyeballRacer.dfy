/** One racer of a connect (struct eyeballer in connect.c): it tries the addresses of one family, one after the
    other. The outcomes of connects, and the time left, are arbitrary. */
module Racer {
  import opened Timeval
  import opened EyeballAddrs

  const CURLE_OK := 0
  const CURLE_COULDNT_CONNECT := 7
  const CURLE_WEIRD_SERVER_REPLY := 8
  const CURLE_OPERATION_TIMEDOUT := 28

  const TIMEOUT_LARGE := 600

  /** With more addresses left, an attempt gets half of a long time. */
  function UseTime(ms: int): int {
    if ms > TIMEOUT_LARGE then ms / 2 else ms
  }

  class Eyeballer {
    const list: seq<Addr>
    const family: int
    const first: nat
    // The racer this one is a backup for.
    const primary: Eyeballer?
    const delayMs: int

    var addr: nat
    // Is there a filter that connects?
    var cf: bool
    var started: Time
    var timeoutms: int
    var result: int
    var rewinded: bool
    var hasStarted: bool
    var isDone: bool
    var connected: bool
    var inconclusive: bool

    // The addresses tried so far, and the full passes over the list before this one.
    ghost var attempts: seq<nat>
    ghost var passes: nat
    // On another than the first socket: given up after a failure.
    ghost var gaveUp: bool
    // The readings of the clock at which it started, and was done.
    ghost var startTick: nat
    ghost var doneTick: nat
    // How often its connect was called.
    ghost var visits: nat

    /** The addresses of the family, in list order. */
    ghost function Walk(): seq<nat> {
      Matches(list, 0, family)
    }

    ghost predicate Placed()
      reads this`addr
    {
      first == NextFrom(list, 0, family) < |list| && addr <= |list| && (addr < |list| ==> list[addr].family == family)
    }

    /** What is tried and what is left of this pass make up the passes so far and one more. */
    ghost predicate OnPass(left: seq<nat>)
      reads this`attempts, this`passes, this`rewinded
    {
      attempts + left == Passes(Walk(), passes + 1) && (rewinded <==> passes > 0)
    }

    /** At an address that was tried. */
    ghost predicate AtAddress()
      reads this`addr, this`attempts, this`passes, this`rewinded
    {
      Placed() && addr < |list| && OnPass(Matches(list, addr + 1, family))
    }

    ghost predicate Waiting()
      reads this
    {
      && Placed() && !hasStarted && !isDone && !connected && addr == first
      && attempts == [] && passes == 0 && !rewinded && result != 0
    }

    ghost predicate Ongoing()
      reads this
    {
      AtAddress() && hasStarted && !isDone && !connected && result == 0 && cf
    }

    ghost predicate Failed()
      reads this
    {
      AtAddress() && hasStarted && !isDone && !connected && result != 0
    }

    /** Out of addresses: each was tried, in as many full passes as there were. */
    ghost predicate Exhausted()
      reads this
    {
      hasStarted && isDone && !connected && result != 0 && !gaveUp && attempts == Passes(Walk(), passes + 1)
      && (rewinded <==> passes > 0)
    }

    ghost predicate GivenUp()
      reads this
    {
      AtAddress() && hasStarted && isDone && !connected && result != 0 && gaveUp
    }

    ghost predicate Won()
      reads this
    {
      AtAddress() && hasStarted && isDone && connected && result == 0 && cf
    }

    ghost predicate Valid()
      reads this
    {
      Waiting() || Ongoing() || Exhausted() || GivenUp() || Won()
    }

    /** `eyeballer_new`. */
    constructor (list: seq<Addr>, addr: nat, family: int, primary: Eyeballer?, delayMs: int, timeoutMs: int)
      requires addr == NextFrom(list, 0, family) < |list|
      ensures Waiting() && this.list == list && this.family == family
      ensures this.primary == primary && this.delayMs == delayMs
      ensures !gaveUp
    {
      this.list, this.family, this.first, this.addr := list, family, addr, addr;
      this.primary, this.delayMs := primary, delayMs;
      cf, result, rewinded, hasStarted, isDone, connected, inconclusive :=
        false, CURLE_COULDNT_CONNECT, false, false, false, false, false;
      started := Time(0, 0);
      attempts, passes, gaveUp, startTick, doneTick, visits := [], 0, false, 0, 0, 0;
      new;
      var next := NextMatch(list, addr, family);
      timeoutms := if next < |list| then UseTime(timeoutMs) else timeoutMs;
    }

    /** `baller_rewind`: from the first address again. */
    method Rewind()
      requires Placed() && addr == |list| && OnPass([])
      modifies this`rewinded, this`addr, this`inconclusive, this`passes
      ensures Placed() && addr == first && !inconclusive
      ensures OnPass(Matches(list, addr, family)) && passes == old(passes) + 1
    {
      MatchesFromNext(list, 0, family);
      assert attempts + [] == attempts;
      hide Passes, Matches;
      rewinded, addr, inconclusive := true, first, false;
      PassesMore(Walk(), passes + 1);
      passes := passes + 1;
    }

    static lemma PassesMore(walk: seq<nat>, n: nat)
      ensures Passes(walk, n + 1) == Passes(walk, n) + walk
    {
    }

    /** `baller_next_addr`. */
    method NextAddr()
      requires AtAddress()
      modifies this`addr
      ensures Placed() && OnPass(Matches(list, addr, family))
      ensures old(addr) < addr == NextFrom(list, old(addr) + 1, family)
    {
      MatchesFromNext(list, addr + 1, family);
      hide Matches, Passes, NextFrom;
      addr := NextMatch(list, addr, family);
    }

    /** `baller_initiate`: tries the current address. */
    method Initiate()
      requires Placed() && addr < |list| && OnPass(Matches(list, addr, family))
      modifies this`cf, this`result, this`attempts
      ensures AtAddress() && (cf <==> result == 0) && attempts == old(attempts) + [addr]
    {
      assert NextFrom(list, addr, family) == addr;
      assert Matches(list, addr, family) == [addr] + Matches(list, addr + 1, family);
      hide Matches, Passes, NextFrom;
      assert (attempts + [addr]) + Matches(list, addr + 1, family) ==
        attempts + ([addr] + Matches(list, addr + 1, family));
      result := *;
      cf := result == CURLE_OK;
      attempts := attempts + [addr];
    }

    /** `baller_start`: goes on until a connect could be started, or there are no more addresses. */
    method Start(clock: Time, timeoutMs: int)
      requires Placed() && OnPass(Matches(list, addr, family)) && !isDone && (addr == |list| ==> result != 0) && !gaveUp
      modifies this`connected, this`hasStarted, this`started, this`timeoutms, this`addr, this`cf, this`result,
        this`attempts, this`isDone
      ensures (Ongoing() || Exhausted()) && old(attempts) <= attempts
    {
      hide Matches, Passes, NextFrom;
      connected, hasStarted := false, true;
      while addr < |list|
        invariant Placed() && OnPass(Matches(list, addr, family)) && (addr == |list| ==> result != 0)
        invariant !connected && hasStarted && !isDone && old(attempts) <= attempts
        decreases |list| - addr
      {
        started := clock;
        var next := NextMatch(list, addr, family);
        timeoutms := if next < |list| then UseTime(timeoutMs) else timeoutMs;
        Initiate();
        if result == CURLE_OK {
          return;
        }
        NextAddr();
      }
      PassOver();
      isDone := true;
    }

    lemma PassOver()
      requires OnPass(Matches(list, |list|, family))
      ensures attempts == Passes(Walk(), passes + 1)
    {
      assert attempts + [] == attempts;
    }

    /** `baller_start_next`: the next address, or again the first if an answer was inconclusive; on another
        than the first socket no more. */
    method StartNext(firstSocket: bool, clock: Time, timeoutMs: int)
      requires Failed() && !gaveUp
      modifies this
      ensures if firstSocket then (Ongoing() || Exhausted()) && !gaveUp else GivenUp()
      ensures startTick == old(startTick) && visits == old(visits)
      // again from the first address only when this pass is over and an answer was inconclusive
      ensures firstSocket && old(inconclusive) && NextFrom(list, old(addr) + 1, family) == |list| ==>
        passes == old(passes) + 1 && !inconclusive
      ensures !(firstSocket && old(inconclusive) && NextFrom(list, old(addr) + 1, family) == |list|) ==>
        passes == old(passes) && inconclusive == old(inconclusive)
    {
      hide Passes, NextFrom;
      if firstSocket {
        NextAddr();
        if addr == |list| && inconclusive {
          assert Matches(list, |list|, family) == [];
          Rewind();
        }
        Start(clock, timeoutMs);
      } else {
        connected, hasStarted, isDone := false, true, true;
        gaveUp := true;
        result := CURLE_COULDNT_CONNECT;
      }
    }

    /** `baller_connect`, of a racer that is trying. */
    method Connect(now: Time) returns (won: bool)
      requires Ongoing()
      modifies this`result, this`connected, this`isDone, this`inconclusive, this`visits
      ensures if won then Won() else Ongoing() || Failed()
      ensures !won && result == CURLE_OK ==> Timediff(now, started) < timeoutms
      ensures visits == old(visits) + 1
      ensures inconclusive == (old(inconclusive) || result == CURLE_WEIRD_SERVER_REPLY)
    {
      hide Passes, NextFrom, Matches;
      visits := visits + 1;
      won := connected;
      if result == CURLE_OK && !won {
        // The filter connects.
        result := *;
        won := *;
        if result == CURLE_OK {
          if won {
            connected, isDone := true, true;
          } else if Timediff(now, started) >= timeoutms {
            result := CURLE_OPERATION_TIMEDOUT;
          }
        } else {
          won := false;
          if result == CURLE_WEIRD_SERVER_REPLY {
            inconclusive := true;
          }
        }
      }
    }

    /** In order, and not the winner. */
    ghost predicate InRace(firstSocket: bool)
      reads this
    {
      Valid() && !Won() && (gaveUp ==> !firstSocket && GivenUp())
    }

    lemma States(firstSocket: bool)
      requires InRace(firstSocket)
      ensures (Waiting() <==> !hasStarted) && (Ongoing() <==> hasStarted && !isDone)
      ensures hasStarted && isDone ==> result != 0 && (if gaveUp then !firstSocket else Exhausted())
      ensures isDone ==> hasStarted
    {
      hide Placed, OnPass, AtAddress, Walk, Passes;
    }

    /** One racer in the first loop of `is_connected`. */
    method Visit(firstSocket: bool, now: Time, ghost tick: nat) returns (won: bool)
      requires InRace(firstSocket) && hasStarted && !isDone
      modifies this
      ensures hasStarted && (if won then Won() else InRace(firstSocket))
      ensures startTick == old(startTick) && (isDone ==> doneTick == tick) && visits == old(visits) + 1
    {
      hide Placed, OnPass, AtAddress, Walk, Passes, Timediff;
      won := Connect(now);
      if result != CURLE_OK {
        var timeLeft := *;
        StartNext(firstSocket, now, timeLeft);
      }
      doneTick := tick;
    }

    /** Is it time to start: is its primary done, or its delay over? */
    predicate Due(now: Time, raceStart: Time)
      reads this, primary
    {
      (primary != null && primary.isDone) || Timediff(now, raceStart) >= delayMs
    }

    /** One racer in the second loop: starts if it is due. */
    method StartIfDue(firstSocket: bool, now: Time, raceStart: Time, ghost tick: nat)
      requires InRace(firstSocket) && !hasStarted && primary != this
      modifies this
      ensures InRace(firstSocket) && (hasStarted <==> old(Due(now, raceStart)))
      ensures (hasStarted ==> startTick == tick) && (isDone ==> hasStarted && doneTick == tick)
      ensures visits == old(visits)
    {
      hide Placed, OnPass, AtAddress, Walk, Passes, Timediff;
      if Due(now, raceStart) {
        startTick := tick;
        StartFromWaiting();
        var timeLeft := *;
        Start(now, timeLeft);
        doneTick := tick;
      }
    }

    lemma StartFromWaiting()
      requires Waiting()
      ensures Placed() && OnPass(Matches(list, addr, family)) && addr < |list|
    {
      MatchesFromNext(list, 0, family);
      PassesMore(Walk(), 0);
    }
  }
}
