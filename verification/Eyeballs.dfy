/** The race of two address families (cf_he_ctx in connect.c). The outcomes of connects, the time left and the
    clock are arbitrary, but for the clock not going back. */
module Eyeballs {
  import opened Timeval
  import opened EyeballAddrs
  import opened Racer

  datatype Phase = Init | Racing | Finished

  // The verdicts of `is_connected`.
  datatype Verdict = Connected | StillTrying | TimedOut | AllFailed(code: int)

  datatype IpVersion = Whatever | V4 | V6

  // What a pass over the racers finds of one of them.
  datatype Seen = Over | NotStarted | Trying | Won

  predicate HasFamily(list: seq<Addr>, family: int) {
    NextFrom(list, 0, family) < |list|
  }

  lemma HasItsFamily(list: seq<Addr>, j: nat)
    requires j < |list|
    ensures HasFamily(list, list[j].family)
  {
  }

  /** The families to race for, the preferred one first. */
  function Chosen(list: seq<Addr>, v: IpVersion): seq<int> {
    match v
    case V6 => if HasFamily(list, AF_INET6) then [AF_INET6] else []
    case V4 => if HasFamily(list, AF_INET) then [AF_INET] else []
    case Whatever =>
      var six := if HasFamily(list, AF_INET6) then [AF_INET6] else [];
      var both := six + if HasFamily(list, AF_INET) then [AF_INET] else [];
      if both == [] && list != [] then [list[0].family] else both
  }

  class Race {
    const firstSocket: bool
    const list: seq<Addr>
    const ipVersion: IpVersion
    // How long the second racer waits.
    const happyDelay: int
    // The two racers; null if there is none, or it has won.
    var baller: seq<Eyeballer?>
    var winner: Eyeballer?
    var started: Time
    var phase: Phase
    // Does the filter of the race have a connection?
    var connected: bool
    // The clock, and how often it was read.
    const times: nat -> Time
    var ticks: nat
    // The reading at which the race started.
    ghost var raceTick: nat
    // The racers there are.
    ghost var racers: set<Eyeballer>
    // The racer whose connection was installed.
    ghost var installed: Eyeballer?

    /** The invariant of the whole filter. */
    ghost predicate Valid()
      reads this, racers
    {
      && (connected <==> phase == Finished) && (installed != null <==> phase == Finished) && winner == null
      && Ticking(times)
      && match phase
         case Init => true
         case Racing => Going() && Timed()
         case Finished => Timed() && baller == [null, null] && Known(installed) && installed.Won() && OnTime(installed)
    }

    constructor (list: seq<Addr>, firstSocket: bool, ipVersion: IpVersion, happyDelay: int, times: nat -> Time)
      requires Ticking(times)
      ensures Valid() && phase == Init && fresh(racers) && ticks == 0 && this.times == times
      ensures this.list == list && this.firstSocket == firstSocket
      ensures this.ipVersion == ipVersion && this.happyDelay == happyDelay
    {
      this.list, this.firstSocket, this.ipVersion, this.happyDelay := list, firstSocket, ipVersion, happyDelay;
      baller, winner, installed, phase, connected := [null, null], null, null, Init, false;
      this.times, ticks, raceTick := times, 0, 0;
      started, racers := Time(0, 0), {};
    }

    ghost predicate Known(b: Eyeballer)
      reads this`racers
    {
      b in racers && (b.primary != null ==> b.primary in racers)
    }

    /** There are two slots, for different racers; the second one is a backup for the first. */
    ghost predicate Slots()
      reads this`baller, this`racers
    {
      && |baller| == 2 && baller[0] != null && baller[0] != baller[1]
      && baller[0] in racers && baller[0].primary == null && baller[0].delayMs == 0
      && (baller[1] != null ==>
        baller[1] in racers && baller[1].primary == baller[0] && baller[1].delayMs == happyDelay)
      && Planned()
    }

    /** The racers race for the chosen families. */
    ghost predicate Planned()
      requires |baller| == 2 && baller[0] != null
      reads this`baller
    {
      var families := Chosen(list, ipVersion);
      && 1 <= |families| <= 2 && baller[0].list == list && baller[0].family == families[0]
      && (baller[1] != null <==> |families| == 2)
      && (baller[1] != null ==> baller[1].list == list && baller[1].family == families[1])
    }

    /** A racer that started did so after its delay, or when its primary was done; the ticks say when. */
    ghost predicate OnTime(b: Eyeballer)
      reads this`started, this`raceTick, this`ticks, b, b.primary
    {
      && (b.hasStarted ==>
        && raceTick <= b.startTick <= ticks
        && (Timediff(times(b.startTick), started) >= b.delayMs
          || (b.primary != null && b.primary.isDone && b.primary.doneTick <= b.startTick)))
      && (b.isDone ==> b.doneTick <= ticks)
    }

    /** The racers are in order, and started on time. */
    ghost predicate Going()
      reads this`baller, this`racers, this`started, this`raceTick, this`ticks, racers
    {
      && Slots()
      && baller[0].InRace(firstSocket) && OnTime(baller[0])
      && (baller[1] != null ==> baller[1].InRace(firstSocket) && OnTime(baller[1]))
    }

    ghost predicate Timed()
      reads this`started, this`raceTick, this`ticks
    {
      Ticking(times) && raceTick <= ticks && started == times(raceTick)
    }

    /** What happened to a racer since: a start or an end that was not there is at a later reading. */
    twostate predicate Moved(b: Eyeballer)
      reads this`ticks, b
    {
      && old(ticks) <= ticks
      && (old(b.hasStarted) ==> b.hasStarted && b.startTick == old(b.startTick))
      && (!old(b.hasStarted) && b.hasStarted ==> old(ticks) < b.startTick)
      && (old(b.isDone) ==> b.isDone && b.doneTick == old(b.doneTick))
      && (!old(b.isDone) && b.isDone ==> old(ticks) < b.doneTick)
    }

    /** How many racers have not started. */
    ghost function Unstarted(): nat
      requires Slots()
      reads this`baller, this`racers, racers`hasStarted
    {
      (if baller[0].hasStarted then 0 else 1) + (if baller[1] != null && !baller[1].hasStarted then 1 else 0)
    }

    /** How many racers are trying. */
    ghost function Working(): nat
      requires Slots()
      reads this`baller, this`racers, racers
    {
      One(baller[0]) + One(baller[1])
    }

    static ghost function One(b: Eyeballer?): nat
      reads if b == null then {} else {b}
    {
      if b != null && b.hasStarted && !b.isDone then 1 else 0
    }

    /** All racers are done. */
    ghost predicate AllDone()
      requires Slots()
      reads this`baller, this`racers, racers`isDone
    {
      baller[0].isDone && (baller[1] != null ==> baller[1].isDone)
    }

    /** The winner left its slot; it and the other racer started on time, and the other one is in order. */
    ghost predicate HasWinner(b0: Eyeballer, b1: Eyeballer?)
      reads this`baller, this`winner, this`racers, this`started, this`raceTick, this`ticks, b0, b0.primary
      reads if b1 == null then {} else {b1, b1.primary}
    {
      && |baller| == 2 && OnTime(b0) && (b1 != null ==> OnTime(b1))
      && winner != null && Known(winner)
      && if winner == b0 then b0.Won() && baller == [null, b1] && (b1 != null ==> b1.InRace(firstSocket))
         else b1 != null && winner == b1 && b1.Won() && baller == [b0, null] && b0.InRace(firstSocket)
    }

    /** What one pass over the racers does to one: one that is trying was called once, and is done from this reading
        on, or as before. */
    twostate predicate Passed(b: Eyeballer)
      reads this`ticks, b
    {
      && b.visits == old(b.visits + One(b))
      && b.hasStarted == old(b.hasStarted) && b.startTick == old(b.startTick)
      && (old(b.isDone) ==> b.isDone && b.doneTick == old(b.doneTick))
      && (!old(b.isDone) && b.isDone ==> b.doneTick == ticks)
    }

    /** The racer is as before. */
    twostate predicate Same(b: Eyeballer)
      reads b
    {
      && b.visits == old(b.visits) && b.hasStarted == old(b.hasStarted) && b.startTick == old(b.startTick)
      && b.isDone == old(b.isDone) && b.doneTick == old(b.doneTick)
    }

    /** What one pass does to the racers: it ends when the first one wins. */
    twostate predicate BothPassed(b0: Eyeballer, b1: Eyeballer?)
      reads this`ticks, this`winner, b0, if b1 == null then {} else {b1}
    {
      Passed(b0) && (b1 != null ==> if winner == b0 then Same(b1) else Passed(b1))
    }

    /** One evaluation calls each racer that is trying, but for the second one when the first one wins. */
    twostate predicate CalledOnce(b0: Eyeballer, b1: Eyeballer?)
      reads this`winner, b0, if b1 == null then {} else {b1}
    {
      && b0.visits == old(b0.visits + One(b0))
      && (b1 != null ==> b1.visits == old(b1.visits) + if winner == b0 then 0 else old(One(b1)))
    }

    /** ... and several of them do so at least once. */
    twostate predicate Called(b0: Eyeballer, b1: Eyeballer?)
      reads this`winner, b0, if b1 == null then {} else {b1}
    {
      && b0.visits >= old(b0.visits + One(b0))
      && (b1 != null && winner != b0 ==> b1.visits >= old(b1.visits + One(b1)))
    }

    function Stage(b: Eyeballer): Seen
      reads b
    {
      if !b.hasStarted then NotStarted else if b.isDone then Over else Trying
    }

    /** One racer in the first loop of `is_connected`. */
    method LetOneGoOn(b: Eyeballer, now: Time) returns (seen: Seen)
      requires b.InRace(firstSocket) && OnTime(b) && b.primary != b
      modifies b
      ensures Passed(b) && OnTime(b) && (if seen == Won then b.Won() else b.InRace(firstSocket))
      ensures seen == Won || seen == Stage(b)
    {
      hide Eyeballer.InRace, Eyeballer.Won, Timediff;
      if b.isDone {
        b.States(firstSocket);
        return Over;
      }
      if !b.hasStarted {
        return NotStarted;
      }
      var won := b.Visit(firstSocket, now, ticks);
      seen := if won then Won else if b.isDone then Over else Trying;
    }

    /** One slot in the first loop; a winner leaves it. */
    method LetSlotGoOn(i: nat, now: Time) returns (seen: Seen)
      requires i < 2 && Going() && winner == null
      modifies this`baller, this`winner, if |baller| == 2 && baller[i] != null then {baller[i]} else {}
      ensures old(baller[i]) != null ==> Passed(old(baller[i]))
      ensures if seen == Won then winner == old(baller[i]) != null && HasWinner(old(baller[0]), old(baller[1]))
        else
          && Going() && winner == null && baller == old(baller)
          && seen == if baller[i] == null then Over else Stage(baller[i])
    {
      hide Planned, Eyeballer.InRace, Eyeballer.Won, Timediff;
      var b := baller[i];
      if b == null {
        return Over;
      }
      seen := LetOneGoOn(b, now);
      if seen == Won {
        winner := b;
        baller := baller[i := null];
      }
    }

    /** The first loop of `is_connected`: lets each racer that is trying go on; the first one to connect is the
        winner, and leaves its slot. */
    method LetGoOn(now: Time) returns (ongoing: nat, notStarted: nat)
      requires Going() && winner == null
      modifies this`baller, this`winner, racers
      ensures BothPassed(old(baller[0]), old(baller[1]))
      ensures if winner == null then
          && Going() && baller == old(baller) && ongoing == Working() && notStarted == Unstarted() == old(Unstarted())
        else
          HasWinner(old(baller[0]), old(baller[1]))
    {
      hide Planned, OnTime, HasWinner, Eyeballer.InRace, Eyeballer.Won, Timediff;
      ongoing, notStarted := 0, 0;
      for i := 0 to 2
        invariant Going() && winner == null && baller == old(baller)
        invariant if i > 0 then Passed(baller[0]) else Same(baller[0])
        invariant baller[1] != null ==> if i > 1 then Passed(baller[1]) else Same(baller[1])
        invariant ongoing == (if i > 0 then One(baller[0]) else 0) + (if i > 1 then One(baller[1]) else 0)
        invariant notStarted == (if i > 0 && !baller[0].hasStarted then 1 else 0)
          + (if i > 1 && baller[1] != null && !baller[1].hasStarted then 1 else 0)
      {
        var seen := LetSlotGoOn(i, now);
        match seen {
          case Over =>
          case NotStarted => notStarted := notStarted + 1;
          case Trying => ongoing := ongoing + 1;
          case Won => return;
        }
      }
    }

    /** What the second loop does to one racer: it may start at this reading of the clock, and be done. */
    twostate predicate Started(b: Eyeballer)
      reads this`ticks, b
    {
      && (old(b.hasStarted) ==> b.hasStarted && b.startTick == old(b.startTick))
      && b.visits == old(b.visits)
      && (!old(b.hasStarted) && b.hasStarted ==> b.startTick == ticks)
      && (old(b.isDone) ==> b.isDone && b.doneTick == old(b.doneTick))
      && (!old(b.isDone) && b.isDone ==> b.doneTick == ticks)
    }

    /** One racer in the second loop of `is_connected`. */
    method StartOne(b: Eyeballer, now: Time) returns (added: nat)
      requires b.InRace(firstSocket) && OnTime(b) && b.primary != b && now == times(ticks) && raceTick <= ticks
      requires b.primary != null && b.primary.isDone ==> b.primary.doneTick <= ticks
      modifies b
      ensures b.InRace(firstSocket) && OnTime(b) && Started(b) && added == One(b) - old(One(b))
      ensures old(b.hasStarted) ==> added == 0 && b.isDone == old(b.isDone)
      ensures b.hasStarted <==> old(b.hasStarted || b.Due(now, started))
    {
      b.States(firstSocket);
      hide Eyeballer.InRace, Timediff;
      added := 0;
      if !b.hasStarted {
        b.StartIfDue(firstSocket, now, started, ticks);
        if b.hasStarted && !b.isDone {
          added := 1;
        }
      }
    }

    /** What the second loop does to the racers. */
    twostate predicate BothStarted(b0: Eyeballer, b1: Eyeballer?)
      reads this`ticks, b0, if b1 == null then {} else {b1}
    {
      Started(b0) && (b1 != null ==> Started(b1))
    }

    /** One slot in the second loop. */
    method StartSlot(i: nat, now: Time) returns (added: nat)
      requires i < 2 && Going() && raceTick <= ticks && now == times(ticks) && Timediff(now, started) >= 0
      modifies if |baller| == 2 && baller[i] != null then {baller[i]} else {}
      ensures Going() && added == One(baller[i]) - old(One(baller[i])) && (baller[i] != null ==> Started(baller[i]))
      ensures baller[i] != null && !old(baller[i].hasStarted) ==>
        added == if baller[i].hasStarted && !baller[i].isDone then 1 else 0
      ensures baller[i] != null && old(baller[i].hasStarted) ==> added == 0 && baller[i].isDone == old(baller[i].isDone)
      ensures i == 0 || baller[0].isDone ==> baller[i] == null || baller[i].hasStarted
      ensures baller[i] != null && !baller[i].hasStarted ==> Timediff(now, started) < baller[i].delayMs
    {
      hide Planned, Eyeballer.InRace, Timediff;
      added := 0;
      var b := baller[i];
      if b != null {
        added := StartOne(b, now);
      }
    }

    /** No racer that waits is due at this reading of the clock: the first one has started, the second one waits
        only while the first is not done and its delay not over. */
    ghost predicate NoneDue()
      requires Slots()
      reads this`baller, this`racers, this`started, this`ticks, racers
    {
      && baller[0].hasStarted
      && (baller[1] != null && !baller[1].hasStarted ==>
        !baller[0].isDone && Timediff(times(ticks), started) < happyDelay)
    }

    /** The second loop: starts the racers that are due, and counts those that now try. */
    method StartDue(now: Time) returns (added: nat)
      requires Going() && Timed() && now == times(ticks)
      modifies racers
      ensures Going() && added == Working() - old(Working()) && Unstarted() + added <= old(Unstarted())
      ensures BothStarted(baller[0], baller[1])
      ensures NoneDue()
    {
      hide OnTime, Planned, Eyeballer.InRace, Timediff, Ticking;
      RaceIsOn();
      added := 0;
      for i := 0 to 2
        invariant Going() && added == Working() - old(Working()) && Unstarted() + added <= old(Unstarted())
        invariant BothStarted(baller[0], baller[1])
        invariant (i > 0 ==> baller[0].hasStarted) && (i > 1 ==> NoneDue())
      {
        var more := StartSlot(i, now);
        added := added + more;
      }
    }

    /** The race started before now, so the delay of the first racer, 0, is over. */
    lemma RaceIsOn()
      requires Timed()
      ensures Timediff(times(ticks), started) >= 0
    {
      TicksOn(times, raceTick, ticks);
      PastScore(times(ticks), times(raceTick));
    }

    /** `Curl_now`, during a race. */
    method Now() returns (now: Time)
      requires Going() && Timed()
      modifies this`ticks
      ensures Going() && Timed() && ticks == old(ticks) + 1 && now == times(ticks)
    {
      hide Eyeballer.InRace, Timediff, Ticking, Planned;
      ticks := ticks + 1;
      now := times(ticks);
    }

    /** One evaluation: the part of `is_connected` between `evaluate:` and the `goto`. The verdict
        `StillTrying` with `again` asks for the jump. `timeLeft` is what is left of the time for the connect. */
    method Evaluate() returns (v: Verdict, again: bool, ghost timeLeft: int)
      requires Going() && Timed() && winner == null
      modifies this`baller, this`winner, this`ticks, racers
      ensures Timed() && ticks == old(ticks) + 1 && (v == Connected <==> winner != null)
      ensures Moved(old(baller[0])) && (old(baller[1]) != null ==> Moved(old(baller[1])))
      ensures CalledOnce(old(baller[0]), old(baller[1]))
      ensures if winner == null then Going() && baller == old(baller) else HasWinner(old(baller[0]), old(baller[1]))
      ensures winner == null ==> (v == TimedOut <==> timeLeft < 0 && Working() + Unstarted() > 0)
      ensures winner == null && again ==> Unstarted() < old(Unstarted())
      ensures v.AllFailed? ==> Slots() && AllDone() && Failure(v.code)
      ensures again ==> v == StillTrying
      ensures v == StillTrying && !again ==> Working() > 0 && NoneDue()
    {
      hide Eyeballer.InRace, HasWinner, OnTime, Timediff, Ticking, Planned;
      again := false;
      var now := Now();
      var ongoing, notStarted := LetGoOn(now);
      if winner != null {
        return Connected, false, 0;
      }
      var left := *;
      timeLeft := left;
      if (ongoing > 0 || notStarted > 0) && left < 0 {
        return TimedOut, false, left;
      }
      if notStarted > 0 {
        var added := StartDue(now);
        ongoing := ongoing + added;
        if added > 0 {
          return StillTrying, true, left;
        }
      }
      if ongoing > 0 {
        return StillTrying, false, left;
      }
      var code := FailureOf();
      v := AllFailed(code);
    }

    /** `is_connected`: evaluates until no racer was added. The winner and every other racer started after its
        delay, or when its primary was done; while they are trying none that is due is left waiting; "all failed"
        means that all are done. */
    method IsConnected() returns (v: Verdict, ghost timeLeft: int)
      requires Going() && Timed() && winner == null
      modifies this`baller, this`winner, this`ticks, racers
      ensures Timed() && old(ticks) < ticks && (v == Connected <==> winner != null)
      ensures Moved(old(baller[0])) && (old(baller[1]) != null ==> Moved(old(baller[1])))
      ensures if winner == null then Going() && baller == old(baller) else HasWinner(old(baller[0]), old(baller[1]))
      ensures Called(old(baller[0]), old(baller[1]))
      ensures v.AllFailed? ==> Slots() && AllDone() && Failure(v.code)
      ensures v == StillTrying ==> Working() > 0 && NoneDue()
      ensures winner == null ==> (v == TimedOut <==> timeLeft < 0 && Working() + Unstarted() > 0)
    {
      hide Eyeballer.InRace, HasWinner, OnTime, Timediff, Ticking, Planned;
      var again := true;
      v, timeLeft := StillTrying, 0;
      while again
        invariant Timed() && old(ticks) <= ticks && (!again ==> old(ticks) < ticks)
        invariant Moved(old(baller[0])) && (old(baller[1]) != null ==> Moved(old(baller[1])))
        invariant if winner == null then Going() && baller == old(baller) else HasWinner(old(baller[0]), old(baller[1]))
        invariant again ==> winner == null
        invariant if ticks > old(ticks) then Called(old(baller[0]), old(baller[1]))
          else Same(old(baller[0])) && (old(baller[1]) != null ==> Same(old(baller[1])))
        invariant !again && winner == null ==> (v == TimedOut <==> timeLeft < 0 && Working() + Unstarted() > 0)
        invariant !again ==> (v == Connected <==> winner != null)
        invariant !again && v.AllFailed? ==> Slots() && AllDone() && Failure(v.code)
        invariant !again && v == StillTrying ==> Slots() && Working() > 0 && NoneDue()
        decreases if again then Unstarted() + 1 else 0
      {
        v, again, timeLeft := Evaluate();
      }
    }

    /** The code when all racers failed: that of the first one, or that of a timeout of the system. */
    ghost predicate Failure(code: int)
      requires Slots()
      reads this`baller, this`racers, racers`result
    {
      code != CURLE_OK && (code == baller[0].result || code == CURLE_OPERATION_TIMEDOUT)
    }

    method FailureOf() returns (code: int)
      requires Going() && AllDone()
      ensures Failure(code)
    {
      baller[0].States(firstSocket);
      hide Eyeballer.InRace, Planned;
      code := CURLE_COULDNT_CONNECT;
      for i := 0 to 2
        invariant i == 0
      {
        var b := baller[i];
        if b != null && b.hasStarted && b.result != 0 {
          code := b.result;
          break;
        }
      }
      var etimedout := *;
      if etimedout {
        code := CURLE_OPERATION_TIMEDOUT;
      }
    }

    /** When all have failed on the first socket, each racer tried every address of its family in list order,
        in one full pass, or more if it was rewound. */
    lemma AllTried(b: Eyeballer)
      requires Going() && AllDone() && firstSocket && b in baller
      ensures b.attempts == Passes(b.Walk(), b.passes + 1) && (!b.rewinded ==> b.attempts == b.Walk())
      ensures forall j :: 0 <= j < |b.list| && b.list[j].family == b.family ==> j in b.attempts
    {
      b.States(firstSocket);
      assert Passes(b.Walk(), b.passes + 1) == Passes(b.Walk(), b.passes) + b.Walk();
      assert Passes(b.Walk(), 0) == [];
      MatchesAreAll(b.list, 0, b.family);
    }

    /** ... so that with no preference for a family, every IPv4 and IPv6 address of the host was tried. */
    lemma EveryAddressTried(j: nat)
      requires Going() && AllDone() && firstSocket && ipVersion == Whatever
      requires j < |list| && (list[j].family == AF_INET || list[j].family == AF_INET6)
      ensures j in baller[0].attempts || (baller[1] != null && j in baller[1].attempts)
    {
      HasItsFamily(list, j);
      hide Eyeballer.InRace, NextFrom;
      AllTried(baller[0]);
      if baller[1] != null {
        AllTried(baller[1]);
      }
    }

    lemma FirstOfItsFamily()
      requires list != []
      ensures NextFrom(list, 0, list[0].family) == 0
    {
    }

    /** The families of `start_connect`, with their first addresses; the end of the list for no second one. */
    method Choose() returns (family0: int, addr0: nat, family1: int, addr1: nat)
      ensures addr0 == |list| <==> Chosen(list, ipVersion) == []
      ensures addr0 != |list| ==>
        && addr0 == NextFrom(list, 0, family0) < |list|
        && 1 <= |Chosen(list, ipVersion)| <= 2 && family0 == Chosen(list, ipVersion)[0]
      ensures addr1 != |list| <==> |Chosen(list, ipVersion)| == 2
      ensures addr1 != |list| ==> addr1 == NextFrom(list, 0, family1) < |list| && family1 == Chosen(list, ipVersion)[1]
    {
      hide NextFrom;
      family1, addr1 := 0, |list|;
      if ipVersion == V6 {
        family0 := AF_INET6;
        addr0 := FirstMatch(list, family0);
      } else if ipVersion == V4 {
        family0 := AF_INET;
        addr0 := FirstMatch(list, family0);
      } else {
        family0 := AF_INET6;
        addr0 := FirstMatch(list, family0);
        family1 := AF_INET;
        addr1 := FirstMatch(list, family1);
        if addr1 == |list| && addr0 == |list| && list != [] {
          family0 := list[0].family;
          addr0 := FirstMatch(list, family0);
          FirstOfItsFamily();
        }
      }
      if addr0 == |list| && addr1 != |list| {
        addr0, family0, addr1 := addr1, family1, |list|;
      }
    }

    /** `start_connect`: a racer for each of the chosen families; the race starts at this reading of the clock. */
    method StartConnect(timeLeft: int) returns (code: int)
      requires Valid() && phase == Init
      modifies this`baller, this`started, this`ticks, this`raceTick, this`racers
      ensures code ==
        if timeLeft < 0 then CURLE_OPERATION_TIMEDOUT
        else if Chosen(list, ipVersion) == [] then CURLE_COULDNT_CONNECT
        else CURLE_OK
      ensures ticks == old(ticks) + (if timeLeft < 0 then 0 else 1)
      ensures code == CURLE_OK ==> raceTick == ticks && Timed() && Going() && Unstarted() == |Chosen(list, ipVersion)|
      ensures if code == CURLE_OK then fresh(racers - old(racers)) else Valid() && racers == old(racers)
    {
      hide NextFrom, Ticking, Chosen;
      if timeLeft < 0 {
        return CURLE_OPERATION_TIMEDOUT;
      }
      ticks := ticks + 1;
      started, raceTick := times(ticks), ticks;
      var family0, addr0, family1, addr1 := Choose();
      if addr0 == |list| {
        return CURLE_COULDNT_CONNECT;
      }
      var b0 := new Eyeballer(list, addr0, family0, null, 0, timeLeft);
      var b1: Eyeballer? := null;
      if addr1 != |list| {
        b1 := new Eyeballer(list, addr1, family1, b0, happyDelay, timeLeft);
      }
      baller := [b0, b1];
      racers := racers + {b0} + (if b1 == null then {} else {b1});
      return CURLE_OK;
    }

    /** The winner's connection becomes the one of the filter. */
    method Install(ghost b0: Eyeballer, ghost b1: Eyeballer?)
      requires Timed() && HasWinner(b0, b1) && phase == Racing && Ticking(times)
      modifies this`baller, this`winner, this`phase, this`connected, this`installed
      ensures Valid() && connected && installed == old(winner)
    {
      hide Ticking, Timediff, Eyeballer.InRace, Eyeballer.Won;
      phase, connected := Finished, true;
      installed, winner := winner, null;
      baller := [null, null];
    }

    /** `cf_he_connect`, with a race that goes on. */
    method GoOn() returns (code: int, ghost verdict: Verdict)
      requires Valid() && phase == Racing
      modifies this`baller, this`winner, this`phase, this`connected, this`ticks, this`installed, racers
      ensures Valid() && old(ticks) < ticks && phase != Init
      ensures connected <==> verdict == Connected
      ensures verdict == Connected || verdict == StillTrying <==> code == CURLE_OK
      ensures verdict.AllFailed? ==> phase == Racing && Slots() && AllDone() && Failure(code)
      ensures verdict == StillTrying && phase == Racing ==> Slots() && Working() > 0 && NoneDue()
    {
      hide Timed, AllDone, NoneDue, Unstarted, Working, HasWinner, Ticking, Moved, Known, OnTime, Planned;
      hide Eyeballer.Won;
      ghost var b0, b1 := baller[0], baller[1];
      code := CURLE_OK;
      ghost var timeLeft;
      var v;
      v, timeLeft := IsConnected();
      verdict := v;
      match v {
        case Connected => Install(b0, b1);
        case StillTrying =>
        case TimedOut => code := CURLE_OPERATION_TIMEDOUT;
        case AllFailed(c) => code := c;
      }
    }

    /** `cf_he_connect`: done exactly when a connection is installed; once it is, it stays, and no other is
        made. A failure on the first socket means that every address was tried, see EveryAddressTried. */
    method Connect() returns (code: int, done: bool, ghost verdict: Verdict)
      requires Valid()
      modifies this`baller, this`winner, this`started, this`phase, this`connected, this`ticks, this`raceTick
      modifies this`racers, this`installed, racers
      ensures Valid() && fresh(racers - old(racers)) && old(ticks) <= ticks
      ensures done <==> connected
      ensures done ==> code == CURLE_OK
      ensures old(connected) ==> installed == old(installed) && connected
      ensures verdict.AllFailed? ==> phase == Racing && Slots() && AllDone() && Failure(code)
      ensures verdict == StillTrying && phase == Racing ==> Slots() && Working() > 0 && NoneDue()
      ensures code != CURLE_OK && phase == Racing ==> verdict.AllFailed? || verdict == TimedOut
    {
      hide Going, Timed, Slots, AllDone, NoneDue, Failure, Unstarted, Working, Ticking, Chosen, Known, OnTime;
      hide Eyeballer.Won;
      if connected {
        return CURLE_OK, true, Connected;
      }
      code, done, verdict := CURLE_OK, false, StillTrying;
      if phase == Init {
        var timeLeft := *;
        code := StartConnect(timeLeft);
        if code != CURLE_OK {
          return code, false, StillTrying;
        }
        phase := Racing;
      }
      code, verdict := GoOn();
      done := connected;
    }
  }
}
