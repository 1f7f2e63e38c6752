/** Sessions of the u-blox driver thread: clients start and stop, the engine is stopped when the
    last one leaves, and it is shut down after the receiver's acknowledgement or a timeout
    (ublox_gps_hal/gps_thread.cpp, the acknowledgement in ublox_gps_hal/ubxgpsstate.cpp, the
    report gate in ublox_gps_hal/ubx_localDb.cpp).  This is the build without SUPL. */
module Session {

  datatype GpsThreadState = GPS_UNKNOWN | GPS_STARTED | GPS_STOPPING | GPS_STOPPED

  /** The fields of the control thread, of the state object and of the database that sessions
      use, and observers: when the engine was last stopped, how many resets the receiver has
      acknowledged since, the resets it still owes an acknowledgement for, whether it has
      acknowledged that of the last stop, and whether a set-initiated stop came since the engine
      started.  `pending` holds for each reset whether it is that of the last stop. */
  datatype Session = Session(
    gpsState: GpsThreadState,
    clientCount: int,
    stoppingTimeoutMs: int,
    publishCount: int,
    shutdownAck: bool,
    startups: nat,
    shutdowns: nat,
    stoppedAt: int,
    acksSinceStop: nat,
    pending: seq<bool>,
    stopAcknowledged: bool,
    siStopSinceStart: bool)
  {
    /** The next acknowledgement to come is that of the last stop. */
    predicate OwnNext() {
      pending != [] && pending[0]
    }
  }

  /** si tells a set-initiated session from a network-initiated one. */
  datatype Event =
    | Start(si: bool)
    | Stop(si: bool, now: int)
    | UnknownCommand
    | OtherReset              // CFG-RST sent to delete data in the receiver
    | ResetAcknowledged       // UBX-ACK-ACK for CFG-RST, which does not say for which one
    | ResetLost(k: nat)       // the write of a pending reset, or its acknowledgement, gets lost
    | LoopEnd(now: int)       // the check at the end of each pass of the main loop

  /** The receiver has been sent one reset, to make sure that it is stopped. */
  const INITIAL := Session(GPS_STOPPED, 0, 0, 0, false, 0, 0, 0, 0, [false], false, false)

  function EngineStartEffect(s: Session): Session {
    if s.clientCount != 0 then s.(clientCount := s.clientCount + 1)
    else s.(clientCount := 1, gpsState := GPS_STARTED, shutdownAck := false, publishCount := s.publishCount + 1,
            startups := s.startups + 1, pending := s.pending + [false], siStopSinceStart := false)
  }

  function EngineStopEffect(s: Session, si: bool, now: int, timeoutMs: int): Session {
    var t := if si && s.publishCount > 0 then s.(publishCount := s.publishCount - 1) else s;
    var u := if si then t.(siStopSinceStart := true) else t;
    if s.clientCount <= 0 then u
    else if s.clientCount > 1 then u.(clientCount := s.clientCount - 1)
    else u.(clientCount := 0, gpsState := GPS_STOPPING, stoppingTimeoutMs := now + timeoutMs, publishCount := 0,
            stoppedAt := now, acksSinceStop := 0, stopAcknowledged := false,
            pending := Others(|s.pending|) + [true])
  }

  function Others(n: nat): seq<bool> {
    seq(n, i => false)
  }

  /** Acknowledgements come in the order of the resets. */
  function AcknowledgedEffect(s: Session): Session {
    var t := s.(acksSinceStop := s.acksSinceStop + 1,
                pending := if s.pending == [] then [] else s.pending[1..],
                stopAcknowledged := s.stopAcknowledged || s.OwnNext());
    if s.gpsState == GPS_STOPPING then t.(shutdownAck := true) else t
  }

  function LostEffect(s: Session, k: nat): Session {
    if k < |s.pending| then s.(pending := s.pending[..k] + s.pending[k + 1..]) else s
  }

  function Step(s: Session, e: Event, timeoutMs: int): Session {
    match e
    case Start(_) => EngineStartEffect(s)
    case Stop(si, now) => EngineStopEffect(s, si, now, timeoutMs)
    case UnknownCommand => s
    case OtherReset => s.(pending := s.pending + [false])
    case ResetAcknowledged => AcknowledgedEffect(s)
    case ResetLost(k) => LostEffect(s, k)
    case LoopEnd(now) =>
      if s.gpsState == GPS_STOPPING && (s.shutdownAck || now > s.stoppingTimeoutMs) then
        s.(gpsState := GPS_STOPPED, shutdowns := s.shutdowns + 1)
      else s
  }

  function Run(events: seq<Event>, timeoutMs: int): Session {
    if events == [] then INITIAL
    else Step(Run(events[..|events| - 1], timeoutMs), events[|events| - 1], timeoutMs)
  }

  predicate Inv(s: Session, timeoutMs: int) {
    && s.clientCount >= 0
    && (s.gpsState == GPS_STARTED <==> s.clientCount > 0)
    && s.gpsState != GPS_UNKNOWN
    && (s.shutdownAck ==> s.gpsState == GPS_STOPPING || s.gpsState == GPS_STOPPED)
    && (s.gpsState == GPS_STOPPING ==>
          && s.stoppingTimeoutMs == s.stoppedAt + timeoutMs && (s.shutdownAck <==> s.acksSinceStop > 0)
          && (s.stopAcknowledged ==> s.acksSinceStop > 0))
    && s.publishCount == (if s.clientCount > 0 && !s.siStopSinceStart then 1 else 0)
    && s.shutdowns + (if s.gpsState == GPS_STOPPED then 0 else 1) <= s.startups
  }

  lemma StepKeepsInv(s: Session, e: Event, timeoutMs: int)
    requires Inv(s, timeoutMs)
    ensures Inv(Step(s, e, timeoutMs), timeoutMs)
  {
  }

  lemma {:induction false} RunKeepsInv(events: seq<Event>, timeoutMs: int)
    ensures Inv(Run(events, timeoutMs), timeoutMs)
  {
    if events == [] {
    } else {
      RunKeepsInv(events[..|events| - 1], timeoutMs);
      StepKeepsInv(Run(events[..|events| - 1], timeoutMs), events[|events| - 1], timeoutMs);
    }
  }

  /** Over every sequence of events. */
  lemma SessionsConsistent(events: seq<Event>, timeoutMs: int)
    ensures var s := Run(events, timeoutMs);
            && (s.gpsState == GPS_STARTED <==> s.clientCount > 0)
            && (s.shutdownAck ==> s.gpsState == GPS_STOPPING || s.gpsState == GPS_STOPPED)
            && s.publishCount <= 1
            && (s.clientCount == 0 ==> s.publishCount == 0)
            && s.shutdowns <= s.startups
  {
    RunKeepsInv(events, timeoutMs);
  }

  // ------------------------------------------------- how many clients there are

  function Starts(events: seq<Event>): nat {
    if events == [] then 0 else Starts(events[..|events| - 1]) + if events[|events| - 1].Start? then 1 else 0
  }

  function Stops(events: seq<Event>): nat {
    if events == [] then 0 else Stops(events[..|events| - 1]) + if events[|events| - 1].Stop? then 1 else 0
  }

  /** Starts without stops, less than 0 if there are more stops. */
  function Net(events: seq<Event>): int {
    Starts(events) - Stops(events)
  }

  /** A start adds a client; a stop takes one away if there is one, and otherwise leaves the count
      and the engine alone, as everything else does. */
  lemma CountStep(s: Session, e: Event, timeoutMs: int)
    requires Inv(s, timeoutMs)
    ensures var t := Step(s, e, timeoutMs);
            && t.clientCount == (if e.Start? then s.clientCount + 1
                                 else if e.Stop? && s.clientCount > 0 then s.clientCount - 1 else s.clientCount)
            && (s.clientCount == 1 && e.Stop? ==>
                  t.gpsState == GPS_STOPPING && t.stoppingTimeoutMs == e.now + timeoutMs)
            && (s.clientCount == 0 && e.Stop? ==>
                  t.gpsState == s.gpsState && t.stoppingTimeoutMs == s.stoppingTimeoutMs && t.pending == s.pending)
  {
  }

  lemma NetOfSuffix(events: seq<Event>, k: nat)
    requires k < |events|
    ensures var last := events[|events| - 1];
            Net(events[k..]) == Net(events[..|events| - 1][k..]) +
                                if last.Start? then 1 else if last.Stop? then -1 else 0
  {
    var suffix := events[k..];
    assert suffix[..|suffix| - 1] == events[..|events| - 1][k..];
  }

  /** Over any events, matched or not, the count of clients is the largest excess of starts over
      stops at the end of them: at least that of every suffix, and that of some suffix. */
  lemma {:induction false} ClientCountExactly(events: seq<Event>, timeoutMs: int) returns (k: nat)
    ensures k <= |events| && Run(events, timeoutMs).clientCount == Net(events[k..])
    ensures forall i: nat :: i <= |events| ==> Net(events[i..]) <= Run(events, timeoutMs).clientCount
  {
    if events == [] {
      k := 0;
    } else {
      var front, last := events[..|events| - 1], events[|events| - 1];
      k := ClientCountExactly(front, timeoutMs);
      RunKeepsInv(front, timeoutMs);
      CountStep(Run(front, timeoutMs), last, timeoutMs);
      forall i: nat | i <= |events| ensures Net(events[i..]) <= Run(events, timeoutMs).clientCount {
        if i < |events| {
          NetOfSuffix(events, i);
        }
      }
      NetOfSuffix(events, k);
      if last.Stop? && Run(front, timeoutMs).clientCount == 0 {
        k := |events|;
      }
    }
  }

  lemma {:induction false} NetSplit(events: seq<Event>, k: nat)
    requires k <= |events|
    ensures Net(events) == Net(events[..k]) + Net(events[k..])
    decreases |events|
  {
    if k == |events| {
      assert events[..k] == events;
    } else {
      NetOfSuffix(events, k);
      NetSplit(events[..|events| - 1], k);
      assert events[..|events| - 1][..k] == events[..k];
    }
  }

  /** As long as there were never more stops than starts, the clients are the difference, and the
      engine is started exactly while that is not 0. */
  lemma MatchedClients(events: seq<Event>, timeoutMs: int)
    requires forall k: nat :: k <= |events| ==> Stops(events[..k]) <= Starts(events[..k])
    ensures Run(events, timeoutMs).clientCount == Starts(events) - Stops(events)
    ensures Run(events, timeoutMs).gpsState == GPS_STARTED <==> Starts(events) > Stops(events)
  {
    var k := ClientCountExactly(events, timeoutMs);
    RunKeepsInv(events, timeoutMs);
    NetSplit(events, k);
    assert Stops(events[..k]) <= Starts(events[..k]);
    assert events[0..] == events && Net(events[0..]) <= Run(events, timeoutMs).clientCount;
  }

  /** The engine is started by a start that finds no client, by nothing else, and never more often
      than there were starts. */
  lemma {:induction false} StartupsJustified(events: seq<Event>, timeoutMs: int)
    ensures var s := Run(events, timeoutMs);
            && s.startups <= Starts(events)
            && forall e :: Run(events + [e], timeoutMs).startups ==
                           s.startups + if e.Start? && s.clientCount == 0 then 1 else 0
  {
    var s := Run(events, timeoutMs);
    forall e ensures Run(events + [e], timeoutMs).startups ==
                     s.startups + if e.Start? && s.clientCount == 0 then 1 else 0
    {
      assert (events + [e])[..|events|] == events;
    }
    if events == [] {
    } else {
      StartupsJustified(events[..|events| - 1], timeoutMs);
      assert events == events[..|events| - 1] + [events[|events| - 1]];
    }
  }

  /** A shutdown happens only with no client, and only after an acknowledgement that came after
      this very stop, or after the whole timeout; none from before the stop can trigger it. */
  lemma ShutdownJustified(events: seq<Event>, e: Event, timeoutMs: int)
    ensures var s := Run(events, timeoutMs);
            var t := Run(events + [e], timeoutMs);
            t.shutdowns != s.shutdowns ==>
              && e.LoopEnd? && t.shutdowns == s.shutdowns + 1
              && s.clientCount == 0 && s.gpsState == GPS_STOPPING && t.gpsState == GPS_STOPPED
              && (s.acksSinceStop > 0 || e.now > s.stoppedAt + timeoutMs)
  {
    RunKeepsInv(events, timeoutMs);
    assert (events + [e])[..|events|] == events;
  }

  /** Events that leave a stop pending. */
  predicate NoCommand(events: seq<Event>) {
    forall i :: 0 <= i < |events| ==> !events[i].Start? && !events[i].Stop?
  }

  predicate NoLoss(events: seq<Event>) {
    forall i :: 0 <= i < |events| ==> !events[i].ResetLost?
  }

  lemma StepWhilePending(s: Session, e: Event, timeoutMs: int)
    requires s.gpsState == GPS_STOPPING && !e.Start? && !e.Stop? && !e.ResetLost?
    requires if s.acksSinceStop == 0 then s.OwnNext() else s.stopAcknowledged
    ensures var t := Step(s, e, timeoutMs);
            if t.acksSinceStop == 0 then t.OwnNext() else t.stopAcknowledged
  {
  }

  /** While a stop is pending its timeout stays, and if its own acknowledgement is the next to come,
      that stays so until it has come. */
  lemma {:induction false} StopStaysPending(events: seq<Event>, more: seq<Event>, timeoutMs: int)
    requires NoCommand(more) && Run(events, timeoutMs).gpsState == GPS_STOPPING
    requires Run(events + more, timeoutMs).gpsState == GPS_STOPPING
    ensures var s, t := Run(events, timeoutMs), Run(events + more, timeoutMs);
            && t.stoppingTimeoutMs == s.stoppingTimeoutMs
            && (NoLoss(more) && s.acksSinceStop == 0 && s.OwnNext() ==>
                  if t.acksSinceStop == 0 then t.OwnNext() else t.stopAcknowledged)
    decreases |more|
  {
    if more == [] {
      assert events + more == events;
    } else {
      var front, last := more[..|more| - 1], more[|more| - 1];
      assert (events + more)[..|events + more| - 1] == events + front;
      StopStaysPending(events, front, timeoutMs);
      if NoLoss(more) && Run(events, timeoutMs).acksSinceStop == 0 && Run(events, timeoutMs).OwnNext() {
        StepWhilePending(Run(events + front, timeoutMs), last, timeoutMs);
      }
    }
  }

  /** The stop sent by `events` ends after `more` and the check at `now`. */
  predicate EndsAfter(events: seq<Event>, more: seq<Event>, now: int, timeoutMs: int) {
    && NoCommand(more)
    && Run(events + more, timeoutMs).gpsState == GPS_STOPPING
    && Step(Run(events + more, timeoutMs), LoopEnd(now), timeoutMs).gpsState == GPS_STOPPED
  }

  /** It does so for a reason of its own: acknowledged itself, or late. */
  predicate RightlyEnded(events: seq<Event>, more: seq<Event>, now: int, timeoutMs: int) {
    Run(events + more, timeoutMs).stopAcknowledged || now > Run(events, timeoutMs).stoppingTimeoutMs
  }

  /** A stop that is pending ends only on its own acknowledgement or its timeout, whatever else
      comes and as long as nothing more gets lost, exactly when the next acknowledgement due is
      its own: the code cannot tell a late acknowledgement of the start from that of the stop. */
  lemma OwnAcknowledgementExactly(events: seq<Event>, timeoutMs: int)
    requires var s := Run(events, timeoutMs); s.gpsState == GPS_STOPPING && s.acksSinceStop == 0
    ensures (forall more: seq<Event>, now: int ::
               NoLoss(more) && EndsAfter(events, more, now, timeoutMs) ==> RightlyEnded(events, more, now, timeoutMs))
            <==> Run(events, timeoutMs).OwnNext()
  {
    var s := Run(events, timeoutMs);
    if s.OwnNext() {
      forall more: seq<Event>, now: int | NoLoss(more) && EndsAfter(events, more, now, timeoutMs)
        ensures RightlyEnded(events, more, now, timeoutMs)
      {
        StopStaysPending(events, more, timeoutMs);
        RunKeepsInv(events + more, timeoutMs);
      }
    } else {
      var front: seq<Event> := [];
      assert events + front == events;
      RunKeepsInv(events, timeoutMs);
      OtherAckEnds(events, front, timeoutMs);
      assert front + [ResetAcknowledged] == [ResetAcknowledged] && NoLoss([ResetAcknowledged]);
    }
  }

  /** An acknowledgement that is not the stop's own ends it at once. */
  lemma OtherAckEnds(events: seq<Event>, front: seq<Event>, timeoutMs: int)
    requires var s := Run(events + front, timeoutMs);
             s.gpsState == GPS_STOPPING && !s.OwnNext() && !s.stopAcknowledged
    requires NoCommand(front)
    requires Run(events + front, timeoutMs).stoppingTimeoutMs == Run(events, timeoutMs).stoppingTimeoutMs
    ensures var more, now := front + [ResetAcknowledged], Run(events, timeoutMs).stoppingTimeoutMs;
            EndsAfter(events, more, now, timeoutMs) && !RightlyEnded(events, more, now, timeoutMs)
  {
    var more := front + [ResetAcknowledged];
    assert (events + more)[..|events + more| - 1] == events + front;
    assert Run(events + more, timeoutMs) == AcknowledgedEffect(Run(events + front, timeoutMs));
  }

  lemma {:induction false} LoseAll(events: seq<Event>, timeoutMs: int) returns (front: seq<Event>)
    ensures NoCommand(front)
    ensures Run(events + front, timeoutMs) == Run(events, timeoutMs).(pending := [])
    decreases |Run(events, timeoutMs).pending|
  {
    var s := Run(events, timeoutMs);
    if s.pending == [] {
      front := [];
      assert events + front == events;
    } else {
      var more := events + [ResetLost(0)];
      assert more[..|events|] == events;
      assert Run(more, timeoutMs) == LostEffect(s, 0);
      var rest := LoseAll(more, timeoutMs);
      front := [ResetLost(0)] + rest;
      assert events + front == more + rest;
    }
  }

  /** And losses can always do it: what is pending gets lost, and another reset is sent and
      acknowledged. */
  lemma LossMisleads(events: seq<Event>, timeoutMs: int) returns (more: seq<Event>, now: int)
    requires var s := Run(events, timeoutMs); s.gpsState == GPS_STOPPING && s.acksSinceStop == 0
    ensures EndsAfter(events, more, now, timeoutMs) && !RightlyEnded(events, more, now, timeoutMs)
  {
    RunKeepsInv(events, timeoutMs);
    var lost := LoseAll(events, timeoutMs);
    var front := lost + [OtherReset];
    assert (events + front)[..|events + front| - 1] == events + lost;
    assert Run(events + front, timeoutMs) == Run(events, timeoutMs).(pending := [false]);
    OtherAckEnds(events, front, timeoutMs);
    more, now := front + [ResetAcknowledged], Run(events, timeoutMs).stoppingTimeoutMs;
  }

  /** And it does happen: a pass of the loop after the deadline, or after an acknowledgement,
      ends the stopping phase. */
  lemma StoppingEnds(events: seq<Event>, now: int, timeoutMs: int)
    requires Run(events, timeoutMs).gpsState == GPS_STOPPING
    requires var s := Run(events, timeoutMs); s.acksSinceStop > 0 || now > s.stoppedAt + timeoutMs
    ensures Run(events + [LoopEnd(now)], timeoutMs).gpsState == GPS_STOPPED
  {
    RunKeepsInv(events, timeoutMs);
    assert (events + [LoopEnd(now)])[..|events|] == events;
  }

  /** Positions are published exactly while there is a client and no set-initiated stop has come
      since the engine was started, however many clients remain. */
  lemma PublishesExactly(events: seq<Event>, timeoutMs: int)
    ensures var s := Run(events, timeoutMs);
            s.publishCount > 0 <==> s.clientCount > 0 && !s.siStopSinceStart
  {
    RunKeepsInv(events, timeoutMs);
  }

  /** Event k started the engine, and no set-initiated stop came behind it. */
  predicate StartedUnstopped(events: seq<Event>, k: nat, timeoutMs: int) {
    && k < |events| && events[k].Start? && Run(events[..k], timeoutMs).clientCount == 0
    && forall j :: k < j < |events| ==> !(events[j].Stop? && events[j].si)
  }

  lemma {:induction false} EngineStartFound(events: seq<Event>, timeoutMs: int) returns (k: nat)
    requires Run(events, timeoutMs).clientCount > 0 && !Run(events, timeoutMs).siStopSinceStart
    ensures StartedUnstopped(events, k, timeoutMs)
  {
    var front, last := events[..|events| - 1], events[|events| - 1];
    RunKeepsInv(front, timeoutMs);
    CountStep(Run(front, timeoutMs), last, timeoutMs);
    if last.Start? && Run(front, timeoutMs).clientCount == 0 {
      k := |events| - 1;
    } else {
      k := EngineStartFound(front, timeoutMs);
      assert front[..k] == events[..k] && front[k] == events[k];
      forall j | k < j < |events| ensures !(events[j].Stop? && events[j].si) {
        if j < |front| {
          assert events[j] == front[j];
        }
      }
    }
  }

  lemma SiStopStep(s: Session, e: Event, timeoutMs: int)
    ensures Step(s, e, timeoutMs).siStopSinceStart <==>
            if e.Start? && s.clientCount == 0 then false else s.siStopSinceStart || (e.Stop? && e.si)
  {
  }

  lemma {:induction false} NoStopSince(events: seq<Event>, k: nat, timeoutMs: int)
    requires StartedUnstopped(events, k, timeoutMs)
    ensures !Run(events, timeoutMs).siStopSinceStart
    decreases |events|
  {
    var front, last := events[..|events| - 1], events[|events| - 1];
    SiStopStep(Run(front, timeoutMs), last, timeoutMs);
    if k == |events| - 1 {
    } else {
      assert front[..k] == events[..k] && front[k] == events[k];
      assert StartedUnstopped(front, k, timeoutMs);
      NoStopSince(front, k, timeoutMs);
    }
  }

  /** The same by the events alone: some start of the engine has no set-initiated stop behind it. */
  lemma PublishedSinceStartExactly(events: seq<Event>, timeoutMs: int)
    ensures var s := Run(events, timeoutMs);
            s.publishCount > 0 <==> s.clientCount > 0 && exists k: nat :: StartedUnstopped(events, k, timeoutMs)
  {
    PublishesExactly(events, timeoutMs);
    var s := Run(events, timeoutMs);
    if s.clientCount > 0 && !s.siStopSinceStart {
      var k := EngineStartFound(events, timeoutMs);
    }
    if k: nat :| StartedUnstopped(events, k, timeoutMs) {
      NoStopSince(events, k, timeoutMs);
    }
  }

  /** So "published while a client is active" fails: two clients, one set-initiated stop. */
  lemma ActiveButSilent(now: int, timeoutMs: int)
    ensures var s := Run([Start(true), Start(false), Stop(true, now)], timeoutMs);
            s.clientCount == 1 && s.gpsState == GPS_STARTED && s.publishCount == 0
  {
    var e := [Start(true), Start(false), Stop(true, now)];
    assert e[..2] == [Start(true), Start(false)] && e[..2][..1] == [Start(true)] && [Start(true)][..0] == [];
    var s1 := Step(INITIAL, Start(true), timeoutMs);
    assert Run([Start(true)], timeoutMs) == s1;
    assert Run(e[..2], timeoutMs) == Step(s1, Start(false), timeoutMs);
  }

  // ------------------------------------------------------------------ the thread

  class ControlThread {
    const stopTimeoutMs: int
    var gpsState: GpsThreadState
    var clientCount: int
    var stoppingTimeoutMs: int
    var publishCount: int
    var receiverShutdownAck: bool
    var startups: nat
    var shutdowns: nat
    ghost var stoppedAt: int
    ghost var acksSinceStop: nat
    ghost var pending: seq<bool>
    ghost var stopAcknowledged: bool
    ghost var siStopSinceStart: bool

    ghost function View(): Session
      reads this
    {
      Session(gpsState, clientCount, stoppingTimeoutMs, publishCount, receiverShutdownAck, startups, shutdowns,
              stoppedAt, acksSinceStop, pending, stopAcknowledged, siStopSinceStart)
    }

    ghost predicate Valid()
      reads this
    {
      Inv(View(), stopTimeoutMs)
    }

    /** handle_init. */
    constructor (stopTimeoutMs: int)
      ensures Valid() && View() == INITIAL && this.stopTimeoutMs == stopTimeoutMs
    {
      this.stopTimeoutMs := stopTimeoutMs;
      gpsState, clientCount, stoppingTimeoutMs, publishCount := GPS_STOPPED, 0, 0, 0;
      receiverShutdownAck, startups, shutdowns := false, 0, 0;
      stoppedAt, acksSinceStop, pending, stopAcknowledged, siStopSinceStart := 0, 0, [false], false, false;
    }

    method EngineStart(si: bool)
      requires Valid()
      modifies this
      ensures Valid() && View() == Step(old(View()), Start(si), stopTimeoutMs)
    {
      clientCount := clientCount + 1;
      if clientCount == 1 {
        startups := startups + 1;
        gpsState := GPS_STARTED;
        receiverShutdownAck := false;
        publishCount := publishCount + 1;
        siStopSinceStart := false;
        pending := pending + [false];
      }
    }

    method EngineStop(si: bool, now: int)
      requires Valid()
      modifies this
      ensures Valid() && View() == Step(old(View()), Stop(si, now), stopTimeoutMs)
    {
      if si {
        siStopSinceStart := true;
        if publishCount == 0 {
        } else {
          publishCount := publishCount - 1;
        }
      }
      if clientCount > 0 {
        clientCount := clientCount - 1;
        if clientCount == 0 {
          gpsState := GPS_STOPPING;
          stoppingTimeoutMs := now + stopTimeoutMs;
          publishCount := 0;
          stoppedAt, acksSinceStop := now, 0;
          stopAcknowledged, pending := false, Others(|pending|) + [true];
        }
      }
    }

    /** The acknowledgement branch of onNewUbxMsg. */
    method OnResetAck()
      requires Valid()
      modifies this
      ensures Valid() && View() == Step(old(View()), ResetAcknowledged, stopTimeoutMs)
    {
      acksSinceStop := acksSinceStop + 1;
      stopAcknowledged := stopAcknowledged || View().OwnNext();
      pending := if pending == [] then [] else pending[1..];
      if gpsState == GPS_STOPPING {
        receiverShutdownAck := true;
      }
    }

    method HandleStopped()
      requires clientCount == 0
      modifies `gpsState, `shutdowns
      ensures gpsState == GPS_STOPPED && shutdowns == old(shutdowns) + 1
    {
      shutdowns := shutdowns + 1;
      gpsState := GPS_STOPPED;
    }

    method HandleDeviceShutdown(now: int)
      requires Valid() && gpsState == GPS_STOPPING
      modifies this
      ensures Valid() && View() == Step(old(View()), LoopEnd(now), stopTimeoutMs)
    {
      var timeOut := now > stoppingTimeoutMs;
      if receiverShutdownAck || timeOut {
        HandleStopped();
      }
    }

    /** One event of the main loop. */
    method Handle(e: Event)
      requires Valid()
      modifies this
      ensures Valid() && View() == Step(old(View()), e, stopTimeoutMs)
    {
      match e
      case Start(si) => EngineStart(si);
      case Stop(si, now) => EngineStop(si, now);
      case UnknownCommand =>
      case OtherReset => pending := pending + [false];
      case ResetAcknowledged => OnResetAck();
      case ResetLost(k) => pending := LostEffect(View(), k).pending;
      case LoopEnd(now) =>
        if gpsState == GPS_STOPPING {
          HandleDeviceShutdown(now);
        }
    }
  }

  // ------------------------------------------------------------- the report gate

  /** The longest interval that the receiver keeps by itself. */
  const RECEIVER_INTERVAL := 2000

  datatype GateState = GateState(nextEpoch: int, interval: nat)

  datatype GateEvent = SetInterval(minInterval: nat, now: int) | CommitAt(now: int)

  /** With no epoch set every commit may report; otherwise one may when the epoch has come, and it
      sets the next.  A new interval starts over. */
  function GateStep(g: GateState, e: GateEvent): GateState {
    match e
    case SetInterval(minInterval, now) =>
      if minInterval > RECEIVER_INTERVAL then GateState(now, minInterval) else GateState(0, 0)
    case CommitAt(now) =>
      if g.nextEpoch != 0 && now >= g.nextEpoch then g.(nextEpoch := now + g.interval) else g
  }

  predicate GateOpen(g: GateState, now: int) {
    g.nextEpoch == 0 || now >= g.nextEpoch
  }

  /** The gate after the first n events. */
  function GateAfter(g: GateState, events: seq<GateEvent>, n: nat): GateState
    requires n <= |events|
  {
    if n == 0 then g else GateStep(GateAfter(g, events, n - 1), events[n - 1])
  }

  /** Whether event i is a commit that reports. */
  predicate Reports(g: GateState, events: seq<GateEvent>, i: nat)
    requires i < |events|
  {
    events[i].CommitAt? && GateOpen(GateAfter(g, events, i), events[i].now)
  }

  predicate Rising(events: seq<GateEvent>) {
    && (forall i :: 0 <= i < |events| ==> events[i].now > 0)
    && forall i, j :: 0 <= i < j < |events| ==> events[i].now <= events[j].now
  }

  predicate NoSetting(events: seq<GateEvent>, from: nat, to: nat)
    requires to <= |events|
  {
    forall k :: from <= k < to ==> events[k].CommitAt?
  }

  lemma {:induction false} EpochHolds(g: GateState, events: seq<GateEvent>, i: nat, n: nat)
    requires Rising(events) && i < n <= |events| && NoSetting(events, i, n)
    requires Reports(g, events, i) && GateAfter(g, events, i).nextEpoch > 0
    ensures var h := GateAfter(g, events, n);
            h.interval == GateAfter(g, events, i).interval && h.nextEpoch >= events[i].now + h.interval
    decreases n
  {
    if n == i + 1 {
      assert GateAfter(g, events, n) == GateStep(GateAfter(g, events, i), events[i]);
    } else {
      EpochHolds(g, events, i, n - 1);
    }
  }

  /** While an interval is in force, reports are at least that interval apart, whatever commits
      come in between. */
  lemma ReportsSpaced(g: GateState, events: seq<GateEvent>, i: nat, j: nat)
    requires Rising(events) && i < j < |events| && NoSetting(events, i, j)
    requires Reports(g, events, i) && Reports(g, events, j)
    requires GateAfter(g, events, i).nextEpoch > 0
    ensures events[j].now - events[i].now >= GateAfter(g, events, i).interval
  {
    EpochHolds(g, events, i, j);
  }

  lemma {:induction false} SettingHolds(g: GateState, events: seq<GateEvent>, k: nat, n: nat)
    requires Rising(events) && k < n <= |events| && events[k].SetInterval? && NoSetting(events, k + 1, n)
    ensures var h := GateAfter(g, events, n);
            if events[k].minInterval > RECEIVER_INTERVAL
            then h.interval == events[k].minInterval && h.nextEpoch > 0
            else h == GateState(0, 0)
    decreases n
  {
    if n == k + 1 {
      assert GateAfter(g, events, n) == GateStep(GateAfter(g, events, k), events[k]);
    } else {
      SettingHolds(g, events, k, n - 1);
    }
  }

  /** Under a setting, two reports are at least the interval set apart if the receiver cannot keep
      it, and otherwise every commit reports. */
  lemma SettingDecides(g: GateState, events: seq<GateEvent>, k: nat, i: nat, j: nat)
    requires Rising(events) && k < i < j < |events| && events[k].SetInterval? && NoSetting(events, k + 1, j + 1)
    ensures events[k].minInterval > 2000 && Reports(g, events, i) && Reports(g, events, j) ==>
              events[j].now - events[i].now >= events[k].minInterval
    ensures events[k].minInterval <= 2000 ==> Reports(g, events, j)
  {
    SettingHolds(g, events, k, i);
    SettingHolds(g, events, k, j);
    if events[k].minInterval > RECEIVER_INTERVAL && Reports(g, events, i) && Reports(g, events, j) {
      ReportsSpaced(g, events, i, j);
    }
  }

  /** Under a long setting the epoch is that of the setting, or follows the latest report. */
  lemma {:induction false} EpochIs(g: GateState, events: seq<GateEvent>, k: nat, n: nat) returns (last: nat)
    requires Rising(events) && k < n <= |events| && NoSetting(events, k + 1, n)
    requires events[k].SetInterval? && events[k].minInterval > 2000
    ensures k <= last < n && (last > k ==> Reports(g, events, last))
    ensures forall j :: last < j < n ==> !Reports(g, events, j)
    ensures GateAfter(g, events, n) ==
            GateState(events[last].now + if last > k then events[k].minInterval else 0, events[k].minInterval)
    decreases n
  {
    if n == k + 1 {
      last := k;
      assert GateAfter(g, events, n) == GateStep(GateAfter(g, events, k), events[k]);
    } else {
      last := EpochIs(g, events, k, n - 1);
      assert GateAfter(g, events, n) == GateStep(GateAfter(g, events, n - 1), events[n - 1]);
      if Reports(g, events, n - 1) {
        last := n - 1;
      }
    }
  }

  /** Under a long setting a commit reports exactly when every report since the setting is at least
      the interval ago: none comes too early, and none that is due is left out. */
  lemma ReportsExactly(g: GateState, events: seq<GateEvent>, k: nat, i: nat)
    requires Rising(events) && k < i < |events| && NoSetting(events, k + 1, i + 1)
    requires events[k].SetInterval? && events[k].minInterval > 2000
    ensures Reports(g, events, i) <==>
            forall j :: k < j < i && Reports(g, events, j) ==> events[i].now - events[j].now >= events[k].minInterval
  {
    var last := EpochIs(g, events, k, i);
    if Reports(g, events, i) {
      forall j | k < j < i && Reports(g, events, j)
        ensures events[i].now - events[j].now >= events[k].minInterval
      {
        SettingDecides(g, events, k, j, i);
      }
    }
  }

  class ReportGate {
    var timeInterval: nat
    var nextReportEpochMs: int

    ghost function View(): GateState
      reads this
    {
      GateState(nextReportEpochMs, timeInterval)
    }

    constructor ()
      ensures View() == GateState(0, 0)
    {
      timeInterval, nextReportEpochMs := 0, 0;
    }

    /** gps_state_set_interval with setEpochInterval; the rate sent to the receiver is not part of
        this model. */
    method SetMinInterval(minInterval: nat, now: int)
      modifies this
      ensures View() == GateStep(old(View()), SetInterval(minInterval, now))
    {
      var next, interval := 0, 0;
      if minInterval > RECEIVER_INTERVAL {
        interval := minInterval;
        next := now;
      }
      timeInterval, nextReportEpochMs := interval, next;
    }

    /** The callbacks of Commit: the position when due, started, with something to say, and
        published; the satellites when due and started, published or not. */
    method Commit(now: int, s: Session, hasFix: bool, satellites: nat) returns (position: bool, status: bool)
      modifies `nextReportEpochMs
      ensures View() == GateStep(old(View()), CommitAt(now))
      ensures status <==> GateOpen(old(View()), now) && s.gpsState == GPS_STARTED && satellites > 0
      ensures position <==> GateOpen(old(View()), now) && s.gpsState == GPS_STARTED && hasFix && s.publishCount > 0
    {
      var report := false;
      if nextReportEpochMs != 0 {
        if now >= nextReportEpochMs {
          report := true;
          nextReportEpochMs := now + timeInterval;
        }
      } else {
        report := true;
      }
      position, status := false, false;
      if s.gpsState == GPS_STARTED && report {
        position := hasFix && s.publishCount > 0;
        status := satellites > 0;
      }
    }
  }
}
