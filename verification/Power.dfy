/** The touch-boost protocol of the power HAL: a hint path and a background thread that share a
    mutex, a counting semaphore and one deadline (power/power_hikey.c).

    The first half is the protocol as a machine whose steps are the single statements of the two
    processes, interleaved in every possible way.  The second half is the class whose methods are
    the two critical sections, proved against the effect the machine gives them. */
module Power {
  import opened Prelude

  datatype Lock = Free | ByHint | ByThread

  /** What a caller of hikey_power_hint asks for.  `Other` is any hint that leaves the shared
      fields alone: VSYNC, or an interaction that interactive_boostpulse already served. */
  datatype HintKind = Interaction | LowPower(on: bool) | Other

  /** Where the hint that holds the lock stands. */
  datatype HintPc =
    | HIdle
    | HEntered(kind: HintKind)
    | HDecide(now: int)
    | HFreq(now: int)
    | HPost(now: int)
    | HStore(now: int)
    | HUnlock

  /** Where the deboost thread stands. */
  datatype ThreadPc =
    | TWait
    | TLock
    | TRead
    | TCompare(now: int)
    | TUnlockSleep(sleepFor: int)
    | TSleepStart(sleepFor: int)
    | TSleep(until: int)
    | TDrop
    | TDropFreq
    | TClear
    | TUnlock
  {
    predicate Inside() {
      TRead? || TCompare? || TUnlockSleep? || TDrop? || TDropFreq? || TClear? || TUnlock?
    }
  }

  /** The fields that both processes touch.  `boosted` is the last value written to
      schedtune.boost, `freqBoosted` the last minimum frequency written to devfreq. */
  datatype Shared = Shared(deboostTime: int, sem: nat, boosted: bool, freqBoosted: bool, lowPower: bool)

  datatype State = State(
    clock: int,
    boostNs: int,
    sh: Shared,
    lock: Lock,
    hint: HintPc,
    thread: ThreadPc,
    lastHint: Option<int>)  // the time read by the latest hint that stored a deadline

  datatype Action =
    | Tick(ns: nat)
    | Acquire(kind: HintKind)
    | HintStep
    | ThreadStep
    | Interrupt  // a signal ends nanosleep early
    | Wake       // a signal ends sem_wait, whose result is not looked at: no token is taken

  function Init(start: int, boostNs: int, lowPower: bool): State {
    State(start, boostNs, Shared(0, 1, false, false, lowPower), Free, HIdle, TWait, None)
  }

  /** One statement of the process that holds the lock on behalf of a hint. */
  function HintNext(s: State): Option<State> {
    match s.hint
    case HIdle => None
    case HEntered(Interaction) => Some(s.(hint := HDecide(s.clock)))
    case HEntered(LowPower(on)) => Some(s.(hint := HUnlock, sh := s.sh.(lowPower := on)))
    case HEntered(Other) => Some(s.(hint := HUnlock))
    case HDecide(now) =>
      if s.sh.deboostTime == 0 then Some(s.(hint := HFreq(now), sh := s.sh.(boosted := true)))
      else Some(s.(hint := HStore(now)))
    case HFreq(now) => Some(s.(hint := HPost(now), sh := s.sh.(freqBoosted := !s.sh.lowPower)))
    case HPost(now) => Some(s.(hint := HStore(now), sh := s.sh.(sem := s.sh.sem + 1)))
    case HStore(now) =>
      Some(s.(hint := HUnlock, sh := s.sh.(deboostTime := now + s.boostNs), lastHint := Some(now)))
    case HUnlock => Some(s.(hint := HIdle, lock := Free))
  }

  /** One statement of the deboost thread; None when it blocks. */
  function ThreadNext(s: State): Option<State> {
    match s.thread
    case TWait => if s.sh.sem == 0 then None else Some(s.(thread := TLock, sh := s.sh.(sem := s.sh.sem - 1)))
    case TLock => if s.lock.Free? then Some(s.(thread := TRead, lock := ByThread)) else None
    case TRead => Some(s.(thread := TCompare(s.clock)))
    case TCompare(now) =>
      if s.sh.deboostTime > now then Some(s.(thread := TUnlockSleep(s.sh.deboostTime - now)))
      else Some(s.(thread := TDrop))
    case TUnlockSleep(d) => Some(s.(thread := TSleepStart(d), lock := Free))
    case TSleepStart(d) => Some(s.(thread := TSleep(s.clock + d)))
    case TSleep(until) => if s.clock < until then None else Some(s.(thread := TLock))
    case TDrop => Some(s.(thread := TDropFreq, sh := s.sh.(boosted := false)))
    case TDropFreq => Some(s.(thread := TClear, sh := s.sh.(freqBoosted := false)))
    case TClear => Some(s.(thread := TUnlock, sh := s.sh.(deboostTime := 0)))
    case TUnlock => Some(s.(thread := TWait, lock := Free))
  }

  /** One step of the whole system; None when the step is not possible in s. */
  function Step(s: State, a: Action): Option<State> {
    match a
    case Tick(ns) => Some(s.(clock := s.clock + ns))
    case Acquire(kind) =>
      if s.lock.Free? then Some(s.(lock := ByHint, hint := HEntered(kind))) else None
    case HintStep => HintNext(s)
    case ThreadStep => ThreadNext(s)
    case Interrupt => if s.thread.TSleep? then Some(s.(thread := TLock)) else None
    case Wake => if s.thread.TWait? then Some(s.(thread := TLock)) else None
  }

  function Run(s: State, acts: seq<Action>): Option<State>
    decreases |acts|
  {
    if acts == [] then Some(s)
    else match Step(s, acts[0])
         case None => None
         case Some(t) => Run(t, acts[1..])
  }

  lemma {:induction false} RunAppend(s: State, a: seq<Action>, b: seq<Action>)
    requires Run(s, a).Some?
    ensures Run(s, a + b) == Run(Run(s, a).value, b)
    decreases |a|
  {
    if a == [] {
      assert a + b == b;
    } else {
      assert (a + b)[1..] == a[1..] + b;
      RunAppend(Step(s, a[0]).value, a[1..], b);
    }
  }

  /** How often a signal ended sem_wait. */
  function Wakes(acts: seq<Action>): nat {
    if acts == [] then 0 else (if acts[0].Wake? then 1 else 0) + Wakes(acts[1..])
  }

  lemma {:induction false} WakesAppend(a: seq<Action>, b: seq<Action>)
    ensures Wakes(a + b) == Wakes(a) + Wakes(b)
    decreases |a|
  {
    if a == [] {
      assert a + b == b;
    } else {
      assert (a + b)[1..] == a[1..] + b;
      WakesAppend(a[1..], b);
    }
  }

  // ------------------------------------------------------------------ safety

  /** The tokens that will still bring the thread to a check of the deadline. */
  function Tokens(s: State): nat {
    s.sh.sem + if s.thread.TWait? then 0 else 1
  }

  /** No wakeup is lost and tokens do not pile up beyond `extra`. */
  predicate TokensRight(s: State, extra: nat) {
    && Tokens(s) <= 2 + extra
    && (s.lock.Free? ==>
          && (s.sh.deboostTime != 0 ==> Tokens(s) >= 1)
          && (s.sh.deboostTime == 0 ==> Tokens(s) <= 1 + extra))
  }

  predicate LockRight(s: State) {
    && (s.lock.ByHint? <==> !s.hint.HIdle?)
    && (s.lock.ByThread? <==> s.thread.Inside())
  }

  /** The deadline is the latest hint's, and once it is gone its time has passed. */
  predicate DeadlineRight(s: State) {
    && (s.sh.deboostTime != 0 ==> s.lastHint.Some? && s.sh.deboostTime == s.lastHint.value + s.boostNs)
    && (s.lastHint.Some? && s.sh.deboostTime == 0 ==> s.lastHint.value + s.boostNs <= s.clock)
  }

  predicate HintRight(s: State, start: int) {
    match s.hint
    case HDecide(now) => start <= now <= s.clock
    case HFreq(now) => start <= now <= s.clock && s.sh.deboostTime == 0 && s.sh.boosted
    case HPost(now) => start <= now <= s.clock && s.sh.deboostTime == 0 && s.sh.boosted
    case HStore(now) => start <= now <= s.clock && s.sh.boosted && Tokens(s) >= 1
    case _ => true
  }

  predicate ThreadRight(s: State) {
    match s.thread
    case TCompare(now) => now <= s.clock
    case TUnlockSleep(d) => s.sh.deboostTime <= s.clock + d
    case TDrop => s.sh.deboostTime <= s.clock
    case TDropFreq => s.sh.deboostTime <= s.clock && !s.sh.boosted
    case TClear => s.sh.deboostTime <= s.clock && !s.sh.boosted && !s.sh.freqBoosted
    case TUnlock => s.sh.deboostTime == 0 && !s.sh.boosted && !s.sh.freqBoosted
    case _ => true
  }

  /** Between the writes of one critical section the fields may disagree; elsewhere the boost
      is on exactly while a deadline is set. */
  predicate BoostRight(s: State) {
    && (!(s.hint.HFreq? || s.hint.HPost? || s.hint.HStore?) && !(s.thread.TDropFreq? || s.thread.TClear?)
        ==> (s.sh.boosted <==> s.sh.deboostTime != 0))
    && (!s.thread.TDropFreq? && s.sh.freqBoosted ==> s.sh.boosted)
  }

  predicate CountRight(s: State, wakes: nat) {
    && (s.sh.deboostTime != 0 ==> 1 <= Tokens(s))
    && (s.sh.deboostTime == 0 && !s.hint.HStore? && !s.thread.TUnlock? ==> Tokens(s) <= 1 + wakes)
    && Tokens(s) <= 2 + wakes
  }

  /** What holds of a state reached from the time `start` with `wakes` interrupted waits. */
  predicate Inv(s: State, start: int, wakes: nat) {
    && start <= s.clock
    && 0 < start + s.boostNs
    && LockRight(s) && DeadlineRight(s) && HintRight(s, start) && ThreadRight(s)
    && BoostRight(s) && CountRight(s, wakes)
  }

  lemma HintKeepsInv(s: State, start: int, wakes: nat)
    requires Inv(s, start, wakes) && HintNext(s).Some?
    ensures Inv(HintNext(s).value, start, wakes)
  {
    assert s.lock.ByHint? && !s.thread.Inside();
  }

  lemma ThreadKeepsInv(s: State, start: int, wakes: nat)
    requires Inv(s, start, wakes) && ThreadNext(s).Some?
    ensures Inv(ThreadNext(s).value, start, wakes)
  {
    if s.thread.Inside() || ThreadNext(s).value.thread.Inside() {
      assert s.hint.HIdle?;
    }
  }

  lemma StepKeepsInv(s: State, a: Action, start: int, wakes: nat)
    requires Inv(s, start, wakes) && Step(s, a).Some?
    ensures Inv(Step(s, a).value, start, wakes + if a.Wake? then 1 else 0)
  {
    match a
    case HintStep => HintKeepsInv(s, start, wakes);
    case ThreadStep => ThreadKeepsInv(s, start, wakes);
    case _ =>
  }

  lemma {:induction false} RunKeepsInv(s: State, acts: seq<Action>, start: int, wakes: nat)
    requires Inv(s, start, wakes) && Run(s, acts).Some?
    ensures Inv(Run(s, acts).value, start, wakes + Wakes(acts))
    decreases |acts|
  {
    if acts == [] {
    } else {
      StepKeepsInv(s, acts[0], start, wakes);
      RunKeepsInv(Step(s, acts[0]).value, acts[1..], start, wakes + if acts[0].Wake? then 1 else 0);
    }
  }

  /** Every interleaving keeps the token bounds, with one token more for each interrupted wait,
      and, whenever nobody is inside a critical section, the boost is on exactly while a deadline
      is set. */
  lemma NoLostWakeup(start: int, boostNs: int, lowPower: bool, acts: seq<Action>)
    requires 0 < start + boostNs
    requires Run(Init(start, boostNs, lowPower), acts).Some?
    ensures var s := Run(Init(start, boostNs, lowPower), acts).value;
            && TokensRight(s, Wakes(acts))
            && (s.lock.Free? ==> (s.sh.boosted <==> s.sh.deboostTime != 0))
            && (s.lock.Free? && s.sh.freqBoosted ==> s.sh.boosted)
  {
    RunKeepsInv(Init(start, boostNs, lowPower), acts, start, 0);
  }

  // ------------------------------------------------------------ low power mode

  predicate NoModeHint(acts: seq<Action>) {
    forall i :: 0 <= i < |acts| ==> !(acts[i].Acquire? && acts[i].kind.LowPower?)
  }

  /** As long as no hint changes the mode: the frequencies stay down in low power mode, and
      otherwise follow the boost. */
  predicate ModeRight(s: State, lowPower: bool) {
    && s.sh.lowPower == lowPower
    && !(s.hint.HEntered? && s.hint.kind.LowPower?)
    && (lowPower ==> !s.sh.freqBoosted)
    && (!lowPower && !s.hint.HFreq? && !s.thread.TDropFreq? ==> (s.sh.freqBoosted <==> s.sh.boosted))
  }

  lemma ModeStep(s: State, a: Action, start: int, wakes: nat, lowPower: bool)
    requires Inv(s, start, wakes) && ModeRight(s, lowPower) && NoModeHint([a]) && Step(s, a).Some?
    ensures ModeRight(Step(s, a).value, lowPower)
  {
    assert [a][0] == a;
  }

  lemma {:induction false} ModeRun(s: State, acts: seq<Action>, start: int, wakes: nat, lowPower: bool)
    requires Inv(s, start, wakes) && ModeRight(s, lowPower) && NoModeHint(acts) && Run(s, acts).Some?
    ensures ModeRight(Run(s, acts).value, lowPower)
    decreases |acts|
  {
    if acts == [] {
    } else {
      StepKeepsInv(s, acts[0], start, wakes);
      ModeStep(s, acts[0], start, wakes, lowPower);
      ModeRun(Step(s, acts[0]).value, acts[1..], start, wakes + if acts[0].Wake? then 1 else 0, lowPower);
    }
  }

  /** In low power mode no run raises the frequencies; in normal mode they are up exactly while the
      boost is on, whenever nobody is inside a critical section. */
  lemma FrequencyFollowsMode(start: int, boostNs: int, lowPower: bool, acts: seq<Action>)
    requires 0 < start + boostNs && NoModeHint(acts)
    requires Run(Init(start, boostNs, lowPower), acts).Some?
    ensures var s := Run(Init(start, boostNs, lowPower), acts).value;
            && (lowPower ==> !s.sh.freqBoosted)
            && (!lowPower && s.lock.Free? ==> (s.sh.freqBoosted <==> s.sh.boosted))
  {
    ModeRun(Init(start, boostNs, lowPower), acts, start, 0, lowPower);
    RunKeepsInv(Init(start, boostNs, lowPower), acts, start, 0);
  }

  /** The boost is on at every instant less than boostNs after the latest hint. */
  lemma BoostCoversTheWindow(start: int, boostNs: int, lowPower: bool, acts: seq<Action>)
    requires 0 < start + boostNs
    requires Run(Init(start, boostNs, lowPower), acts).Some?
    ensures var s := Run(Init(start, boostNs, lowPower), acts).value;
            s.lastHint.Some? && s.clock < s.lastHint.value + s.boostNs ==> s.sh.boosted
  {
    RunKeepsInv(Init(start, boostNs, lowPower), acts, start, 0);
  }

  const ONE_HINT: seq<Action> :=
    [Acquire(Interaction), HintStep, HintStep, HintStep, HintStep, HintStep, HintStep]

  /** Nobody inside, no deadline, the thread waiting: where tokens can gather. */
  predicate Resting(s: State) {
    s.lock.Free? && s.hint.HIdle? && s.thread.TWait? && s.sh.deboostTime == 0
  }

  function ManyHints(n: nat): seq<Action> {
    if n == 0 then [] else ManyHints(n - 1) + ONE_HINT
  }

  /** A deadline computed as exactly 0 looks like "no deadline": the token is posted, nothing
      remembers it, and the next hint posts again. */
  lemma {:induction false} ZeroDeadlinePilesUpTokens(s: State, n: nat)
    requires Resting(s) && s.clock + s.boostNs == 0
    ensures Wakes(ManyHints(n)) == 0
    ensures var r := Run(s, ManyHints(n));
            && r.Some? && Resting(r.value) && Tokens(r.value) == Tokens(s) + n
            && r.value.clock == s.clock && r.value.boostNs == s.boostNs
    decreases n
  {
    if n == 0 {
    } else {
      ZeroDeadlinePilesUpTokens(s, n - 1);
      RunAppend(s, ManyHints(n - 1), ONE_HINT);
      OneHintAlone(Run(s, ManyHints(n - 1)).value);
      WakesAppend(ManyHints(n - 1), ONE_HINT);
      NoWakeInHint();
    }
  }

  lemma NoWakeInHint()
    ensures Wakes(ONE_HINT) == 0
  {
    assert ONE_HINT[1..] == seq(6, i => HintStep);
    NoWakeInRepeat(HintStep, 6);
  }

  lemma {:induction false} NoWakeInRepeat(a: Action, n: nat)
    requires !a.Wake?
    ensures Wakes(seq(n, i => a)) == 0
    decreases n
  {
    if n == 0 {
    } else {
      assert seq(n, i => a)[1..] == seq(n - 1, i => a);
      NoWakeInRepeat(a, n - 1);
    }
  }

  /** A hint, a signal that ends the wait, and the pass that drops the boost when its time is
      over: the token of the hint is left behind. */
  function LeaveToken(pause: nat): seq<Action> {
    ONE_HINT + ([Wake, Tick(pause)] + seq(7, i => ThreadStep))
  }

  function LeaveTokens(n: nat, pause: nat): seq<Action> {
    if n == 0 then [] else LeaveTokens(n - 1, pause) + LeaveToken(pause)
  }

  lemma TokenLeftBehind(s: State, pause: nat)
    requires Resting(s) && s.boostNs <= pause && s.clock + s.boostNs != 0
    ensures Wakes(LeaveToken(pause)) == 1
    ensures var r := Run(s, LeaveToken(pause));
            && r.Some? && Resting(r.value) && Tokens(r.value) == Tokens(s) + 1
            && r.value.clock == s.clock + pause && r.value.boostNs == s.boostNs
  {
    var pass := seq(7, i => ThreadStep);
    var rest := [Wake, Tick(pause)] + pass;
    OneHintAlone(s);
    RunAppend(s, ONE_HINT, rest);
    var s1 := Run(s, ONE_HINT).value;
    var s2 := Step(s1, Wake).value;
    var s3 := Step(s2, Tick(pause)).value;
    assert rest[1..] == [Tick(pause)] + pass && rest[1..][1..] == pass;
    assert Run(s1, rest) == Run(s2, rest[1..]) == Run(s3, pass);
    OnePassAlone(s3);
    NoWakeInHint();
    NoWakeInRepeat(ThreadStep, 7);
    WakesAppend(ONE_HINT, rest);
  }

  /** Every interrupted wait can leave a token behind for good. */
  lemma {:induction false} WakesPileUpTokens(s: State, n: nat, pause: nat)
    requires Resting(s) && s.boostNs <= pause && 0 < s.clock + s.boostNs
    ensures Wakes(LeaveTokens(n, pause)) == n
    ensures var r := Run(s, LeaveTokens(n, pause));
            && r.Some? && Resting(r.value) && Tokens(r.value) == Tokens(s) + n
            && s.clock <= r.value.clock && r.value.boostNs == s.boostNs
    decreases n
  {
    if n == 0 {
    } else {
      WakesPileUpTokens(s, n - 1, pause);
      RunAppend(s, LeaveTokens(n - 1, pause), LeaveToken(pause));
      TokenLeftBehind(Run(s, LeaveTokens(n - 1, pause)).value, pause);
      WakesAppend(LeaveTokens(n - 1, pause), LeaveToken(pause));
    }
  }

  /** Some run from the start leaves more than `extra` tokens too many. */
  lemma TooManyTokens(start: int, boostNs: int, lowPower: bool, wakes: nat, extra: nat)
    returns (acts: seq<Action>)
    requires start + boostNs <= 0 || extra < wakes
    ensures Wakes(acts) <= wakes
    ensures var r := Run(Init(start, boostNs, lowPower), acts);
            r.Some? && !TokensRight(r.value, extra)
  {
    var s := Init(start, boostNs, lowPower);
    if start + boostNs <= 0 {
      var pause := -boostNs - start;
      acts := [Tick(pause)] + ManyHints(extra + 1);
      ZeroDeadlinePilesUpTokens(Step(s, Tick(pause)).value, extra + 1);
      assert acts[1..] == ManyHints(extra + 1);
    } else {
      var pause: nat := if 0 < boostNs then boostNs else 0;
      acts := LeaveTokens(extra + 1, pause);
      WakesPileUpTokens(s, extra + 1, pause);
    }
  }

  /** The bounds hold with `extra` tokens to spare, over all runs with at most `wakes` interrupted
      waits, exactly when no reachable clock value plus the configured boost time is 0 and there
      are not more such waits than tokens to spare.  With neither, these are the bare bounds. */
  lemma TokenBoundsExactly(start: int, boostNs: int, lowPower: bool, wakes: nat, extra: nat)
    ensures 0 < start + boostNs && wakes <= extra <==>
            forall acts :: Wakes(acts) <= wakes && Run(Init(start, boostNs, lowPower), acts).Some? ==>
              TokensRight(Run(Init(start, boostNs, lowPower), acts).value, extra)
  {
    if 0 < start + boostNs && wakes <= extra {
      forall acts | Wakes(acts) <= wakes && Run(Init(start, boostNs, lowPower), acts).Some?
        ensures TokensRight(Run(Init(start, boostNs, lowPower), acts).value, extra)
      {
        NoLostWakeup(start, boostNs, lowPower, acts);
      }
    } else {
      var acts := TooManyTokens(start, boostNs, lowPower, wakes, extra);
    }
  }

  // ---------------------------------------------------------------- progress

  /** No hint: time passes, the thread runs, signals may cut its sleep or its wait short. */
  predicate Quiet(acts: seq<Action>) {
    forall i :: 0 <= i < |acts| ==> !acts[i].Acquire? && !acts[i].HintStep?
  }

  function Interrupts(acts: seq<Action>): nat {
    if acts == [] then 0 else (if acts[0].Interrupt? then 1 else 0) + Interrupts(acts[1..])
  }

  function ThreadSteps(acts: seq<Action>): nat {
    if acts == [] then 0 else (if acts[0].ThreadStep? then 1 else 0) + ThreadSteps(acts[1..])
  }

  const LONGEST := 14

  /** What a signal can cost: a sleep cut short means one more pass. */
  const SIGNAL_COST := 5

  /** The thread steps still needed to drop the boost once no hint interferes.  A sleep that
      began before the deadline was last extended costs one more pass. */
  function Rank(s: State): nat {
    if s.sh.deboostTime == 0 then 0 else
    match s.thread
    case TWait => 13
    case TLock => if s.sh.deboostTime <= s.clock then 6 else 12
    case TRead => if s.sh.deboostTime <= s.clock then 5 else 11
    case TCompare(now) => if s.sh.deboostTime <= now then 4 else 10
    case TUnlockSleep(_) => 9
    case TSleepStart(d) => if s.sh.deboostTime <= s.clock + d then 8 else LONGEST
    case TSleep(until) => if s.sh.deboostTime <= until then 7 else 13
    case TDrop => 3
    case TDropFreq => 2
    case TClear => 1
    case TUnlock => 0
  }

  lemma QuietStepRanks(s: State, a: Action, start: int, wakes: nat)
    requires Inv(s, start, wakes) && s.hint.HIdle?
    requires Quiet([a]) && Step(s, a).Some?
    ensures var t := Step(s, a).value;
            && t.hint.HIdle?
            && (s.sh.deboostTime == 0 ==> t.sh.deboostTime == 0)
            && Rank(t) <= Rank(s) + (if a.Interrupt? then SIGNAL_COST else 0)
            && (a.ThreadStep? && s.sh.deboostTime != 0 ==> Rank(t) < Rank(s))
  {
    assert [a][0] == a;
  }

  lemma {:induction false} QuietRunRanks(s: State, acts: seq<Action>, start: int, wakes: nat)
    requires Inv(s, start, wakes) && s.hint.HIdle?
    requires Quiet(acts) && Run(s, acts).Some?
    ensures var t := Run(s, acts).value;
            && Inv(t, start, wakes + Wakes(acts)) && t.hint.HIdle?
            && (t.sh.deboostTime != 0 ==> Rank(t) + ThreadSteps(acts) <= Rank(s) + SIGNAL_COST * Interrupts(acts))
            && (s.sh.deboostTime == 0 ==> t.sh.deboostTime == 0)
    decreases |acts|
  {
    if acts == [] {
    } else {
      StepKeepsInv(s, acts[0], start, wakes);
      QuietStepRanks(s, acts[0], start, wakes);
      QuietRunRanks(Step(s, acts[0]).value, acts[1..], start, wakes + if acts[0].Wake? then 1 else 0);
    }
  }

  /** Without further hints, at most fourteen statements of the thread end the boost, and five more
      for each signal, from any reachable state and at any pace of the clock. */
  lemma BoostEnds(start: int, boostNs: int, lowPower: bool, before: seq<Action>, after: seq<Action>)
    requires 0 < start + boostNs
    requires Run(Init(start, boostNs, lowPower), before).Some?
    requires var s := Run(Init(start, boostNs, lowPower), before).value;
             s.hint.HIdle? && Run(s, after).Some?
    requires Quiet(after) && 14 + 5 * Interrupts(after) <= ThreadSteps(after)
    ensures var t := Run(Run(Init(start, boostNs, lowPower), before).value, after).value;
            t.sh.deboostTime == 0 && !t.sh.boosted && (t.lock.Free? ==> !t.sh.freqBoosted)
  {
    RunKeepsInv(Init(start, boostNs, lowPower), before, start, 0);
    var s := Run(Init(start, boostNs, lowPower), before).value;
    QuietRunRanks(s, after, start, Wakes(before));
  }

  /** The thread is never stuck while a deadline is set: waiting long enough enables it. */
  lemma ThreadNeverStuck(s: State, start: int, wakes: nat) returns (wait: nat)
    requires Inv(s, start, wakes) && s.hint.HIdle? && s.sh.deboostTime != 0
    ensures Step(s.(clock := s.clock + wait), ThreadStep).Some?
  {
    wait := if s.thread.TSleep? && s.clock < s.thread.until then s.thread.until - s.clock else 0;
  }

  /** So a quiet run that ends the boost exists from every reachable state. */
  lemma {:induction false} BoostCanEnd(s: State, start: int, wakes: nat) returns (acts: seq<Action>)
    requires Inv(s, start, wakes) && s.hint.HIdle?
    ensures Quiet(acts) && ThreadSteps(acts) <= Rank(s) && Run(s, acts).Some?
    ensures Run(s, acts).value.sh.deboostTime == 0
    decreases Rank(s)
  {
    if s.sh.deboostTime == 0 {
      acts := [];
    } else {
      var wait := ThreadNeverStuck(s, start, wakes);
      var s1 := Step(s, Tick(wait)).value;
      StepKeepsInv(s, Tick(wait), start, wakes);
      QuietStepRanks(s, Tick(wait), start, wakes);
      var s2 := Step(s1, ThreadStep).value;
      StepKeepsInv(s1, ThreadStep, start, wakes);
      QuietStepRanks(s1, ThreadStep, start, wakes);
      var rest := BoostCanEnd(s2, start, wakes);
      acts := [Tick(wait), ThreadStep] + rest;
      assert acts[1..] == [ThreadStep] + rest && acts[1..][1..] == rest;
      assert Run(s, acts) == Run(s1, acts[1..]) == Run(s2, rest);
    }
  }

  // ------------------------------------------- the two critical sections as methods

  /** What one whole interaction hint does to the shared fields when it runs at time now. */
  function HintEffect(sh: Shared, now: int, boostNs: int): Shared {
    if sh.deboostTime != 0 then sh.(deboostTime := now + boostNs)
    else Shared(now + boostNs, sh.sem + 1, true, !sh.lowPower, sh.lowPower)
  }

  /** What one pass of the inner loop does when it finds the time now. */
  function PassEffect(sh: Shared, now: int): Shared {
    if sh.deboostTime > now then sh else sh.(deboostTime := 0, boosted := false, freqBoosted := false)
  }

  /** n statements of one process in a row. */
  function Repeat(s: State, a: Action, n: nat): Option<State>
    decreases n
  {
    if n == 0 then Some(s)
    else match Step(s, a)
         case None => None
         case Some(t) => Repeat(t, a, n - 1)
  }

  lemma {:induction false} RunRepeats(s: State, a: Action, n: nat)
    ensures Run(s, seq(n, i => a)) == Repeat(s, a, n)
    decreases n
  {
    if n == 0 {
    } else {
      assert seq(n, i => a)[1..] == seq(n - 1, i => a);
      if Step(s, a).Some? {
        RunRepeats(Step(s, a).value, a, n - 1);
      }
    }
  }

  lemma RepeatFrom(s: State, a: Action, t: State, n: nat)
    requires n > 0 && Step(s, a) == Some(t)
    ensures Repeat(s, a, n) == Repeat(t, a, n - 1)
  {
  }

  lemma FourHintSteps(s: State) returns (t: State)
    requires s.hint == HEntered(Interaction)
    ensures s.sh.deboostTime != 0 ==>
              t == s.(lock := Free, hint := HIdle, sh := HintEffect(s.sh, s.clock, s.boostNs),
                      lastHint := Some(s.clock))
    ensures s.sh.deboostTime == 0 ==>
              t == s.(hint := HStore(s.clock), sh := HintEffect(s.sh, s.clock, s.boostNs).(deboostTime := 0))
    ensures forall n: nat :: n >= 4 ==> Repeat(s, HintStep, n) == Repeat(t, HintStep, n - 4)
  {
    var t1 := HintNext(s).value;
    var t2 := HintNext(t1).value;
    var t3 := HintNext(t2).value;
    t := HintNext(t3).value;
    forall n: nat | n >= 4 ensures Repeat(s, HintStep, n) == Repeat(t, HintStep, n - 4) {
      RepeatFrom(s, HintStep, t1, n);
      RepeatFrom(t1, HintStep, t2, n - 1);
      RepeatFrom(t2, HintStep, t3, n - 2);
      RepeatFrom(t3, HintStep, t, n - 3);
    }
  }

  /** The machine's statements, run without interference, add up to HintEffect. */
  lemma OneHintAlone(s: State)
    requires s.lock.Free? && s.hint.HIdle?
    ensures var acts := if s.sh.deboostTime == 0 then ONE_HINT else ONE_HINT[..5];
            Run(s, acts) ==
            Some(s.(sh := HintEffect(s.sh, s.clock, s.boostNs), lastHint := Some(s.clock)))
  {
    var n := if s.sh.deboostTime == 0 then 6 else 4;
    var acts := if s.sh.deboostTime == 0 then ONE_HINT else ONE_HINT[..5];
    var s0 := s.(lock := ByHint, hint := HEntered(Interaction));
    assert acts[1..] == seq(n, i => HintStep);
    RunRepeats(s0, HintStep, n);
    var t := FourHintSteps(s0);
    if n == 6 {
      var t5 := HintNext(t).value;
      var t6 := HintNext(t5).value;
      RepeatFrom(t, HintStep, t5, 2);
      RepeatFrom(t5, HintStep, t6, 1);
    }
    assert Run(s, acts) == Run(s0, acts[1..]);
  }

  /** And those of a hint that changes the mode, or does nothing. */
  lemma OtherHintsAlone(s: State, on: bool)
    requires s.lock.Free? && s.hint.HIdle?
    ensures Run(s, [Acquire(LowPower(on))] + seq(2, i => HintStep)) == Some(s.(sh := s.sh.(lowPower := on)))
    ensures Run(s, [Acquire(Other)] + seq(2, i => HintStep)) == Some(s)
  {
    TwoHintSteps(s, LowPower(on), s.sh.(lowPower := on));
    TwoHintSteps(s, Other, s.sh);
  }

  lemma TwoHintSteps(s: State, kind: HintKind, sh: Shared)
    requires s.lock.Free? && s.hint.HIdle?
    requires HintNext(s.(lock := ByHint, hint := HEntered(kind))) == Some(s.(lock := ByHint, hint := HUnlock, sh := sh))
    ensures Run(s, [Acquire(kind)] + seq(2, i => HintStep)) == Some(s.(sh := sh))
  {
    var acts := [Acquire(kind)] + seq(2, i => HintStep);
    var s0 := s.(lock := ByHint, hint := HEntered(kind));
    var s1 := HintNext(s0).value;
    assert acts[1..] == seq(2, i => HintStep);
    RunRepeats(s0, HintStep, 2);
    RepeatFrom(s0, HintStep, s1, 2);
    RepeatFrom(s1, HintStep, s.(sh := sh), 1);
    assert Run(s, acts) == Run(s0, acts[1..]);
  }

  lemma FourThreadSteps(s: State) returns (t: State)
    requires s.lock.Free? && s.thread.TLock?
    ensures s.sh.deboostTime > s.clock ==> t == s.(thread := TSleepStart(s.sh.deboostTime - s.clock))
    ensures s.sh.deboostTime <= s.clock ==>
              t == s.(lock := ByThread, thread := TDropFreq, sh := s.sh.(boosted := false))
    ensures forall n: nat :: n >= 4 ==> Repeat(s, ThreadStep, n) == Repeat(t, ThreadStep, n - 4)
  {
    var t1 := ThreadNext(s).value;
    var t2 := ThreadNext(t1).value;
    var t3 := ThreadNext(t2).value;
    t := ThreadNext(t3).value;
    forall n: nat | n >= 4 ensures Repeat(s, ThreadStep, n) == Repeat(t, ThreadStep, n - 4) {
      RepeatFrom(s, ThreadStep, t1, n);
      RepeatFrom(t1, ThreadStep, t2, n - 1);
      RepeatFrom(t2, ThreadStep, t3, n - 2);
      RepeatFrom(t3, ThreadStep, t, n - 3);
    }
  }

  lemma PassSleeps(s: State)
    requires s.lock.Free? && s.thread.TLock? && s.sh.deboostTime > s.clock
    ensures Repeat(s, ThreadStep, 5) == Some(s.(thread := TSleep(s.sh.deboostTime)))
  {
    var t := FourThreadSteps(s);
    RepeatFrom(t, ThreadStep, s.(thread := TSleep(s.sh.deboostTime)), 1);
  }

  lemma PassDrops(s: State)
    requires s.lock.Free? && s.thread.TLock? && s.sh.deboostTime <= s.clock
    ensures Repeat(s, ThreadStep, 7) == Some(s.(sh := PassEffect(s.sh, s.clock), thread := TWait))
  {
    var t := FourThreadSteps(s);
    var t5 := ThreadNext(t).value;
    var t6 := ThreadNext(t5).value;
    var t7 := ThreadNext(t6).value;
    RepeatFrom(t, ThreadStep, t5, 3);
    RepeatFrom(t5, ThreadStep, t6, 2);
    RepeatFrom(t6, ThreadStep, t7, 1);
  }

  /** The same for one pass of the thread, from the lock to either way out. */
  lemma OnePassAlone(s: State)
    requires s.lock.Free? && s.thread.TLock?
    ensures var n := if s.sh.deboostTime > s.clock then 5 else 7;
            Run(s, seq(n, i => ThreadStep)) ==
            Some(s.(sh := PassEffect(s.sh, s.clock),
                    thread := if s.sh.deboostTime > s.clock then TSleep(s.sh.deboostTime) else TWait))
  {
    if s.sh.deboostTime > s.clock {
      RunRepeats(s, ThreadStep, 5);
      PassSleeps(s);
    } else {
      RunRepeats(s, ThreadStep, 7);
      PassDrops(s);
    }
  }

  /** struct hikey_power_module, with the file contents its writes leave behind. */
  class HikeyPowerModule {
    const boostNs: int
    var schedtuneBoostFd: int
    var deboostTime: int
    var signalLock: nat
    var boosted: bool
    var freqBoosted: bool
    var lowPowerMode: bool

    function Fields(): Shared
      reads this
    {
      Shared(deboostTime, signalLock, boosted, freqBoosted, lowPowerMode)
    }

    /** schedtune_power_init: one token is there from the start. */
    constructor (fd: int, boostNs: int, lowPower: bool)
      ensures schedtuneBoostFd == fd && this.boostNs == boostNs
      ensures forall start :: Fields() == Init(start, boostNs, lowPower).sh
    {
      this.boostNs := boostNs;
      schedtuneBoostFd := fd;
      deboostTime := 0;
      signalLock := 1;
      boosted, freqBoosted, lowPowerMode := false, false, lowPower;
    }

    /** hikey_devfreq_set_interactive. */
    method DevfreqSetInteractive(on: bool)
      modifies `freqBoosted
      ensures freqBoosted == (on && !lowPowerMode)
    {
      if !on || lowPowerMode {
        freqBoosted := false;
      } else {
        freqBoosted := true;
      }
    }

    /** schedtune_boost, called with the lock held. */
    method SchedtuneBoost(now: int) returns (rc: int)
      modifies this
      ensures schedtuneBoostFd == old(schedtuneBoostFd)
      ensures schedtuneBoostFd < 0 ==> rc == schedtuneBoostFd && Fields() == old(Fields())
      ensures schedtuneBoostFd >= 0 ==> rc == 0 && Fields() == HintEffect(old(Fields()), now, boostNs)
    {
      if schedtuneBoostFd < 0 {
        return schedtuneBoostFd;
      }
      if deboostTime == 0 {
        boosted := true;
        DevfreqSetInteractive(true);
        signalLock := signalLock + 1;
      }
      deboostTime := now + boostNs;
      rc := 0;
    }

    /** hikey_power_hint; boostpulse is what interactive_boostpulse returned. */
    method PowerHint(kind: HintKind, boostpulse: int, now: int)
      modifies this
      ensures schedtuneBoostFd == old(schedtuneBoostFd)
      ensures Fields() ==
              match kind
              case Interaction =>
                if boostpulse == 0 || schedtuneBoostFd < 0 then old(Fields())
                else HintEffect(old(Fields()), now, boostNs)
              case LowPower(on) => old(Fields()).(lowPower := on)
              case Other => old(Fields())
    {
      match kind
      case Interaction =>
        if boostpulse != 0 {
          var rc := SchedtuneBoost(now);
        }
      case LowPower(on) => lowPowerMode := on;
      case Other =>
    }

    /** One pass of the inner loop of schedtune_deboost_thread, from lock to unlock.  A positive
        sleep means "sleep, then come back"; 0 means the boost was dropped. */
    method DeboostPass(now: int) returns (sleeptime: int)
      modifies this
      ensures schedtuneBoostFd == old(schedtuneBoostFd)
      ensures Fields() == PassEffect(old(Fields()), now)
      ensures sleeptime == if old(deboostTime) > now then old(deboostTime) - now else 0
    {
      sleeptime := 0;
      if deboostTime > now {
        sleeptime := deboostTime - now;
        return;
      }
      boosted := false;
      DevfreqSetInteractive(false);
      deboostTime := 0;
    }
  }
}
