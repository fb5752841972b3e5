/** The ReinitializeDevice timer: a task that fires a restart once the configured
    delay has passed since the device was last seen idle. */
module Reinit {
  import opened Basics

  /** The device's reinitialized state; the others start, end or abort a backup or
      a restore. */
  datatype Device = Idle | Coldstart | Warmstart | OtherState(code: nat)

  /** A `mstimer`: the counter when it was started, and its interval; 0 never
      expires. */
  datatype Timer = Timer(start: nat, interval: uint32)

  datatype State = State(timer: Timer, device: Device)

  /** Whether the platform can reboot, the number of counts after which the
      millisecond counter starts again at 0 (2^32), and the modulus in which a
      timer subtracts its readings (of `unsigned long`, 2^32 or 2^64). */
  datatype Config = Config(reboot: bool, wrap: nat, word: nat)

  /** Times are in milliseconds since the start. A tick reads the counter again
      after a coldstart callback, which can take time. */
  datatype Event =
    | Init(timeout: uint32, now: nat)
    | Tick(now: nat, after: nat)
    | Request(device: Device, now: nat)

  datatype Action = Callback | Reboot(cold: bool) | RebootUnsupported

  predicate ValidConfig(c: Config) { 1 < c.wrap <= c.word }

  function Counter(c: Config, now: nat): nat
    requires ValidConfig(c)
  {
    now % c.wrap
  }

  /** `mstimer_expired`, on counter readings. */
  predicate Expired(c: Config, t: Timer, counter: nat)
    requires ValidConfig(c)
  {
    t.interval > 0 && (counter - t.start) % c.word >= t.interval
  }

  predicate IsRestart(d: Device) { d.Coldstart? || d.Warmstart? }

  /** Whether a tick fires. */
  predicate Fires(c: Config, s: State, e: Event)
    requires ValidConfig(c)
  {
    e.Tick? && IsRestart(s.device) && Expired(c, s.timer, Counter(c, e.now))
  }

  function Step(c: Config, s: State, e: Event): State
    requires ValidConfig(c)
  {
    match e
    case Init(timeout, now) => s.(timer := Timer(Counter(c, now), timeout))
    case Request(device, _) => s.(device := device)
    case Tick(now, after) =>
      if Fires(c, s, e) then
        if c.reboot then s.(timer := Timer(Counter(c, after), 0))
        else State(s.timer.(start := Counter(c, after)), Idle)
      else if s.device.Idle? then s.(timer := s.timer.(start := Counter(c, now)))
      else s
  }

  /** What a tick does to the outside. */
  function Actions(c: Config, s: State, e: Event, hasCallback: bool): seq<Action>
    requires ValidConfig(c)
  {
    if !Fires(c, s, e) then []
    else
      (if s.device.Coldstart? && hasCallback then [Callback] else []) +
      [if c.reboot then Reboot(s.device.Coldstart?) else RebootUnsupported]
  }

  /** The timer and the device's state. */
  class Service {
    const config: Config
    const hasCallback: bool

    var timer: Timer
    var device: Device
    var actions: seq<Action>

    constructor (config: Config, hasCallback: bool)
      requires ValidConfig(config)
      ensures this.config == config && this.hasCallback == hasCallback
      ensures Now() == State(Timer(0, 0), Idle) && actions == []
    {
      this.config, this.hasCallback := config, hasCallback;
      timer, device, actions := Timer(0, 0), Idle, [];
    }

    function Now(): State
      reads this
    {
      State(timer, device)
    }

    /** `bacnet_reinitialize_device_task`, with the counter read at its start and
        after the callback. */
    method Task(now: nat, after: nat)
      requires ValidConfig(config)
      modifies this
      ensures Now() == Step(config, old(Now()), Tick(now, after))
      ensures actions == old(actions) + Actions(config, old(Now()), Tick(now, after), hasCallback)
    {
      match device
      case Coldstart =>
        if Expired(config, timer, Counter(config, now)) {
          if hasCallback {
            actions := actions + [Callback];
          }
          if config.reboot {
            timer := Timer(Counter(config, after), 0);
            actions := actions + [Reboot(true)];
          } else {
            timer := timer.(start := Counter(config, after));
            device := Idle;
            actions := actions + [RebootUnsupported];
          }
        }
      case Warmstart =>
        if Expired(config, timer, Counter(config, now)) {
          if config.reboot {
            timer := Timer(Counter(config, after), 0);
            actions := actions + [Reboot(false)];
          } else {
            timer := timer.(start := Counter(config, after));
            device := Idle;
            actions := actions + [RebootUnsupported];
          }
        }
      case Idle =>
        timer := timer.(start := Counter(config, now));
      case OtherState(_) =>
    }

    /** `bacnet_reinitialize_device_init` */
    method SetDelay(timeout: uint32, now: nat)
      requires ValidConfig(config)
      modifies this`timer
      ensures Now() == Step(config, old(Now()), Init(timeout, now))
    {
      timer := Timer(Counter(config, now), timeout);
    }
  }

  // ----- runs -----

  datatype Run = Run(states: seq<State>, events: seq<Event>)

  ghost predicate IsRun(c: Config, r: Run)
    requires ValidConfig(c)
  {
    && |r.states| == |r.events| + 1
    && r.states[0] == State(Timer(0, 0), Idle)
    && forall k :: 0 <= k < |r.events| ==> r.states[k + 1] == Step(c, r.states[k], r.events[k])
  }

  /** Event k of a run fires. */
  ghost predicate FiresAt(c: Config, r: Run, k: nat)
    requires ValidConfig(c) && |r.states| == |r.events| + 1
  {
    k < |r.events| && Fires(c, r.states[k], r.events[k])
  }

  /** The delay in force before event k: the last one set, or 0 when none was, or
      when a reboot has been made since. */
  ghost function Delay(c: Config, r: Run, k: nat): uint32
    requires ValidConfig(c) && |r.states| == |r.events| + 1 && k <= |r.events|
  {
    if k == 0 then 0
    else if r.events[k - 1].Init? then r.events[k - 1].timeout
    else if c.reboot && FiresAt(c, r, k - 1) then 0
    else Delay(c, r, k - 1)
  }

  /** When, before event k, the delay was last set, a tick last saw the device
      idle, or a restart was last made. */
  ghost function Since(c: Config, r: Run, k: nat): nat
    requires ValidConfig(c) && |r.states| == |r.events| + 1 && k <= |r.events|
  {
    if k == 0 then 0
    else
      var e := r.events[k - 1];
      if e.Init? then e.now
      else if FiresAt(c, r, k - 1) then e.after
      else if e.Tick? && r.states[k - 1].device.Idle? then e.now
      else Since(c, r, k - 1)
  }

  lemma {:induction false} TimerHolds(c: Config, r: Run, k: nat)
    requires ValidConfig(c) && IsRun(c, r) && k <= |r.events|
    ensures r.states[k].timer == Timer(Counter(c, Since(c, r, k)), Delay(c, r, k))
  {
    hide Expired, Counter;
    if k == 0 {
      CounterOfZero(c);
    } else {
      TimerHolds(c, r, k - 1);
      assert r.states[k] == Step(c, r.states[k - 1], r.events[k - 1]);
    }
  }

  lemma CounterOfZero(c: Config)
    requires ValidConfig(c)
    ensures Counter(c, 0) == 0
  {
  }

  /** The counter starting again does not disturb a difference of readings. */
  lemma DifferenceOfReadings(now: nat, start: nat, wrap: nat)
    requires wrap > 0
    ensures (now % wrap - start % wrap) % wrap == (now - start) % wrap
  {
    var x, rounds := now % wrap - start % wrap, now / wrap - start / wrap;
    assert now - start == x + rounds * wrap;
    assert x == (x / wrap) * wrap + x % wrap;
    assert (x / wrap + rounds) * wrap == (x / wrap) * wrap + rounds * wrap;
    RemainderIs(now - start, x / wrap + rounds, wrap, x % wrap);
  }

  lemma RemainderIs(x: int, q: int, m: nat, r: nat)
    requires r < m && x == q * m + r
    ensures x % m == r
  {
    var d := q - x / m;
    assert d * m == q * m - (x / m) * m == x % m - r;
    MultipleIsFar(d, m);
  }

  lemma MultipleIsFar(d: int, m: nat)
    ensures d >= 1 ==> d * m >= m
    ensures d <= -1 ==> d * m <= 0 - m
  {
  }

  /** Exactly when a tick fires, in every run: a restart is requested, a delay is
      set, and the counter says that it has passed since the last idle tick,
      setting or restart. */
  lemma FiresExactlyAfterDelay(c: Config, r: Run, k: nat)
    requires ValidConfig(c) && IsRun(c, r) && k < |r.events| && r.events[k].Tick?
    ensures FiresAt(c, r, k) <==>
            (IsRestart(r.states[k].device) && Delay(c, r, k) > 0
             && (r.events[k].now % c.wrap - Since(c, r, k) % c.wrap) % c.word >= Delay(c, r, k))
  {
    TimerHolds(c, r, k);
  }

  function Begin(e: Event): nat {
    match e
    case Init(_, now) => now
    case Tick(now, _) => now
    case Request(_, now) => now
  }

  function End(e: Event): nat {
    match e
    case Init(_, now) => now
    case Tick(_, after) => after
    case Request(_, now) => now
  }

  ghost predicate Chronological(r: Run) {
    && (forall k :: 0 <= k < |r.events| ==> Begin(r.events[k]) <= End(r.events[k]))
    && (forall j, k :: 0 <= j < k < |r.events| ==> End(r.events[j]) <= Begin(r.events[k]))
  }

  lemma {:induction false} SinceIsPast(c: Config, r: Run, k: nat, time: nat)
    requires ValidConfig(c) && IsRun(c, r) && k <= |r.events|
    requires forall j :: 0 <= j < k ==> Begin(r.events[j]) <= End(r.events[j]) <= time
    ensures Since(c, r, k) <= time
  {
    hide Expired;
    if k > 0 {
      assert End(r.events[k - 1]) <= time;
      SinceIsPast(c, r, k - 1, time);
    }
  }

  /** Where the timer subtracts in the counter's own width, no restart happens
      early: real time since the last idle tick, setting or restart is at least
      the delay, even when the counter started again. And none that is due is
      missed while less than one round of the counter has passed. */
  lemma RestartIsNeverEarly(c: Config, r: Run, k: nat)
    requires ValidConfig(c) && c.word == c.wrap
    requires IsRun(c, r) && Chronological(r) && k < |r.events| && r.events[k].Tick?
    ensures FiresAt(c, r, k) ==> 0 < Delay(c, r, k) <= r.events[k].now - Since(c, r, k)
    ensures IsRestart(r.states[k].device) && 0 < Delay(c, r, k) <= r.events[k].now - Since(c, r, k) < c.wrap
            ==> FiresAt(c, r, k)
  {
    hide FiresAt, Delay, Since, Step;
    FiresExactlyAfterDelay(c, r, k);
    SinceIsPast(c, r, k, r.events[k].now);
    DifferenceOfReadings(r.events[k].now, Since(c, r, k), c.wrap);
    ModAtMost(r.events[k].now - Since(c, r, k), c.wrap);
  }

  /** In every run, no restart before its delay has passed. */
  ghost predicate NeverEarly(c: Config)
    requires ValidConfig(c)
  {
    forall r: Run, k: nat :: IsRun(c, r) && Chronological(r) && FiresAt(c, r, k)
      ==> Delay(c, r, k) <= r.events[k].now - Since(c, r, k)
  }

  /** A delay of 2 ms set just before the counter starts again. */
  function EarlyEvents(c: Config): seq<Event>
    requires ValidConfig(c)
  {
    [Init(2, c.wrap - 1), Request(Warmstart, c.wrap - 1), Tick(c.wrap, c.wrap)]
  }

  function StatesOf(c: Config, s: State, events: seq<Event>): seq<State>
    requires ValidConfig(c)
    decreases |events|
  {
    if events == [] then [s] else [s] + StatesOf(c, Step(c, s, events[0]), events[1..])
  }

  lemma {:induction false} StatesAreSteps(c: Config, s: State, events: seq<Event>)
    requires ValidConfig(c)
    ensures var states := StatesOf(c, s, events);
      && |states| == |events| + 1 && states[0] == s
      && forall k :: 0 <= k < |events| ==> states[k + 1] == Step(c, states[k], events[k])
    decreases |events|
  {
    hide Step;
    if events != [] {
      var states, rest := StatesOf(c, s, events), StatesOf(c, Step(c, s, events[0]), events[1..]);
      StatesAreSteps(c, Step(c, s, events[0]), events[1..]);
      forall k | 0 <= k < |events|
        ensures states[k + 1] == Step(c, states[k], events[k])
      {
        assert states[k + 1] == rest[k];
        if k > 0 { assert states[k] == rest[k - 1] && events[k] == events[1..][k - 1]; }
      }
    }
  }

  lemma WiderTimerFiresEarly(c: Config)
    requires ValidConfig(c) && c.wrap < c.word
    ensures !NeverEarly(c)
  {
    var r := Run(StatesOf(c, State(Timer(0, 0), Idle), EarlyEvents(c)), EarlyEvents(c));
    StatesAreSteps(c, State(Timer(0, 0), Idle), EarlyEvents(c));
    assert r.states[1] == State(Timer(c.wrap - 1, 2), Idle) by { RemainderIs(c.wrap - 1, 0, c.wrap, c.wrap - 1); }
    assert r.states[2] == State(Timer(c.wrap - 1, 2), Warmstart);
    RemainderIs(c.wrap, 1, c.wrap, 0);
    RemainderIs(0 - (c.wrap - 1), -1, c.word, c.word - (c.wrap - 1));
    assert FiresAt(c, r, 2);
    assert Delay(c, r, 1) == 2 && Delay(c, r, 2) == 2;
    assert Since(c, r, 1) == c.wrap - 1 && Since(c, r, 2) == c.wrap - 1;
  }

  /** The delay is kept in every run if and only if the timer subtracts in the
      counter's own width: the 32-bit counter with a 64-bit `unsigned long`
      restarts early when the counter starts again. */
  lemma NeverEarlyIffSameWidth(c: Config)
    requires ValidConfig(c)
    ensures NeverEarly(c) <==> c.word == c.wrap
  {
    hide Delay, Since;
    if c.word == c.wrap {
      forall r: Run, k: nat | IsRun(c, r) && Chronological(r) && FiresAt(c, r, k)
        ensures Delay(c, r, k) <= r.events[k].now - Since(c, r, k)
      {
        RestartIsNeverEarly(c, r, k);
      }
    } else {
      WiderTimerFiresEarly(c);
    }
  }

  lemma ModAtMost(x: nat, m: nat)
    requires m > 0
    ensures x % m <= x && (x < m ==> x % m == x)
  {
  }

  // ----- once per request -----

  /** A request for a restart among the events from `i` up to `j`. */
  ghost predicate RequestBetween(r: Run, i: nat, j: nat)
    requires j <= |r.events|
  {
    exists m :: i <= m < j && r.events[m].Request? && IsRestart(r.events[m].device)
  }

  ghost predicate InitBetween(r: Run, i: nat, j: nat)
    requires j <= |r.events|
  {
    exists m :: i <= m < j && r.events[m].Init?
  }

  lemma {:induction false} NoRestartWithoutRequest(c: Config, r: Run, i: nat, j: nat)
    requires ValidConfig(c) && IsRun(c, r) && i <= j <= |r.events|
    requires !IsRestart(r.states[i].device) && !RequestBetween(r, i, j)
    ensures !IsRestart(r.states[j].device)
    decreases j
  {
    hide Expired;
    if i < j {
      NoRestartWithoutRequest(c, r, i, j - 1);
      assert r.states[j] == Step(c, r.states[j - 1], r.events[j - 1]);
    }
  }

  lemma {:induction false} NoDelayWithoutInit(c: Config, r: Run, i: nat, j: nat)
    requires ValidConfig(c) && IsRun(c, r) && i <= j <= |r.events|
    requires r.states[i].timer.interval == 0 && !InitBetween(r, i, j)
    ensures r.states[j].timer.interval == 0
    decreases j
  {
    if i < j {
      NoDelayWithoutInit(c, r, i, j - 1);
      assert r.states[j] == Step(c, r.states[j - 1], r.events[j - 1]);
    }
  }

  /** Each request makes at most one restart. Where the platform cannot reboot, a
      restart returns the device to idle and the next one needs a new request;
      where it can, the timer is off afterwards and stays off until the delay is
      set again. The first one needs both a request and a delay. */
  lemma RestartsAreOneShot(c: Config, r: Run, i: nat, j: nat)
    requires ValidConfig(c) && IsRun(c, r) && i < j && FiresAt(c, r, j)
    ensures RequestBetween(r, 0, j) && InitBetween(r, 0, j)
    ensures FiresAt(c, r, i) && !c.reboot ==> RequestBetween(r, i + 1, j) && r.states[i + 1].device == Idle
    ensures FiresAt(c, r, i) && c.reboot ==> InitBetween(r, i + 1, j) && r.states[i + 1].timer.interval == 0
  {
    if !RequestBetween(r, 0, j) { NoRestartWithoutRequest(c, r, 0, j); }
    if !InitBetween(r, 0, j) { NoDelayWithoutInit(c, r, 0, j); }
    if FiresAt(c, r, i) {
      assert r.states[i + 1] == Step(c, r.states[i], r.events[i]);
      if !c.reboot && !RequestBetween(r, i + 1, j) { NoRestartWithoutRequest(c, r, i + 1, j); }
      if c.reboot && !InitBetween(r, i + 1, j) { NoDelayWithoutInit(c, r, i + 1, j); }
    }
  }

  // ----- which restart it is -----

  /** What the last of the first k events that request a state requests. */
  function LastRequest(events: seq<Event>, k: nat): Option<Device>
    requires k <= |events|
  {
    if k == 0 then None
    else if events[k - 1].Request? then Some(events[k - 1].device)
    else LastRequest(events, k - 1)
  }

  lemma {:induction false} RestartIsTheLastRequest(c: Config, r: Run, k: nat)
    requires ValidConfig(c) && IsRun(c, r) && k <= |r.events| && IsRestart(r.states[k].device)
    ensures LastRequest(r.events, k) == Some(r.states[k].device)
  {
    hide Expired;
    if k > 0 {
      assert r.states[k] == Step(c, r.states[k - 1], r.events[k - 1]);
      if !r.events[k - 1].Request? { RestartIsTheLastRequest(c, r, k - 1); }
    }
  }

  /** What each event of a run does to the outside, from the history: nothing unless
      it fires. Where the platform reboots, it reboots cold exactly when the last
      request asked for a coldstart, and warm exactly when for a warmstart; where
      it does not, it says so. The callback comes once, before that, exactly for
      a coldstart and where one is registered. */
  lemma RestartIsAsRequested(c: Config, r: Run, k: nat, hasCallback: bool)
    requires ValidConfig(c) && IsRun(c, r) && k < |r.events|
    ensures var done := Actions(c, r.states[k], r.events[k], hasCallback);
      var last := LastRequest(r.events, k);
      && (!FiresAt(c, r, k) ==> done == [])
      && (FiresAt(c, r, k) ==> last == Some(Coldstart) || last == Some(Warmstart))
      && (FiresAt(c, r, k) && last == Some(Coldstart) && hasCallback ==> |done| == 2 && done[0] == Callback)
      && (FiresAt(c, r, k) && (last == Some(Warmstart) || !hasCallback) ==> |done| == 1)
      && (FiresAt(c, r, k) ==>
            done[|done| - 1] == if !c.reboot then RebootUnsupported
                                else if last == Some(Coldstart) then Reboot(true) else Reboot(false))
    ensures var done := Actions(c, r.states[k], r.events[k], hasCallback);
      var last := LastRequest(r.events, k);
      && (Reboot(true) in done <==> FiresAt(c, r, k) && c.reboot && last == Some(Coldstart))
      && (Reboot(false) in done <==> FiresAt(c, r, k) && c.reboot && last == Some(Warmstart))
      && (RebootUnsupported in done <==> FiresAt(c, r, k) && !c.reboot)
      && (Callback in done <==> FiresAt(c, r, k) && last == Some(Coldstart) && hasCallback)
  {
    hide Expired, LastRequest;
    if FiresAt(c, r, k) { RestartIsTheLastRequest(c, r, k); }
  }

  // ----- at most as many restarts as requests -----

  ghost function Restarts(c: Config, r: Run, k: nat): nat
    requires ValidConfig(c) && |r.states| == |r.events| + 1 && k <= |r.events|
  {
    if k == 0 then 0 else Restarts(c, r, k - 1) + (if FiresAt(c, r, k - 1) then 1 else 0)
  }

  function Requests(events: seq<Event>, k: nat): nat
    requires k <= |events|
  {
    if k == 0 then 0
    else Requests(events, k - 1) + (if events[k - 1].Request? && IsRestart(events[k - 1].device) then 1 else 0)
  }

  lemma {:induction false} AtMostOneRestartARequest(c: Config, r: Run, k: nat)
    requires ValidConfig(c) && !c.reboot && IsRun(c, r) && k <= |r.events|
    ensures Restarts(c, r, k) + (if IsRestart(r.states[k].device) then 1 else 0) <= Requests(r.events, k)
  {
    hide Expired;
    if k > 0 {
      AtMostOneRestartARequest(c, r, k - 1);
      assert r.states[k] == Step(c, r.states[k - 1], r.events[k - 1]);
    }
  }
}
