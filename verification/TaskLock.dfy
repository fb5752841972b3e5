/** The task lock: a recursive mutex over a clock whose date and time are stored,
    and copied, one after the other; and the shell's clock command run under it. */
module TaskLock {
  import opened Basics

  type Thread = nat
  type Date = nat
  type Time = nat

  datatype Pair = Pair(date: Date, time: Time)

  /** A thread in the middle of the clock: the time is done, the date is not. */
  datatype Access = Storing(pair: Pair) | Copying(time: Time)

  /** The completed accesses, in order. */
  datatype Done = Wrote(pair: Pair) | GotPair(thread: Thread, pair: Pair)

  datatype State = State(
    owner: Option<Thread>, depth: nat, clock: Pair, busy: map<Thread, Access>, log: seq<Done>)

  datatype Move =
    | Lock(thread: Thread)
    | Unlock(thread: Thread)
    | StoreTime(thread: Thread, pair: Pair)
    | StoreDate(thread: Thread)
    | CopyTime(thread: Thread)
    | CopyDate(thread: Thread)

  /** The threads that hold the lock whenever they touch the clock. */
  type Discipline = Thread -> bool

  predicate MayTouch(d: Discipline, s: State, t: Thread) {
    d(t) ==> s.owner == Some(t)
  }

  /** A mutex is given up by its owner only: anyone else's unlock is refused,
      which `bacnet_unlock` does not report. */
  function Unlocked(s: State, t: Thread): State {
    if s.owner != Some(t) then s
    else if s.depth > 1 then s.(depth := s.depth - 1)
    else s.(owner := None, depth := 0)
  }

  predicate Next(d: Discipline, s: State, m: Move, s': State) {
    match m
    case Lock(t) =>
      && t !in s.busy && (s.owner == None || s.owner == Some(t))
      && s' == s.(owner := Some(t), depth := s.depth + 1)
    case Unlock(t) => t !in s.busy && s' == Unlocked(s, t)
    case StoreTime(t, p) =>
      && t !in s.busy && MayTouch(d, s, t)
      && s' == s.(clock := s.clock.(time := p.time), busy := s.busy[t := Storing(p)])
    case StoreDate(t) =>
      && t in s.busy && s.busy[t].Storing? && MayTouch(d, s, t)
      && var p := s.busy[t].pair;
      s' == s.(clock := s.clock.(date := p.date), busy := s.busy - {t}, log := s.log + [Wrote(p)])
    case CopyTime(t) =>
      && t !in s.busy && MayTouch(d, s, t)
      && s' == s.(busy := s.busy[t := Copying(s.clock.time)])
    case CopyDate(t) =>
      && t in s.busy && s.busy[t].Copying? && MayTouch(d, s, t)
      && s' == s.(busy := s.busy - {t}, log := s.log + [GotPair(t, Pair(s.clock.date, s.busy[t].time))])
  }

  predicate Initial(s: State) {
    s.owner == None && s.depth == 0 && s.busy == map[] && s.log == []
  }

  datatype Run = Run(states: seq<State>, moves: seq<Move>)

  predicate IsRun(d: Discipline, r: Run) {
    && |r.states| == |r.moves| + 1
    && Initial(r.states[0])
    && forall k :: 0 <= k < |r.moves| ==> Next(d, r.states[k], r.moves[k], r.states[k + 1])
  }

  /** The last pair written whole, or the one before any was. */
  function LatestWrite(initial: Pair, log: seq<Done>): Pair {
    if log == [] then initial
    else match log[|log| - 1]
      case Wrote(p) => p
      case GotPair(_, _) => LatestWrite(initial, log[..|log| - 1])
  }

  /** Every pair read is the one last written whole before it. */
  predicate ReadsAreWhole(initial: Pair, log: seq<Done>) {
    forall k :: 0 <= k < |log| && log[k].GotPair? ==> log[k].pair == LatestWrite(initial, log[..k])
  }

  // ----- with the lock -----

  ghost predicate Inv(initial: Pair, s: State) {
    && (s.depth > 0 <==> s.owner.Some?)
    && (forall t :: t in s.busy ==> s.owner == Some(t))
    && (match OwnersAccess(s)
        case None => s.clock == LatestWrite(initial, s.log)
        case Some(Storing(p)) => s.clock == Pair(LatestWrite(initial, s.log).date, p.time)
        case Some(Copying(time)) => s.clock == LatestWrite(initial, s.log) && time == s.clock.time)
    && ReadsAreWhole(initial, s.log)
  }

  /** What the lock's owner is doing to the clock. */
  function OwnersAccess(s: State): Option<Access> {
    if s.owner.Some? && s.owner.value in s.busy then Some(s.busy[s.owner.value]) else None
  }

  lemma LogGrows(initial: Pair, log: seq<Done>, e: Done)
    requires ReadsAreWhole(initial, log) && (e.GotPair? ==> e.pair == LatestWrite(initial, log))
    ensures ReadsAreWhole(initial, log + [e])
    ensures LatestWrite(initial, log + [e]) == if e.Wrote? then e.pair else LatestWrite(initial, log)
  {
    assert (log + [e])[..|log|] == log;
    forall k | 0 <= k < |log| && log[k].GotPair?
      ensures log[k].pair == LatestWrite(initial, (log + [e])[..k])
    {
      assert (log + [e])[..k] == log[..k];
    }
  }

  lemma StepKeepsInv(d: Discipline, initial: Pair, s: State, m: Move, s': State)
    requires (forall t :: d(t)) && Inv(initial, s) && Next(d, s, m, s')
    ensures Inv(initial, s')
  {
    hide ReadsAreWhole, LatestWrite;
    match m
    case StoreDate(t) => LogGrows(initial, s.log, Wrote(s.busy[t].pair));
    case CopyDate(t) => LogGrows(initial, s.log, GotPair(t, Pair(s.clock.date, s.busy[t].time)));
    case _ =>
  }

  lemma {:induction false} RunKeepsInv(d: Discipline, r: Run, k: nat)
    requires (forall t :: d(t)) && IsRun(d, r) && k < |r.states|
    ensures Inv(r.states[0].clock, r.states[k])
  {
    hide Next;
    if k > 0 {
      RunKeepsInv(d, r, k - 1);
      StepKeepsInv(d, r.states[0].clock, r.states[k - 1], r.moves[k - 1], r.states[k]);
    }
  }

  /** While a thread holds the lock, no move of another changes the clock, takes
      the lock away or alters its depth. */
  lemma HolderIsAlone(d: Discipline, r: Run, k: nat, t: Thread)
    requires (forall u :: d(u)) && IsRun(d, r) && k < |r.moves|
    requires r.states[k].owner == Some(t) && r.moves[k].thread != t
    ensures r.states[k + 1] == r.states[k]
  {
  }

  // ----- without it -----

  /** One writer under the lock and one reader that does not take it. */
  function TornMoves(w: Thread, t: Thread, p: Pair): seq<Move> {
    [Lock(w), StoreTime(w, p), CopyTime(t), CopyDate(t)]
  }

  function TornStates(w: Thread, t: Thread, p: Pair, initial: Pair): seq<State> {
    var half := Pair(initial.date, p.time);
    var busy := map[w := Storing(p)];
    [State(None, 0, initial, map[], []),
     State(Some(w), 1, initial, map[], []),
     State(Some(w), 1, half, busy, []),
     State(Some(w), 1, half, busy[t := Copying(p.time)], []),
     State(Some(w), 1, half, busy, [GotPair(t, half)])]
  }

  lemma UnlockedReaderSeesATornPair(d: Discipline, w: Thread, t: Thread, p: Pair, initial: Pair)
    requires w != t && !d(t)
    ensures var r := Run(TornStates(w, t, p, initial), TornMoves(w, t, p));
      && IsRun(d, r) && r.states[0].clock == initial
      && r.states[4].log == [GotPair(t, Pair(initial.date, p.time))]
  {
  }

  ghost predicate AlwaysWhole(d: Discipline) {
    forall r: Run, k: nat :: IsRun(d, r) && k < |r.states| ==> ReadsAreWhole(r.states[0].clock, r.states[k].log)
  }

  /** The clock behaves as one atomic register, each read giving the last pair
      written whole, in every run, if and only if every thread that touches it
      holds the lock. */
  lemma WholeIffEveryoneLocks(d: Discipline)
    ensures AlwaysWhole(d) <==> forall t :: d(t)
  {
    hide IsRun;
    if forall t :: d(t) {
      forall r: Run, k: nat | IsRun(d, r) && k < |r.states|
        ensures ReadsAreWhole(r.states[0].clock, r.states[k].log)
      {
        RunKeepsInv(d, r, k);
      }
    } else {
      var t: Thread :| !d(t);
      var r := Run(TornStates(t + 1, t, Pair(1, 1), Pair(0, 0)), TornMoves(t + 1, t, Pair(1, 1)));
      UnlockedReaderSeesATornPair(d, t + 1, t, Pair(1, 1), Pair(0, 0));
      var log := r.states[4].log;
      assert log[..0] == [];
      assert log[0] == GotPair(t, Pair(0, 1));
      assert !ReadsAreWhole(r.states[0].clock, log);
    }
  }

  /** Locks and unlocks a thread makes, with any other of its moves between. */
  function Balance(moves: seq<Move>, t: Thread): int {
    if moves == [] then 0
    else
      var m := moves[|moves| - 1];
      Balance(moves[..|moves| - 1], t) + (if m == Lock(t) then 1 else if m == Unlock(t) then -1 else 0)
  }

  /** The depth of the lock counts its owner's calls: a thread that never unlocks
      more than it locked holds it exactly while its calls do not balance. */
  lemma {:induction false} DepthIsBalance(d: Discipline, r: Run, t: Thread)
    requires (forall u :: d(u)) && IsRun(d, r)
    requires forall k :: 0 <= k < |r.moves| && r.moves[k] == Unlock(t) ==> r.states[k].owner == Some(t)
    ensures Held(r.states[|r.moves|], t) == Balance(r.moves, t)
    decreases |r.moves|
  {
    hide Next, Inv;
    if r.moves != [] {
      var k := |r.moves| - 1;
      DepthIsBalance(d, Run(r.states[..k + 1], r.moves[..k]), t);
      RunKeepsInv(d, r, k);
      assert Next(d, r.states[k], r.moves[k], r.states[k + 1]);
      HeldSteps(d, r.states[0].clock, r.states[k], r.moves[k], r.states[k + 1], t);
    }
  }

  /** The depth at which a thread holds the lock. */
  function Held(s: State, t: Thread): nat {
    if s.owner == Some(t) then s.depth else 0
  }

  lemma HeldSteps(d: Discipline, initial: Pair, s: State, m: Move, s': State, t: Thread)
    requires Inv(initial, s) && Next(d, s, m, s') && (m == Unlock(t) ==> s.owner == Some(t))
    ensures Held(s', t) == Held(s, t) + (if m == Lock(t) then 1 else if m == Unlock(t) then -1 else 0)
  {
  }

  // ----- the clock command -----

  /** The library's text forms. */
  datatype Clockwork = Clockwork(
    parseDate: string -> Option<Date>,
    parseTime: string -> Option<Time>,
    showDate: Date -> string,
    showTime: Time -> string)

  /** The pair a command line asks to set. */
  function Asked(w: Clockwork, args: seq<string>): Option<Pair> {
    if |args| == 3 && w.parseDate(args[1]).Some? && w.parseTime(args[2]).Some?
    then Some(Pair(w.parseDate(args[1]).value, w.parseTime(args[2]).value)) else None
  }

  /** The second word is the date and the third the time; anything but three words
      sets nothing, and so does a word that does not parse. */
  lemma AskedExactly(w: Clockwork, args: seq<string>, d: Date, t: Time)
    ensures Asked(w, args) == Some(Pair(d, t)) <==>
            |args| == 3 && w.parseDate(args[1]) == Some(d) && w.parseTime(args[2]) == Some(t)
  {
  }

  /** One thread's view of the lock and the clock. */
  class ClockShell {
    const work: Clockwork
    /** The clock the other threads leave when this one acquires the lock for the
        n-th time. */
    const others: nat -> Pair

    var depth: nat
    var acquired: nat
    var date: Date
    var time: Time

    constructor (work: Clockwork, others: nat -> Pair, clock: Pair)
      ensures this.work == work && this.others == others && depth == 0 && acquired == 0 && Clock() == clock
    {
      this.work, this.others, depth, acquired, date, time := work, others, 0, 0, clock.date, clock.time;
    }

    function Clock(): Pair
      reads this
    {
      Pair(date, time)
    }

    /** `bacnet_lock` */
    method Lock()
      modifies this
      ensures depth == old(depth) + 1
      ensures acquired == old(acquired) + (if old(depth) == 0 then 1 else 0)
      ensures Clock() == if old(depth) == 0 then others(old(acquired)) else old(Clock())
    {
      if depth == 0 {
        date, time, acquired := others(acquired).date, others(acquired).time, acquired + 1;
      }
      depth := depth + 1;
    }

    /** `bacnet_unlock` */
    method Unlock()
      requires depth > 0
      modifies this`depth
      ensures depth == old(depth) - 1
    {
      depth := depth - 1;
    }

    /** `datetime_timesync`: the time, then the date. */
    method Store(p: Pair)
      requires depth > 0
      modifies this`date, this`time
      ensures Clock() == p
    {
      time := p.time;
      date := p.date;
    }

    /** `datetime_local`: the time, then the date. */
    method Copy() returns (p: Pair)
      requires depth > 0
      ensures p == Clock()
    {
      var t := time;
      var d := date;
      p := Pair(d, t);
    }

    /** `cmd_date_time` */
    method DateTime(args: seq<string>) returns (status: Status, printed: Option<string>)
      requires depth > 0
      modifies this`date, this`time
      ensures Clock() == if Asked(work, args).Some? then Asked(work, args).value else old(Clock())
      ensures status == Ok <==> |args| == 1 || Asked(work, args).Some?
      ensures status != Ok ==> status == Err(EINVAL) && printed == None
      ensures status == Ok ==> printed == Some(work.showDate(Clock().date) + " " + work.showTime(Clock().time))
    {
      if |args| != 3 && |args| != 1 {
        return Err(EINVAL), None;
      }
      if |args| == 3 {
        var d := work.parseDate(args[1]);
        var t := None;
        if d.Some? {
          t := work.parseTime(args[2]);
        }
        if d.None? || t.None? {
          return Err(EINVAL), None;
        }
        Store(Pair(d.value, t.value));
      }
      var p := Copy();
      return Ok, Some(work.showDate(p.date) + " " + work.showTime(p.time));
    }

    /** `BACNET_SHELL_LOCK_HANDLER(cmd_date_time)`: on every path the depth is back
        where it was. A clock that is set is printed as it was set; otherwise the
        pair printed is the one the other threads left whole. */
    method DateTimeLocked(args: seq<string>) returns (status: Status, printed: Option<string>)
      modifies this
      ensures depth == old(depth)
      ensures acquired == old(acquired) + (if old(depth) == 0 then 1 else 0)
      ensures var found := if old(depth) == 0 then others(old(acquired)) else old(Clock());
        && Clock() == (if Asked(work, args).Some? then Asked(work, args).value else found)
        && (status == Ok <==> |args| == 1 || Asked(work, args).Some?)
        && (status != Ok ==> status == Err(EINVAL) && printed == None)
        && (status == Ok ==> printed == Some(work.showDate(Clock().date) + " " + work.showTime(Clock().time)))
    {
      Lock();
      status, printed := DateTime(args);
      Unlock();
    }
  }
}
