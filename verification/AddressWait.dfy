/** Waiting for an IPv4 address: the scan of an interface's slots, and the wait on
    a binary semaphore given by address events, interleaved with everything that
    changes addresses, posts events and delivers them. */
module AddressWait {
  import opened Basics

  datatype Address = Address(isUsed: bool, isInet: bool, raw: uint32, fromDhcp: bool)

  /** An interface's address slots; None without an IPv4 configuration. */
  type Slots = Option<seq<Address>>

  /** The build: the one slot that may be used, if configured, and whether DHCP is. */
  datatype Config = Config(only: Option<nat>, dhcp: bool)

  predicate UsableAddress(c: Config, i: nat, a: Address) {
    && (c.only.Some? ==> i == c.only.value)
    && a.isUsed && a.isInet && a.raw != 0
    && (c.dhcp ==> a.fromDhcp)
  }

  predicate Usable(c: Config, slots: Slots, i: nat) {
    slots.Some? && i < |slots.value| && UsableAddress(c, i, slots.value[i])
  }

  ghost predicate HasAddress(c: Config, slots: Slots) {
    exists i: nat :: Usable(c, slots, i)
  }

  /** `ipv4_address_index`: the first usable slot, or -1 exactly when there is none. */
  method AddressIndex(c: Config, slots: Slots) returns (index: int)
    ensures index >= 0 ==> Usable(c, slots, index) && forall i: nat :: i < index ==> !Usable(c, slots, i)
    ensures index < 0 ==> index == -1 && !HasAddress(c, slots)
  {
    if slots.None? {
      return -1;
    }
    var i := 0;
    while i < |slots.value|
      invariant i <= |slots.value|
      invariant forall k: nat :: k < i ==> !Usable(c, slots, k)
    {
      var a := slots.value[i];
      if c.only.Some? && i != c.only.value {
        i := i + 1;
        continue;
      }
      if !a.isUsed || !a.isInet || a.raw == 0 {
        i := i + 1;
        continue;
      }
      if c.dhcp && !a.fromDhcp {
        i := i + 1;
        continue;
      }
      return i;
    }
    return -1;
  }

  /** Which slots are usable: with a configured slot no other one; none that is not
      in use, holds no IPv4 address or the zero address, or, where there is DHCP,
      holds an address of another origin; and every slot beside these. */
  lemma UsableExactly(c: Config, addresses: seq<Address>, i: nat)
    requires i < |addresses|
    ensures var a := addresses[i];
      && (a.isUsed == false ==> !Usable(c, Some(addresses), i))
      && (a.isInet == false ==> !Usable(c, Some(addresses), i))
      && (a.raw == 0 ==> !Usable(c, Some(addresses), i))
      && (c.dhcp && !a.fromDhcp ==> !Usable(c, Some(addresses), i))
      && (c.only.Some? && c.only.value != i ==> !Usable(c, Some(addresses), i))
      && (a.isUsed && a.isInet && a.raw != 0 && (a.fromDhcp || !c.dhcp) && (c.only == None || c.only == Some(i))
          ==> Usable(c, Some(addresses), i))
    ensures !Usable(c, Some(addresses), |addresses| + i) && !Usable(c, None, i)
  {
  }

  // ----- the machine -----

  type Interface = nat

  datatype EventKind = AddressAdded | OtherEvent

  datatype Event = Event(kind: EventKind, interface: Interface)

  /** Where the waiter is. A scan reads one slot at a time: slots can change in
      the middle of it. */
  datatype Place =
    | Start
    | Fetch(first: bool)
    | Scan(i: nat, first: bool)
    | StartDhcp
    | Waiting
    | Found(index: nat)
    | Returned(index: nat)

  datatype State = State(
    /** The slots of the interface waited on. */
    slots: Slots,
    /** Address changes on it whose event is not posted yet. */
    owed: nat,
    /** Posted events not yet delivered. */
    queue: seq<Event>,
    subscribed: bool,
    sem: nat,
    dhcpStarted: bool,
    place: Place)

  predicate Initial(s: State) {
    s.place == Start && !s.subscribed && !s.dhcpStarted
  }

  /** What the callback waits for on interface `me`. */
  predicate Wakes(e: Event, me: Interface) {
    e == Event(AddressAdded, me)
  }

  /** What a failed scan does next. */
  function AfterFailure(c: Config, first: bool): Place {
    if first && c.dhcp then StartDhcp else Waiting
  }

  /** The waiter can run: only an empty semaphore blocks it. */
  predicate CanRun(s: State) {
    !s.place.Returned? && (s.place == Waiting ==> s.sem > 0)
  }

  /** One step of `wait_for_ipv4_address`. */
  function Own(c: Config, s: State): State
    requires CanRun(s)
  {
    match s.place
    case Start => s.(sem := 0, subscribed := true, place := Fetch(true))
    case Fetch(first) => s.(place := if s.slots.None? then AfterFailure(c, first) else Scan(0, first))
    case Scan(i, first) =>
      if Usable(c, s.slots, i) then s.(place := Found(i))
      else if s.slots.Some? && i + 1 < |s.slots.value| then s.(place := Scan(i + 1, first))
      else s.(place := AfterFailure(c, first))
    case StartDhcp => s.(dhcpStarted := true, place := Waiting)
    case Waiting => s.(sem := s.sem - 1, place := Fetch(false))
    case Found(i) => s.(subscribed := false, place := Returned(i))
  }

  /** What the rest of the system does. */
  datatype Move =
    | OwnStep
    /** Any change of the slots, which owes an event. */
    | Announce(slots: Slots)
    /** A change that makes no slot usable, without event. */
    | Withdraw(slots: Slots)
    /** An owed event is posted. */
    | Raise
    /** Any event is posted, with or without a reason. */
    | Post(event: Event)
    /** A posted event is delivered, in any order. */
    | Deliver(k: nat)


  ghost predicate Next(c: Config, me: Interface, s: State, m: Move, s': State) {
    match m
    case OwnStep => CanRun(s) && s' == Own(c, s)
    case Announce(slots) => s' == s.(slots := slots, owed := s.owed + 1)
    case Withdraw(slots) =>
      && (forall i: nat :: Usable(c, slots, i) ==> Usable(c, s.slots, i))
      && s' == s.(slots := slots)
    case Raise => s.owed > 0 && s' == s.(owed := s.owed - 1, queue := s.queue + [Event(AddressAdded, me)])
    case Post(e) => s' == s.(queue := s.queue + [e])
    case Deliver(k) =>
      && k < |s.queue|
      && s' == s.(queue := s.queue[..k] + s.queue[k + 1..],
                  sem := if s.subscribed && Wakes(s.queue[k], me) then 1 else s.sem)
  }

  datatype Run = Run(states: seq<State>, moves: seq<Move>)

  ghost predicate IsRun(c: Config, me: Interface, r: Run) {
    && |r.states| == |r.moves| + 1
    && forall k :: 0 <= k < |r.moves| ==> Next(c, me, r.states[k], r.moves[k], r.states[k + 1])
  }

  // ----- no lost wakeup -----

  /** An address event for this interface is on its way or has arrived. */
  ghost predicate WakeupComing(me: Interface, s: State) {
    s.sem > 0 || s.owed > 0 || exists k :: 0 <= k < |s.queue| && Wakes(s.queue[k], me)
  }

  /** Every slot the waiter has already passed, or all when it is about to
      block. */
  predicate Passed(s: State, i: nat) {
    match s.place
    case Scan(j, _) => i < j
    case StartDhcp => true
    case Waiting => true
    case _ => false
  }

  /** DHCP is started once, after the first scan failed, and only where the build
      has it. */
  predicate DhcpAsNeeded(c: Config, s: State) {
    match s.place
    case Start => !s.dhcpStarted
    case Fetch(first) => s.dhcpStarted <==> !first && c.dhcp
    case Scan(_, first) => s.dhcpStarted <==> !first && c.dhcp
    case StartDhcp => c.dhcp && !s.dhcpStarted
    case Waiting => s.dhcpStarted <==> c.dhcp
    case _ => s.dhcpStarted ==> c.dhcp
  }

  ghost predicate Inv(c: Config, me: Interface, s: State) {
    && (s.subscribed <==> !s.place.Start? && !s.place.Returned?)
    && (!s.place.Start? ==> s.sem <= 1)
    && DhcpAsNeeded(c, s)
    && (forall i: nat :: Passed(s, i) && Usable(c, s.slots, i) ==> WakeupComing(me, s))
  }

  lemma OwnKeepsInv(c: Config, me: Interface, s: State)
    requires Inv(c, me, s) && CanRun(s)
    ensures Inv(c, me, Own(c, s))
  {
  }

  lemma DeliverKeepsWakeup(me: Interface, s: State, k: nat, s': State)
    requires s.subscribed && k < |s.queue| && WakeupComing(me, s)
    requires s' == s.(queue := s.queue[..k] + s.queue[k + 1..], sem := if Wakes(s.queue[k], me) then 1 else s.sem)
    ensures WakeupComing(me, s')
  {
    if s.sem == 0 && s.owed == 0 && !Wakes(s.queue[k], me) {
      var j :| 0 <= j < |s.queue| && Wakes(s.queue[j], me);
      assert s'.queue[if j < k then j else j - 1] == s.queue[j];
    }
  }

  lemma StepKeepsInv(c: Config, me: Interface, s: State, m: Move, s': State)
    requires Inv(c, me, s) && Next(c, me, s, m, s')
    ensures Inv(c, me, s')
  {
    hide Usable;
    match m
    case OwnStep => OwnKeepsInv(c, me, s);
    case Announce(_) =>
    case Withdraw(_) =>
      forall i: nat | Passed(s', i) && Usable(c, s'.slots, i)
        ensures WakeupComing(me, s')
      {
        assert Passed(s, i) && WakeupComing(me, s);
      }
    case Raise =>
      assert Wakes(s'.queue[|s.queue|], me);
    case Post(e) =>
      forall i: nat | Passed(s', i) && Usable(c, s'.slots, i)
        ensures WakeupComing(me, s')
      {
        assert Passed(s, i);
        if s.sem == 0 && s.owed == 0 {
          var j :| 0 <= j < |s.queue| && Wakes(s.queue[j], me);
          assert Wakes(s'.queue[j], me);
        }
      }
    case Deliver(k) =>
      forall i: nat | Passed(s', i) && Usable(c, s'.slots, i)
        ensures WakeupComing(me, s')
      {
        assert Passed(s, i);
        DeliverKeepsWakeup(me, s, k, s');
      }
  }

  lemma {:induction false} RunKeepsInv(c: Config, me: Interface, r: Run, k: nat)
    requires IsRun(c, me, r) && Initial(r.states[0]) && k < |r.states|
    ensures Inv(c, me, r.states[k])
  {
    hide Next, Inv;
    if k == 0 {
      InitialInv(c, me, r.states[0]);
    } else {
      RunKeepsInv(c, me, r, k - 1);
      StepKeepsInv(c, me, r.states[k - 1], r.moves[k - 1], r.states[k]);
    }
  }

  lemma InitialInv(c: Config, me: Interface, s: State)
    requires Initial(s)
    ensures Inv(c, me, s)
  {
  }

  /** No lost wakeup: in every run, whenever the waiter cannot run although an
      address is usable, its event is still to be posted or delivered, and the
      waiter is subscribed and has started DHCP if there is DHCP. */
  lemma NoLostWakeup(c: Config, me: Interface, r: Run, k: nat)
    requires IsRun(c, me, r) && Initial(r.states[0]) && k < |r.states|
    requires !CanRun(r.states[k]) && !r.states[k].place.Returned? && HasAddress(c, r.states[k].slots)
    ensures r.states[k].owed > 0 || exists j :: 0 <= j < |r.states[k].queue| && Wakes(r.states[k].queue[j], me)
    ensures r.states[k].subscribed && (r.states[k].dhcpStarted <==> c.dhcp)
  {
    hide Next, IsRun, Usable;
    RunKeepsInv(c, me, r, k);
    var i: nat :| Usable(c, r.states[k].slots, i);
    assert Passed(r.states[k], i);
  }

  /** With nothing owed and nothing queued, a waiter with a usable address runs. */
  lemma QuietWaiterRuns(c: Config, me: Interface, r: Run, k: nat)
    requires IsRun(c, me, r) && Initial(r.states[0]) && k < |r.states|
    requires r.states[k].owed == 0 && r.states[k].queue == [] && HasAddress(c, r.states[k].slots)
    ensures CanRun(r.states[k]) || r.states[k].place.Returned?
  {
    if !CanRun(r.states[k]) && !r.states[k].place.Returned? {
      NoLostWakeup(c, me, r, k);
    }
  }

  // ----- no false wakeup -----

  /** The waiter's wakeups among the first k moves. */
  ghost function Wakeups(c: Config, r: Run, k: nat): nat
    requires |r.states| == |r.moves| + 1 && k <= |r.moves|
  {
    if k == 0 then 0
    else Wakeups(c, r, k - 1) + (if r.moves[k - 1].OwnStep? && r.states[k - 1].place == Waiting then 1 else 0)
  }

  /** The deliveries, to a subscribed waiter, of an address event for its own
      interface. */
  ghost function OwnEvents(r: Run, me: Interface, k: nat): nat
    requires |r.states| == |r.moves| + 1 && k <= |r.moves|
  {
    if k == 0 then 0
    else
      var s, m := r.states[k - 1], r.moves[k - 1];
      OwnEvents(r, me, k - 1) +
      (if m.Deliver? && m.k < |s.queue| && s.queue[m.k].kind == AddressAdded && s.queue[m.k].interface == me && s.subscribed
       then 1 else 0)
  }

  /** In every run the waiter wakes no more often than address events for its own
      interface reach it: events of other kinds and interfaces do not wake it. */
  lemma {:induction false} WokenByOwnEventsOnly(c: Config, me: Interface, r: Run, k: nat)
    requires IsRun(c, me, r) && Initial(r.states[0]) && k <= |r.moves|
    ensures Wakeups(c, r, k) <= OwnEvents(r, me, k)
    ensures !r.states[k].place.Start? ==> Wakeups(c, r, k) + r.states[k].sem <= OwnEvents(r, me, k)
  {
    hide Usable, AfterFailure;
    if k > 0 {
      WokenByOwnEventsOnly(c, me, r, k - 1);
      RunKeepsInv(c, me, r, k - 1);
      StepOfRun(c, me, r, k - 1);
      if r.states[k - 1].place.Start? { NotWokenYet(c, me, r, k - 1); }
    }
  }

  lemma {:induction false} NotWokenYet(c: Config, me: Interface, r: Run, k: nat)
    requires IsRun(c, me, r) && Initial(r.states[0]) && k <= |r.moves| && r.states[k].place.Start?
    ensures Wakeups(c, r, k) == 0
  {
    hide Usable;
    if k > 0 {
      StepOfRun(c, me, r, k - 1);
      NotWokenYet(c, me, r, k - 1);
    }
  }

  // ----- what is returned -----

  /** Slot `i` was read at an earlier state of the run, and usable or not. */
  ghost predicate Read(c: Config, r: Run, before: nat, i: nat, usable: bool)
    requires before <= |r.states|
  {
    exists j: nat :: j < before && r.states[j].place.Scan? && r.states[j].place.i == i
      && (Usable(c, r.states[j].slots, i) <==> usable)
  }

  lemma ReadLater(c: Config, r: Run, before: nat, later: nat, i: nat, usable: bool)
    requires before <= later <= |r.states| && Read(c, r, before, i, usable)
    ensures Read(c, r, later, i, usable)
  {
  }

  /** How far the scan got: the slots passed. */
  function ReadSoFar(p: Place): nat {
    match p
    case Scan(i, _) => i
    case Found(i) => i
    case Returned(i) => i
    case _ => 0
  }

  /** In every run the index found or returned was usable when the waiter read it,
      and every lower slot was not usable when it read that one. */
  lemma {:induction false} ReturnedIndexWasUsable(c: Config, me: Interface, r: Run, k: nat, i: nat)
    requires IsRun(c, me, r) && Initial(r.states[0]) && k < |r.states|
    ensures (r.states[k].place.Found? || r.states[k].place.Returned?) ==> Read(c, r, k, r.states[k].place.index, true)
    ensures i < ReadSoFar(r.states[k].place) ==> Read(c, r, k, i, false)
  {
    hide Usable, Read, UsableAddress;
    if k > 0 {
      var s, s' := r.states[k - 1], r.states[k];
      ReturnedIndexWasUsable(c, me, r, k - 1, i);
      StepOfRun(c, me, r, k - 1);
      if s'.place == s.place || s.place.Found? {
        if s.place.Found? || s.place.Returned? { ReadLater(c, r, k - 1, k, s.place.index, true); }
        if i < ReadSoFar(s.place) { ReadLater(c, r, k - 1, k, i, false); }
      } else if s.place.Scan? {
        ReadNow(c, r, k - 1);
        if i < ReadSoFar(s.place) { ReadLater(c, r, k - 1, k, i, false); }
      }
    }
  }

  lemma StepOfRun(c: Config, me: Interface, r: Run, k: nat)
    requires IsRun(c, me, r) && k < |r.moves|
    ensures |r.states| == |r.moves| + 1 && Next(c, me, r.states[k], r.moves[k], r.states[k + 1])
  {
  }

  lemma ReadNow(c: Config, r: Run, k: nat)
    requires k < |r.states| && r.states[k].place.Scan?
    ensures Read(c, r, k + 1, r.states[k].place.i, Usable(c, r.states[k].slots, r.states[k].place.i))
  {
  }

  // ----- it returns -----

  /** A bound on the steps left while slot `u` of `n` stays usable. */
  function StepsLeft(p: Place, u: nat, n: nat): nat {
    match p
    case Returned(_) => 0
    case Found(_) => 1
    case Scan(i, _) => if i <= u then u - i + 2 else n + u + 6 - Min(i, n)
    case Fetch(_) => u + 3
    case Waiting => u + 4
    case StartDhcp => u + 5
    case Start => u + 4
  }

  function OwnSteps(moves: seq<Move>): nat {
    if moves == [] then 0
    else OwnSteps(moves[..|moves| - 1]) + (if moves[|moves| - 1] == OwnStep then 1 else 0)
  }

  /** While one slot stays usable, whatever happens to the others, the waiter
      takes a bounded number of steps: it cannot wake and go back to sleep for
      ever. */
  lemma {:induction false} OwnStepsAreBounded(c: Config, me: Interface, r: Run, u: nat, n: nat)
    requires IsRun(c, me, r)
    requires forall k :: 0 <= k < |r.states| ==> Usable(c, r.states[k].slots, u) && |r.states[k].slots.value| == n
    ensures OwnSteps(r.moves) + StepsLeft(r.states[|r.moves|].place, u, n) <= StepsLeft(r.states[0].place, u, n)
    decreases |r.moves|
  {
    if r.moves != [] {
      var k := |r.moves| - 1;
      var front := Run(r.states[..k + 1], r.moves[..k]);
      OwnStepsAreBounded(c, me, front, u, n);
      StepOfRun(c, me, r, k);
      StepLeftDrops(c, me, r.states[k], r.moves[k], r.states[k + 1], u, n);
    }
  }

  lemma StepLeftDrops(c: Config, me: Interface, s: State, m: Move, s': State, u: nat, n: nat)
    requires Next(c, me, s, m, s') && Usable(c, s.slots, u) && |s.slots.value| == n
    ensures StepsLeft(s'.place, u, n) + (if m == OwnStep then 1 else 0) <= StepsLeft(s.place, u, n)
  {
  }

  // ----- the scan alone -----

  /** The waiter's own steps, undisturbed. */
  function Alone(c: Config, s: State, steps: nat): State
    requires s.place.Scan?
    decreases steps
  {
    if steps == 0 then s
    else
      var s' := Own(c, s);
      if s'.place.Scan? then Alone(c, s', steps - 1) else s'
  }

  /** Undisturbed, the slot-by-slot scan ends where the sequential one does. */
  lemma {:induction false} UndisturbedScan(c: Config, s: State, index: int)
    requires s.place.Scan? && s.slots.Some? && s.place.i < |s.slots.value|
    requires forall i: nat :: i < s.place.i ==> !Usable(c, s.slots, i)
    requires index >= 0 ==> Usable(c, s.slots, index) && forall i: nat :: i < index ==> !Usable(c, s.slots, i)
    requires index < 0 ==> !HasAddress(c, s.slots)
    ensures Alone(c, s, |s.slots.value| - s.place.i).place
         == if index >= 0 then Found(index) else AfterFailure(c, s.place.first)
    decreases if s.slots.Some? then |s.slots.value| - s.place.i else 0
  {
    hide UsableAddress;
    var i := s.place.i;
    if !Usable(c, s.slots, i) && i + 1 < |s.slots.value| {
      UndisturbedScan(c, Own(c, s), index);
    }
  }
}
