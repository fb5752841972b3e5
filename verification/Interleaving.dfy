/** A shell command among other threads. The command repeats: take the task
    lock, sample the shared world, drop the lock, then digest the sample (and
    print) while other threads may run. Other threads change the world only
    while they hold the lock. Every run of this system leaves the command in the
    state it would reach by handling each sampled world in one atomic step. */
module Interleaving {
  datatype Owner = Free | Client | Others

  /** Where the command stands in its loop. */
  datatype Pc<B> =
    | Deciding             // no lock; about to start a pass, or done
    | Holding              // lock held, world not yet sampled
    | Sampled(sample: B)   // lock held
    | Released(sample: B)  // lock dropped, sample not yet digested

  datatype Sys<S, W, B> = Sys(world: W, owner: Owner, pc: Pc<B>, client: S, seen: seq<W>)

  /** The command: when it is finished, what a pass reads under the lock, and
      what it does with that afterwards. */
  datatype Program<!S, !W, !B> = Program(finished: S -> bool, sample: (S, W) -> B, digest: (S, B) -> S) {
    function Advance(s: S, w: W): S {
      digest(s, sample(s, w))
    }

    /** Handling each world in turn, atomically. */
    function Fold(s: S, worlds: seq<W>): S
      decreases |worlds|
    {
      if worlds == [] then s else Advance(Fold(s, worlds[..|worlds| - 1]), worlds[|worlds| - 1])
    }
  }

  lemma FoldSnoc<S, W, B>(p: Program<S, W, B>, s: S, worlds: seq<W>, w: W)
    ensures p.Fold(s, worlds + [w]) == p.Advance(p.Fold(s, worlds), w)
  {
  }

  lemma FoldOne<S, W, B>(p: Program<S, W, B>, s: S, w: W)
    ensures p.Fold(s, []) == s && p.Fold(s, [w]) == p.Advance(s, w)
  {
  }

  predicate Init<S(==), W, B>(s0: S, a: Sys<S, W, B>) {
    a.client == s0 && a.pc.Deciding? && a.owner != Client && a.seen == []
  }

  ghost predicate ClientStep<S, W, B>(p: Program<S, W, B>, a: Sys<S, W, B>, b: Sys<S, W, B>) {
    match a.pc
    case Deciding => !p.finished(a.client) && a.owner == Free && b == a.(owner := Client, pc := Holding)
    case Holding => b == a.(pc := Sampled(p.sample(a.client, a.world)), seen := a.seen + [a.world])
    case Sampled(x) => b == a.(owner := Free, pc := Released(x))
    case Released(x) => b == a.(pc := Deciding, client := p.digest(a.client, x))
  }

  /** Another thread takes the free lock, writes while holding it, or drops it. */
  ghost predicate EnvironmentStep<S, W, B>(a: Sys<S, W, B>, b: Sys<S, W, B>) {
    || (a.owner == Free && b == a.(owner := Others))
    || (a.owner == Others && b == a.(world := b.world))
    || (a.owner == Others && b == a.(owner := Free))
  }

  ghost predicate Next<S, W, B>(p: Program<S, W, B>, a: Sys<S, W, B>, b: Sys<S, W, B>) {
    ClientStep(p, a, b) || EnvironmentStep(a, b)
  }

  ghost predicate IsRun<S, W, B>(p: Program<S, W, B>, s0: S, run: seq<Sys<S, W, B>>) {
    && run != []
    && Init(s0, run[0])
    && forall i :: 0 < i < |run| ==> Next(p, run[i - 1], run[i])
  }

  /** The worlds whose samples the client has digested. */
  function Digested<S, W, B>(a: Sys<S, W, B>): seq<W> {
    if (a.pc.Sampled? || a.pc.Released?) && a.seen != [] then a.seen[..|a.seen| - 1] else a.seen
  }

  ghost predicate Inv<S, W, B>(p: Program<S, W, B>, s0: S, a: Sys<S, W, B>) {
    && (a.owner == Client <==> a.pc.Holding? || a.pc.Sampled?)
    && a.client == p.Fold(s0, Digested(a))
    && (a.pc.Holding? ==> !p.finished(a.client))
    && (a.pc.Sampled? || a.pc.Released? ==>
          && a.seen != []
          && !p.finished(a.client)
          && a.pc.sample == p.sample(a.client, a.seen[|a.seen| - 1]))
  }

  lemma StepKeepsInv<S, W, B>(p: Program<S, W, B>, s0: S, a: Sys<S, W, B>, b: Sys<S, W, B>)
    requires Inv(p, s0, a) && Next(p, a, b)
    ensures Inv(p, s0, b)
  {
    if ClientStep(p, a, b) {
      match a.pc
      case Deciding =>
      case Holding => assert b.seen[..|b.seen| - 1] == a.seen;
      case Sampled(x) =>
      case Released(x) =>
        assert p.Fold(s0, b.seen) == p.Advance(p.Fold(s0, b.seen[..|b.seen| - 1]), b.seen[|b.seen| - 1]);
    }
  }

  /** Reduction: at every point of every run, mutual exclusion holds and the
      command's state is the atomic fold over the worlds it digested. */
  lemma {:induction false} RunReduces<S, W, B>(p: Program<S, W, B>, s0: S, run: seq<Sys<S, W, B>>, k: nat)
    requires IsRun(p, s0, run) && k < |run|
    ensures Inv(p, s0, run[k])
    decreases k
  {
    if k > 0 {
      RunReduces(p, s0, run, k - 1);
      assert Next(p, run[k - 1], run[k]);
      StepKeepsInv(p, s0, run[k - 1], run[k]);
    }
  }

  /** State i of the run is one in which the client holds the lock over world w and
      is about to sample it. */
  ghost predicate Holds<S, W, B>(run: seq<Sys<S, W, B>>, i: nat, w: W) {
    i < |run| && run[i].owner == Client && run[i].pc.Holding? && run[i].world == w
  }

  /** The client held the lock over world w at some point of the run before k. */
  ghost predicate HeldOver<S, W, B>(run: seq<Sys<S, W, B>>, k: nat, w: W) {
    exists i: nat :: i < k && Holds(run, i, w)
  }

  /** It held the lock over one world and later over another. */
  ghost predicate HeldInOrder<S, W, B>(run: seq<Sys<S, W, B>>, k: nat, w: W, later: W) {
    exists i: nat, j: nat :: i < j < k && Holds(run, i, w) && Holds(run, j, later)
  }

  /** Every world the command saw was the shared world while the command held
      the lock, in the order it saw them. */
  lemma {:induction false} SeenUnderLock<S, W, B>(p: Program<S, W, B>, s0: S, run: seq<Sys<S, W, B>>, k: nat)
    requires IsRun(p, s0, run) && k < |run|
    ensures forall j :: 0 <= j < |run[k].seen| ==> HeldOver(run, k, run[k].seen[j])
    ensures forall i, j :: 0 <= i < j < |run[k].seen| ==> HeldInOrder(run, k, run[k].seen[i], run[k].seen[j])
    decreases k
  {
    if k > 0 {
      hide Holds, Inv;
      var a, b := run[k - 1], run[k];
      assert Next(p, a, b);
      SeenUnderLock(p, s0, run, k - 1);
      if b.seen != a.seen {
        HoldsWhenItSamples(p, s0, run, k);
      }
      forall j | 0 <= j < |b.seen|
        ensures HeldOver(run, k, b.seen[j])
      {
        if j < |a.seen| { assert HeldOver(run, k - 1, a.seen[j]) && b.seen[j] == a.seen[j]; }
      }
      forall i, j | 0 <= i < j < |b.seen|
        ensures HeldInOrder(run, k, b.seen[i], b.seen[j])
      {
        assert b.seen[i] == a.seen[i] && HeldOver(run, k - 1, a.seen[i]);
        if j < |a.seen| { assert HeldInOrder(run, k - 1, a.seen[i], a.seen[j]) && b.seen[j] == a.seen[j]; }
      }
    }
  }

  lemma HoldsWhenItSamples<S, W, B>(p: Program<S, W, B>, s0: S, run: seq<Sys<S, W, B>>, k: nat)
    requires IsRun(p, s0, run) && 0 < k < |run| && run[k].seen != run[k - 1].seen
    ensures run[k].seen == run[k - 1].seen + [run[k - 1].world] && Holds(run, k - 1, run[k - 1].world)
  {
    RunReduces(p, s0, run, k - 1);
    assert Next(p, run[k - 1], run[k]);
  }

  /** A command whose every pass lowers a rank makes at most that many passes,
      whatever the other threads do. */
  lemma {:induction false} PassesAreBounded<S(!new), W(!new), B>(
      p: Program<S, W, B>, s0: S, rank: S -> nat, run: seq<Sys<S, W, B>>, k: nat)
    requires IsRun(p, s0, run) && k < |run|
    requires forall s: S, w: W :: !p.finished(s) ==> rank(p.Advance(s, w)) < rank(s)
    ensures |Digested(run[k])| + rank(run[k].client) <= rank(s0)
    decreases k
  {
    if k > 0 {
      PassesAreBounded(p, s0, rank, run, k - 1);
      RunReduces(p, s0, run, k - 1);
      assert Next(p, run[k - 1], run[k]);
      StepKeepsBound(p, s0, rank, run[k - 1], run[k]);
    }
  }

  lemma StepKeepsBound<S(!new), W(!new), B>(
      p: Program<S, W, B>, s0: S, rank: S -> nat, a: Sys<S, W, B>, b: Sys<S, W, B>)
    requires Inv(p, s0, a) && Next(p, a, b)
    requires forall s: S, w: W :: !p.finished(s) ==> rank(p.Advance(s, w)) < rank(s)
    ensures |Digested(b)| + rank(b.client) <= |Digested(a)| + rank(a.client)
  {
    hide Program.Fold;
    if ClientStep(p, a, b) && a.pc.Released? {
      assert b.client == p.Advance(a.client, a.seen[|a.seen| - 1]);
    }
  }

  /** A command whose every pass lowers a rank is finished once it has handled that
      many worlds. */
  lemma {:induction false} FoldFinishes<S(!new), W(!new), B>(
      p: Program<S, W, B>, s0: S, rank: S -> nat, worlds: seq<W>)
    requires forall s: S, w: W :: !p.finished(s) ==> rank(p.Advance(s, w)) < rank(s)
    requires forall s: S, w: W :: p.finished(s) ==> p.Advance(s, w) == s
    ensures p.finished(p.Fold(s0, worlds)) || rank(p.Fold(s0, worlds)) + |worlds| <= rank(s0)
    decreases |worlds|
  {
    if worlds != [] { FoldFinishes(p, s0, rank, worlds[..|worlds| - 1]); }
  }
}
