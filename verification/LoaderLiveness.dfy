/**
 Progress of the module loading protocol: who can move, how many steps there are, and when every fair
 schedule ends with all workers joined.
 */
module LoaderLiveness {
  import opened Options
  import opened Graphs
  import opened ModuleNames
  import opened ModuleLoader
  import opened LoaderSafety

  ghost predicate AcyclicDeps(cfg: Config) {
    Acyclic(DepGraph(cfg), Names(cfg.start))
  }

  /* Deadlock freedom */

  ghost predicate RanksDeps(cfg: Config, rank: map<string, nat>) {
    forall n, k | n in rank && 0 <= k < |Deps(cfg, n)| ::
      Normalize(Deps(cfg, n)[k]) in rank && rank[Normalize(Deps(cfg, n)[k])] < rank[n]
  }

  lemma RanksToDeps(cfg: Config, rank: map<string, nat>)
    requires Ranks(DepGraph(cfg), Names(cfg.start), rank)
    ensures RanksDeps(cfg, rank)
  {
    forall n, k | n in rank && 0 <= k < |Deps(cfg, n)|
      ensures Normalize(Deps(cfg, n)[k]) in rank && rank[Normalize(Deps(cfg, n)[k])] < rank[n]
    {
      var names := Names(cfg.files[n]);
      assert names[k] in names && names[k] in Succ(DepGraph(cfg), n);
    }
  }

  /** All that the state names has a rank below which its dependencies lie. */
  ghost predicate Ranked(cfg: Config, s: State, rank: map<string, nat>) {
    Ownership(s) && WorkersOk(cfg, s) && RanksDeps(cfg, rank) && forall n | n in s.modules :: n in rank
  }

  lemma ReachedIsRanked(cfg: Config, s: State) returns (rank: map<string, nat>)
    requires Inv(cfg, s) && AcyclicDeps(cfg)
    ensures Ranked(cfg, s, rank)
  {
    rank :| Ranks(DepGraph(cfg), Names(cfg.start), rank);
    RanksToDeps(cfg, rank);
    forall n | n in s.modules ensures n in rank {
      ReachableIsRanked(DepGraph(cfg), Names(cfg.start), rank, n);
    }
  }

  /** Along a stack every activation has a lower rank than the ones that wait for it. */
  lemma {:induction false} StackFalls(cfg: Config, rank: map<string, nat>, s: State, t: nat, i: nat, j: nat)
    requires Ranked(cfg, s, rank) && t < |s.workers| && s.workers[t].Running?
    requires i <= j < |s.workers[t].stack|
    ensures var stack := s.workers[t].stack;
      stack[i].name in rank && stack[j].name in rank && rank[stack[j].name] <= rank[stack[i].name]
    decreases j - i
  {
    assert FramesOwned(s, t);
    if i < j {
      StackFalls(cfg, rank, s, t, i, j - 1);
      assert WorkerOk(cfg, s.parsed, s.published, s.workers[t]);
      assert FrameOk(cfg, s.parsed, s.published, s.workers[t], j - 1);
      var f := s.workers[t].stack[j - 1];
      assert Deps(cfg, f.name)[f.next - 1] == cfg.files[f.name][f.next - 1];
    }
  }

  /** The owner of a claim, when it waits, waits for a claim of lower rank. */
  lemma WaitsForLower(cfg: Config, rank: map<string, nat>, s: State, n: string)
    requires Ranked(cfg, s, rank) && n in s.modules && s.modules[n].Placeholder?
    requires HasOwner(s, n) && Spins(s, s.owner[n].0)
    ensures n in rank
    ensures var m := Normalize(s.workers[s.owner[n].0].call.value);
      m in s.modules && s.modules[m].Placeholder? && m in rank && rank[m] < rank[n]
  {
    var t, i := s.owner[n].0, s.owner[n].1;
    var stack := s.workers[t].stack;
    StackFalls(cfg, rank, s, t, i, |stack| - 1);
    assert WorkerOk(cfg, s.parsed, s.published, s.workers[t]);
    assert FrameOk(cfg, s.parsed, s.published, s.workers[t], |stack| - 1);
    var f := stack[|stack| - 1];
    assert Deps(cfg, f.name)[f.next - 1] == cfg.files[f.name][f.next - 1];
  }

  /** The owner of a claim of lowest rank is not waiting. */
  lemma LowestOwnerActs(cfg: Config, rank: map<string, nat>, s: State, n: string)
    requires Ranked(cfg, s, rank) && !s.aborted
    requires n in s.modules && s.modules[n].Placeholder?
    requires forall m | m in s.modules && s.modules[m].Placeholder? :: rank[n] <= rank[m]
    ensures HasOwner(s, n) && Acts(s, s.owner[n].0)
  {
    assert HasOwner(s, n);
    if Spins(s, s.owner[n].0) {
      WaitsForLower(cfg, rank, s, n);
    }
  }

  lemma {:induction false} BelowAClaimSomebodyActs(cfg: Config, rank: map<string, nat>, s: State, n: string)
    requires Ranked(cfg, s, rank) && !s.aborted
    requires n in s.modules && s.modules[n].Placeholder?
    ensures exists t :: 0 <= t < |s.workers| && Acts(s, t)
    decreases rank[n]
  {
    assert HasOwner(s, n);
    var t := s.owner[n].0;
    if Spins(s, t) {
      WaitsForLower(cfg, rank, s, n);
      BelowAClaimSomebodyActs(cfg, rank, s, Normalize(s.workers[t].call.value));
    } else {
      assert Acts(s, t);
    }
  }

  lemma SomebodyActs(cfg: Config, rank: map<string, nat>, s: State)
    requires Ranked(cfg, s, rank) && !s.aborted && !Joined(s)
    ensures exists t :: 0 <= t < |s.workers| && Acts(s, t)
  {
    var t :| 0 <= t < |s.workers| && !s.workers[t].Returned?;
    if Spins(s, t) {
      BelowAClaimSomebodyActs(cfg, rank, s, Normalize(s.workers[t].call.value));
    } else {
      assert Acts(s, t);
    }
  }

  /** No reachable state of any number of workers is a deadlock when the dependencies are acyclic. */
  lemma DeadlockFree(cfg: Config, workers: nat, order: seq<nat>)
    requires Schedule(workers, order) && AcyclicDeps(cfg)
    requires !After(cfg, workers, order).aborted && !Joined(After(cfg, workers, order))
    ensures exists t :: 0 <= t < workers && Acts(After(cfg, workers, order), t)
  {
    var s := After(cfg, workers, order);
    ReachedInv(cfg, workers, order);
    var rank := ReachedIsRanked(cfg, s);
    SomebodyActs(cfg, rank, s);
  }

  /* The number of steps */

  function NameCost(cfg: Config, n: string): nat {
    2 + 2 * |Deps(cfg, n)|
  }

  /** Every name that the list or some file mentions. */
  ghost function Mentioned(cfg: Config): set<string> {
    (set k | 0 <= k < |cfg.start| :: Normalize(cfg.start[k]))
    + (set n, k | n in cfg.files && 0 <= k < |cfg.files[n]| :: Normalize(cfg.files[n][k]))
  }

  ghost function NamesCost(cfg: Config, names: set<string>): nat {
    if names == {} then 0
    else var n :| n in names; NameCost(cfg, n) + NamesCost(cfg, names - {n})
  }

  function FrameCost(cfg: Config, f: Frame): nat {
    match f
    case Claimed(n) => NameCost(cfg, n)
    case Loading(n, _, next) => 1 + 2 * if next <= |Deps(cfg, n)| then |Deps(cfg, n)| - next else 0
  }

  function StackCost(cfg: Config, stack: seq<Frame>): nat {
    if stack == [] then 0
    else StackCost(cfg, stack[..|stack| - 1]) + FrameCost(cfg, stack[|stack| - 1])
  }

  function WorkerCost(cfg: Config, w: Worker): nat {
    match w
    case Returned => 0
    case Running(call, stack) => 1 + (if call.Some? then 1 else 0) + StackCost(cfg, stack)
  }

  function WorkersCost(cfg: Config, workers: seq<Worker>): nat {
    if workers == [] then 0
    else WorkersCost(cfg, workers[..|workers| - 1]) + WorkerCost(cfg, workers[|workers| - 1])
  }

  /** What is still to be done. */
  ghost function Measure(cfg: Config, s: State): nat {
    (if s.aborted then 0 else 1)
    + 2 * |s.queue|
    + WorkersCost(cfg, s.workers)
    + NamesCost(cfg, Mentioned(cfg) - s.modules.Keys)
  }

  lemma {:induction false} NamesCostWithout(cfg: Config, names: set<string>, n: string)
    requires n in names
    ensures NamesCost(cfg, names) == NameCost(cfg, n) + NamesCost(cfg, names - {n})
  {
    var m :| m in names && NamesCost(cfg, names) == NameCost(cfg, m) + NamesCost(cfg, names - {m});
    if m != n {
      NamesCostWithout(cfg, names - {m}, n);
      NamesCostWithout(cfg, names - {n}, m);
      assert names - {m} - {n} == names - {n} - {m};
    }
  }

  lemma {:induction false} WorkersCostMove(cfg: Config, workers: seq<Worker>, t: nat, w: Worker)
    requires t < |workers|
    ensures WorkersCost(cfg, workers[t := w]) + WorkerCost(cfg, workers[t])
         == WorkersCost(cfg, workers) + WorkerCost(cfg, w)
  {
    var n := |workers| - 1;
    if t == n {
      assert workers[t := w][..n] == workers[..n];
    } else {
      WorkersCostMove(cfg, workers[..n], t, w);
      assert workers[t := w][..n] == workers[..n][t := w];
    }
  }

  lemma StackCostPush(cfg: Config, below: seq<Frame>, f: Frame)
    ensures StackCost(cfg, below + [f]) == StackCost(cfg, below) + FrameCost(cfg, f)
  {
    assert (below + [f])[..|below|] == below;
  }

  lemma WantedIsMentioned(cfg: Config, n: string)
    requires Wanted(cfg, n)
    ensures n in Mentioned(cfg)
  {
    var g, all := DepGraph(cfg), Mentioned(cfg);
    forall m, d | m in all && d in Succ(g, m) ensures d in all {
      var k :| 0 <= k < |Succ(g, m)| && Succ(g, m)[k] == d;
      assert d == Normalize(cfg.files[m][k]);
    }
    forall r | r in Names(cfg.start) ensures r in all {
      var k :| 0 <= k < |Names(cfg.start)| && Names(cfg.start)[k] == r;
      assert r == Normalize(cfg.start[k]);
    }
    ReachableInClosed(g, Names(cfg.start), all, n);
  }

  lemma PopDrops(cfg: Config, s: State, t: nat)
    requires t < |s.workers| && s.workers[t] == Running(None, [])
    ensures Measure(cfg, Pop(s, t)) == Measure(cfg, s) - 1
  {
    WorkersCostMove(cfg, s.workers, t, Pop(s, t).workers[t]);
  }

  lemma ReturnDrops(cfg: Config, s: State, t: nat, n: string, raw: string, stack: seq<Frame>)
    requires t < |s.workers| && s.workers[t] == Running(Some(raw), stack)
    requires n in s.modules && s.modules[n].Ready?
    ensures Measure(cfg, Lookup(s, t, n, stack)) == Measure(cfg, s) - 1
  {
    WorkersCostMove(cfg, s.workers, t, Running(None, stack));
  }

  lemma ClaimDrops(cfg: Config, s: State, t: nat, n: string, raw: string, stack: seq<Frame>)
    requires t < |s.workers| && s.workers[t] == Running(Some(raw), stack)
    requires n !in s.modules && n in Mentioned(cfg)
    ensures Measure(cfg, Lookup(s, t, n, stack)) == Measure(cfg, s) - 1
  {
    WorkersCostMove(cfg, s.workers, t, Running(None, stack + [Claimed(n)]));
    StackCostPush(cfg, stack, Claimed(n));
    var left := Mentioned(cfg) - s.modules.Keys;
    NamesCostWithout(cfg, left, n);
    assert Mentioned(cfg) - s.modules[n := Placeholder].Keys == left - {n};
  }

  lemma OpenDrops(cfg: Config, s: State, t: nat, below: seq<Frame>, n: string)
    requires t < |s.workers| && s.workers[t] == Running(None, below + [Claimed(n)]) && !s.aborted
    ensures Measure(cfg, Open(cfg, s, t, below, n)) == Measure(cfg, s) - 1
  {
    if n in cfg.files {
      var f := Loading(n, |s.parsed|, 0);
      WorkersCostMove(cfg, s.workers, t, Running(None, below + [f]));
      StackCostPush(cfg, below, f);
      StackCostPush(cfg, below, Claimed(n));
    }
  }

  lemma ProceedDrops(cfg: Config, s: State, t: nat, below: seq<Frame>, f: Frame)
    requires t < |s.workers| && s.workers[t] == Running(None, below + [f]) && f.Loading? && f.name in s.modules
    requires f.next <= |Deps(cfg, f.name)|
    ensures Measure(cfg, Proceed(cfg, s, t, below, f)) == Measure(cfg, s) - 1
  {
    var u := Proceed(cfg, s, t, below, f);
    WorkersCostMove(cfg, s.workers, t, u.workers[t]);
    StackCostPush(cfg, below, f);
    StackCostPush(cfg, below, f.(next := f.next + 1));
    assert u.modules.Keys == s.modules.Keys;
  }

  /** Whoever does not spin brings the measure down by one, and whoever spins changes nothing. */
  lemma StepDrops(cfg: Config, s: State, t: nat)
    requires Inv(cfg, s) && t < |s.workers|
    ensures Acts(s, t) ==> Measure(cfg, Step(cfg, s, t)) == Measure(cfg, s) - 1
    ensures !Acts(s, t) ==> Step(cfg, s, t) == s
  {
    if Acts(s, t) {
      var w := s.workers[t];
      if w.call.Some? {
        var n := Normalize(w.call.value);
        if n in s.modules {
          ReturnDrops(cfg, s, t, n, w.call.value, w.stack);
        } else {
          assert CallWanted(cfg, w);
          WantedIsMentioned(cfg, n);
          ClaimDrops(cfg, s, t, n, w.call.value, w.stack);
        }
      } else if w.stack == [] {
        PopDrops(cfg, s, t);
      } else {
        TopDrops(cfg, s, t);
      }
    }
  }

  lemma TopDrops(cfg: Config, s: State, t: nat)
    requires Inv(cfg, s) && t < |s.workers| && !s.aborted
    requires s.workers[t].Running? && s.workers[t].call.None? && s.workers[t].stack != []
    ensures Measure(cfg, Step(cfg, s, t)) == Measure(cfg, s) - 1
  {
    var w := s.workers[t];
    var below, f := w.stack[..|w.stack| - 1], w.stack[|w.stack| - 1];
    assert w.stack == below + [f];
    if f.Claimed? {
      OpenDrops(cfg, s, t, below, f.name);
    } else {
      TopIsOwned(s, t, below, f);
      assert WorkerOk(cfg, s.parsed, s.published, w);
      assert FrameOk(cfg, s.parsed, s.published, w, |below|);
      ProceedDrops(cfg, s, t, below, f);
    }
  }

  /** How many of the steps of a schedule are not spinning. */
  function Actions(cfg: Config, workers: nat, order: seq<nat>): nat
    requires Schedule(workers, order)
  {
    if order == [] then 0
    else
      Actions(cfg, workers, order[..|order| - 1])
      + if Acts(After(cfg, workers, order[..|order| - 1]), order[|order| - 1]) then 1 else 0
  }

  /** In every schedule the steps that do not spin use up exactly what the measure loses. */
  lemma {:induction false} ActionsAreCounted(cfg: Config, workers: nat, order: seq<nat>)
    requires Schedule(workers, order)
    ensures Actions(cfg, workers, order) + Measure(cfg, After(cfg, workers, order))
         == Measure(cfg, Init(cfg, workers))
  {
    if order != [] {
      var less := order[..|order| - 1];
      ActionsAreCounted(cfg, workers, less);
      ReachedInv(cfg, workers, less);
      StepDrops(cfg, After(cfg, workers, less), order[|order| - 1]);
    }
  }

  /** Whatever the interleaving, loading everything takes the same number of steps besides spinning. */
  lemma SameNumberOfActions(cfg: Config, workers: nat, one: seq<nat>, other: seq<nat>)
    requires workers > 0 && Schedule(workers, one) && Schedule(workers, other)
    requires Joined(After(cfg, workers, one)) && Joined(After(cfg, workers, other))
    ensures Actions(cfg, workers, one) == Actions(cfg, workers, other)
  {
    ActionsAreCounted(cfg, workers, one);
    ActionsAreCounted(cfg, workers, other);
    JoinedMeasure(cfg, workers, one);
    JoinedMeasure(cfg, workers, other);
    FinalState(cfg, workers, one);
    FinalState(cfg, workers, other);
    assert After(cfg, workers, one).modules.Keys == After(cfg, workers, other).modules.Keys;
  }

  lemma JoinedMeasure(cfg: Config, workers: nat, order: seq<nat>)
    requires workers > 0 && Schedule(workers, order) && Joined(After(cfg, workers, order))
    ensures var s := After(cfg, workers, order);
      Measure(cfg, s) == 1 + NamesCost(cfg, Mentioned(cfg) - s.modules.Keys)
  {
    var s := After(cfg, workers, order);
    ReachedInv(cfg, workers, order);
    assert s.workers[0].Returned?;
    ReturnedCost(cfg, s.workers);
  }

  lemma {:induction false} ReturnedCost(cfg: Config, workers: seq<Worker>)
    requires forall t | 0 <= t < |workers| :: workers[t].Returned?
    ensures WorkersCost(cfg, workers) == 0
  {
    if workers != [] {
      ReturnedCost(cfg, workers[..|workers| - 1]);
    }
  }
}
