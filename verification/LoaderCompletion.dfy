/** When the module loading protocol ends with everything loaded, under any fair schedule. */
module LoaderCompletion {
  import opened Graphs
  import opened ModuleNames
  import opened ModuleLoader
  import opened LoaderSafety
  import opened LoaderLiveness

  ghost predicate ComesUp(f: nat -> nat, t: nat, i: nat) {
    exists j: nat :: j >= i && f(j) == t
  }

  /** An infinite schedule in which every worker runs again and again. */
  ghost predicate Fair(f: nat -> nat, workers: nat) {
    && (forall i: nat :: f(i) < workers)
    && (forall t: nat, i: nat | t < workers :: ComesUp(f, t, i))
  }

  function Prefix(f: nat -> nat, i: nat): seq<nat> {
    if i == 0 then [] else Prefix(f, i - 1) + [f(i - 1)]
  }

  lemma {:induction false} PrefixIsSchedule(f: nat -> nat, workers: nat, i: nat)
    requires forall j: nat :: f(j) < workers
    ensures Schedule(workers, Prefix(f, i)) && |Prefix(f, i)| == i
  {
    if i > 0 {
      PrefixIsSchedule(f, workers, i - 1);
    }
  }

  ghost function At(cfg: Config, f: nat -> nat, workers: nat, i: nat): (s: State)
    requires forall j: nat :: f(j) < workers
    ensures |s.workers| == workers
  {
    if i == 0 then Init(cfg, workers) else Step(cfg, At(cfg, f, workers, i - 1), f(i - 1))
  }

  lemma {:induction false} AtIsAfter(cfg: Config, f: nat -> nat, workers: nat, i: nat)
    requires forall j: nat :: f(j) < workers
    ensures Schedule(workers, Prefix(f, i)) && At(cfg, f, workers, i) == After(cfg, workers, Prefix(f, i))
  {
    PrefixIsSchedule(f, workers, i);
    if i > 0 {
      AtIsAfter(cfg, f, workers, i - 1);
      assert Prefix(f, i)[..i - 1] == Prefix(f, i - 1);
    }
  }

  lemma AtInv(cfg: Config, f: nat -> nat, workers: nat, i: nat)
    requires forall j: nat :: f(j) < workers
    ensures Inv(cfg, At(cfg, f, workers, i))
  {
    AtIsAfter(cfg, f, workers, i);
    ReachedInv(cfg, workers, Prefix(f, i));
  }

  lemma AtDrops(cfg: Config, f: nat -> nat, workers: nat, i: nat)
    requires forall j: nat :: f(j) < workers
    ensures Acts(At(cfg, f, workers, i), f(i)) ==>
              Measure(cfg, At(cfg, f, workers, i + 1)) < Measure(cfg, At(cfg, f, workers, i))
    ensures !Acts(At(cfg, f, workers, i), f(i)) ==> At(cfg, f, workers, i + 1) == At(cfg, f, workers, i)
  {
    AtInv(cfg, f, workers, i);
    StepDrops(cfg, At(cfg, f, workers, i), f(i));
  }

  /** From the i-th state up to a turn of a worker that can act, the measure drops. */
  lemma {:induction false} DropsBefore(cfg: Config, f: nat -> nat, workers: nat, i: nat, j: nat) returns (k: nat)
    requires forall m: nat :: f(m) < workers
    requires i <= j && Acts(At(cfg, f, workers, i), f(j))
    ensures Measure(cfg, At(cfg, f, workers, k)) < Measure(cfg, At(cfg, f, workers, i))
    decreases j - i
  {
    var next := i + 1;
    AtDrops(cfg, f, workers, i);
    if Acts(At(cfg, f, workers, i), f(i)) {
      k := next;
    } else {
      assert At(cfg, f, workers, next) == At(cfg, f, workers, i) && i != j;
      k := DropsBefore(cfg, f, workers, next, j);
    }
  }

  /** With acyclic dependencies every fair schedule stops: all workers return, or the program aborts. */
  lemma {:induction false} FairStops(cfg: Config, f: nat -> nat, workers: nat, i: nat) returns (k: nat)
    requires Fair(f, workers) && AcyclicDeps(cfg)
    ensures At(cfg, f, workers, k).aborted || Joined(At(cfg, f, workers, k))
    decreases Measure(cfg, At(cfg, f, workers, i))
  {
    var s := At(cfg, f, workers, i);
    if s.aborted || Joined(s) {
      k := i;
    } else {
      AtInv(cfg, f, workers, i);
      var rank := ReachedIsRanked(cfg, s);
      SomebodyActs(cfg, rank, s);
      var t: nat :| t < |s.workers| && Acts(s, t);
      assert ComesUp(f, t, i);
      var j: nat :| j >= i && f(j) == t;
      var next := DropsBefore(cfg, f, workers, i, j);
      k := FairStops(cfg, f, workers, next);
    }
  }

  /** The main result: every fair schedule loads everything, if nothing is cyclic and no file is missing. */
  lemma FairCompletes(cfg: Config, f: nat -> nat, workers: nat)
    requires Fair(f, workers) && AcyclicDeps(cfg) && AllFilesExist(cfg)
    ensures exists k: nat :: Joined(At(cfg, f, workers, k))
  {
    var k := FairStops(cfg, f, workers, 0);
    AtInv(cfg, f, workers, k);
    assert Joined(At(cfg, f, workers, k));
  }

  /** The order in which modules were published ranks them. */
  function PlaceOf(published: seq<string>, n: string): nat
    requires n in published
  {
    if published[|published| - 1] == n then |published| - 1 else PlaceOf(published[..|published| - 1], n)
  }

  lemma {:induction false} PlaceOfAt(published: seq<string>, n: string)
    requires n in published
    ensures PlaceOf(published, n) < |published| && published[PlaceOf(published, n)] == n
  {
    if published[|published| - 1] != n {
      PlaceOfAt(published[..|published| - 1], n);
    }
  }

  lemma JoinedIsRanked(cfg: Config, workers: nat, order: seq<nat>) returns (rank: map<string, nat>)
    requires workers > 0 && Schedule(workers, order) && Joined(After(cfg, workers, order))
    ensures Ranks(DepGraph(cfg), Names(cfg.start), rank)
  {
    var s := After(cfg, workers, order);
    JoinedIsPublished(cfg, workers, order);
    JoinedIsClosed(cfg, workers, order);
    rank := map n | n in s.modules :: PlaceOf(s.published, n);
    forall n, d | n in rank && d in Succ(DepGraph(cfg), n) ensures d in rank && rank[d] < rank[n] {
      PublishedInOrder(cfg, workers, order, n, d);
    }
  }

  lemma JoinedIsPublished(cfg: Config, workers: nat, order: seq<nat>)
    requires workers > 0 && Schedule(workers, order) && Joined(After(cfg, workers, order))
    ensures forall n | n in After(cfg, workers, order).modules :: n in After(cfg, workers, order).published
  {
    FinalState(cfg, workers, order);
  }

  /** Nothing but an acyclic graph with all its files can be loaded. */
  lemma JoinedIsAcyclic(cfg: Config, workers: nat, order: seq<nat>)
    requires workers > 0 && Schedule(workers, order) && Joined(After(cfg, workers, order))
    ensures AcyclicDeps(cfg) && AllFilesExist(cfg)
  {
    var rank := JoinedIsRanked(cfg, workers, order);
    FinalState(cfg, workers, order);
  }

  lemma PublishedInOrder(cfg: Config, workers: nat, order: seq<nat>, n: string, d: string)
    requires workers > 0 && Schedule(workers, order) && Joined(After(cfg, workers, order))
    requires n in After(cfg, workers, order).modules && d in Succ(DepGraph(cfg), n)
    ensures var s := After(cfg, workers, order);
      n in s.published && d in s.published && PlaceOf(s.published, d) < PlaceOf(s.published, n)
  {
    var s := After(cfg, workers, order);
    FinalState(cfg, workers, order);
    ReachedInv(cfg, workers, order);
    PlaceOfAt(s.published, n);
    var k := PlaceOf(s.published, n);
    assert PublishedAt(cfg, s, k);
    var i :| 0 <= i < |Succ(DepGraph(cfg), n)| && Succ(DepGraph(cfg), n)[i] == d;
    assert d == Normalize(cfg.files[n][i]);
    assert d in s.published[..k];
    PlaceOfAt(s.published, d);
    PlacesAreUnique(cfg, s, d, k);
  }

  lemma PlacesAreUnique(cfg: Config, s: State, d: string, k: nat)
    requires Logs(cfg, s) && k <= |s.published| && d in s.published[..k]
    requires PlaceOf(s.published, d) < |s.published| && s.published[PlaceOf(s.published, d)] == d
    ensures PlaceOf(s.published, d) < k
  {
    assert PublishedAt(cfg, s, PlaceOf(s.published, d));
  }

  /** Every worker in turn. */
  function Turn(workers: nat, i: nat): (t: nat)
    requires workers > 0
    ensures t < workers
  {
    if i == 0 || Turn(workers, i - 1) + 1 == workers then 0 else Turn(workers, i - 1) + 1
  }

  lemma {:induction false} TurnComes(workers: nat, t: nat, i: nat) returns (j: nat)
    requires t < workers
    ensures j >= i && Turn(workers, j) == t
    decreases if Turn(workers, i) <= t then t - Turn(workers, i) else t + workers - Turn(workers, i)
  {
    if Turn(workers, i) == t {
      j := i;
    } else {
      j := TurnComes(workers, t, i + 1);
    }
  }

  lemma RoundRobinIsFair(workers: nat)
    requires workers > 0
    ensures Fair((i: nat) => Turn(workers, i), workers)
  {
    var f := (i: nat) => Turn(workers, i);
    forall t: nat, i: nat | t < workers ensures ComesUp(f, t, i) {
      var j := TurnComes(workers, t, i);
      assert f(j) == t;
    }
  }

  /** Some schedule loads everything exactly if dependencies are acyclic and every file is there. */
  lemma CompletionIff(cfg: Config, workers: nat)
    requires workers > 0
    ensures (exists order :: Schedule(workers, order) && Joined(After(cfg, workers, order)))
       <==> AcyclicDeps(cfg) && AllFilesExist(cfg)
  {
    if order :| Schedule(workers, order) && Joined(After(cfg, workers, order)) {
      JoinedIsAcyclic(cfg, workers, order);
    }
    if AcyclicDeps(cfg) && AllFilesExist(cfg) {
      var f := (i: nat) => Turn(workers, i);
      RoundRobinIsFair(workers);
      FairCompletes(cfg, f, workers);
      var k: nat :| Joined(At(cfg, f, workers, k));
      AtIsAfter(cfg, f, workers, k);
      assert Joined(After(cfg, workers, Prefix(f, k)));
    }
  }

  /** The same in terms of the names alone: nobody depends on itself, and every file is there. */
  lemma LoadsIffNoCycle(cfg: Config, workers: nat)
    requires workers > 0
    ensures (exists order :: Schedule(workers, order) && Joined(After(cfg, workers, order)))
       <==> NoCycle(DepGraph(cfg), Names(cfg.start)) && forall n | Wanted(cfg, n) :: n in cfg.files
  {
    CompletionIff(cfg, workers);
    AcyclicIff(DepGraph(cfg), Names(cfg.start));
  }

  /** With acyclic dependencies but a file missing, every fair schedule ends in the failed assertion. */
  lemma MissingFileAborts(cfg: Config, f: nat -> nat, workers: nat)
    requires workers > 0 && Fair(f, workers) && AcyclicDeps(cfg) && !AllFilesExist(cfg)
    ensures exists k: nat :: At(cfg, f, workers, k).aborted
  {
    var k := FairStops(cfg, f, workers, 0);
    AtIsAfter(cfg, f, workers, k);
    if Joined(At(cfg, f, workers, k)) {
      JoinedIsAcyclic(cfg, workers, Prefix(f, k));
    }
    assert At(cfg, f, workers, k).aborted;
  }
}
