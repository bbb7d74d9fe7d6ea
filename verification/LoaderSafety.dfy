/** What holds after every schedule of the module loading protocol, and when all workers have joined. */
module LoaderSafety {
  import opened Options
  import opened Graphs
  import opened ModuleNames
  import opened ModuleLoader

  /** Worker t is in the i-th of its nested activations for this name. */
  predicate Holds(s: State, t: nat, i: nat, n: string) {
    t < |s.workers| && i < |Stack(s.workers[t])| && Stack(s.workers[t])[i].name == n
  }

  lemma HolderIsOwner(s: State, t: nat, i: nat, n: string)
    requires Ownership(s) && Holds(s, t, i, n)
    ensures n in s.modules && s.modules[n].Placeholder? && n in s.owner && s.owner[n] == (t, i)
  {
    assert FramesOwned(s, t);
  }

  lemma ClaimIsHeld(s: State, n: string)
    requires Ownership(s)
    ensures (n in s.modules && s.modules[n].Placeholder?) <==> exists t, i :: Holds(s, t, i, n)
  {
    if n in s.modules && s.modules[n].Placeholder? {
      assert HasOwner(s, n);
      assert Holds(s, s.owner[n].0, s.owner[n].1, n);
    }
    if t, i :| Holds(s, t, i, n) {
      HolderIsOwner(s, t, i, n);
    }
  }

  /** An empty entry is on some worker's stack, and nothing else is. */
  lemma ClaimIff(cfg: Config, workers: nat, order: seq<nat>, n: string)
    requires Schedule(workers, order)
    ensures var s := After(cfg, workers, order);
      (n in s.modules && s.modules[n].Placeholder?) <==> exists t, i :: Holds(s, t, i, n)
  {
    ReachedInv(cfg, workers, order);
    ClaimIsHeld(After(cfg, workers, order), n);
  }

  /** No name is on two stacks, nor twice on one. */
  lemma SingleOwner(cfg: Config, workers: nat, order: seq<nat>, n: string, t: nat, i: nat, v: nat, j: nat)
    requires Schedule(workers, order)
    requires Holds(After(cfg, workers, order), t, i, n) && Holds(After(cfg, workers, order), v, j, n)
    ensures t == v && i == j
  {
    ReachedInv(cfg, workers, order);
    HolderIsOwner(After(cfg, workers, order), t, i, n);
    HolderIsOwner(After(cfg, workers, order), v, j, n);
  }

  /** No file is parsed twice, and an object stands for the name it was parsed for. */
  lemma ParsedOnce(cfg: Config, workers: nat, order: seq<nat>)
    requires Schedule(workers, order)
    ensures var s := After(cfg, workers, order);
      && (forall j, k | 0 <= j < |s.parsed| && 0 <= k < |s.parsed| && s.parsed[j] == s.parsed[k] :: j == k)
      && (forall n | n in s.modules && s.modules[n].Ready? ::
        s.modules[n].id < |s.parsed| && s.parsed[s.modules[n].id] == n)
  {
    var s := After(cfg, workers, order);
    ReachedInv(cfg, workers, order);
    forall j, k | 0 <= j < |s.parsed| && 0 <= k < |s.parsed| && s.parsed[j] == s.parsed[k] ensures j == k {
      assert ParsedAt(s, j) && ParsedAt(s, k);
    }
    forall n | n in s.modules && s.modules[n].Ready?
      ensures s.modules[n].id < |s.parsed| && s.parsed[s.modules[n].id] == n
    {
      assert ReadyAt(s, n);
    }
  }

  lemma StepKeepsEntry(cfg: Config, s: State, t: nat, n: string)
    requires Ownership(s) && t < |s.workers| && n in s.modules
    ensures n in Step(cfg, s, t).modules
    ensures s.modules[n].Ready? ==> Step(cfg, s, t).modules[n] == s.modules[n]
  {
    var w := s.workers[t];
    if w.Running? && w.call.None? && w.stack != [] {
      var below, f := w.stack[..|w.stack| - 1], w.stack[|w.stack| - 1];
      assert w.stack == below + [f];
      TopIsOwned(s, t, below, f);
      if !s.aborted && f.Loading? {
        ProceedKeepsEntry(cfg, s, t, below, f, n);
      }
    }
  }

  lemma ProceedKeepsEntry(cfg: Config, s: State, t: nat, below: seq<Frame>, f: Frame, n: string)
    requires t < |s.workers| && n in s.modules && f.Loading?
    requires f.name in s.modules && s.modules[f.name].Placeholder?
    ensures n in Proceed(cfg, s, t, below, f).modules
    ensures s.modules[n].Ready? ==> Proceed(cfg, s, t, below, f).modules[n] == s.modules[n]
  {
  }

  /** A claim is never withdrawn, and a published pointer never changes. */
  lemma {:induction false} EntryKept(cfg: Config, workers: nat, order: seq<nat>, more: seq<nat>, n: string)
    requires Schedule(workers, order) && Schedule(workers, order + more)
    requires n in After(cfg, workers, order).modules
    ensures n in After(cfg, workers, order + more).modules
    ensures After(cfg, workers, order).modules[n].Ready? ==>
              After(cfg, workers, order + more).modules[n] == After(cfg, workers, order).modules[n]
    decreases |more|
  {
    if more == [] {
      assert order + more == order;
    } else {
      var less, t := order + more[..|more| - 1], more[|more| - 1];
      assert (order + more)[..|order + more| - 1] == less && (order + more)[|order + more| - 1] == t;
      EntryKept(cfg, workers, order, more[..|more| - 1], n);
      ReachedInv(cfg, workers, less);
      StepKeepsEntry(cfg, After(cfg, workers, less), t, n);
    }
  }

  /** Everything a published module depends on is published too, and was so before it. */
  lemma DependenciesFirst(cfg: Config, workers: nat, order: seq<nat>, n: string, k: nat)
    requires Schedule(workers, order) && k < |Deps(cfg, n)|
    requires n in After(cfg, workers, order).modules && After(cfg, workers, order).modules[n].Ready?
    ensures var s := After(cfg, workers, order);
      var d := Normalize(Deps(cfg, n)[k]);
      && d in s.modules && s.modules[d].Ready?
      && exists i, j :: 0 <= i < j < |s.published| && s.published[i] == d && s.published[j] == n
  {
    var s := After(cfg, workers, order);
    var d := Normalize(Deps(cfg, n)[k]);
    ReachedInv(cfg, workers, order);
    assert ReadyAt(s, n);
    var j :| 0 <= j < |s.published| && s.published[j] == n;
    assert PublishedAt(cfg, s, j);
    assert d in s.published[..j];
    var i :| 0 <= i < j && s.published[..j][i] == d;
    assert PublishedAt(cfg, s, i) && s.published[i] == d;
  }

  /** The map holds normalised names only. */
  lemma KeysAreNormal(cfg: Config, workers: nat, order: seq<nat>, n: string)
    requires Schedule(workers, order) && n in After(cfg, workers, order).modules
    ensures '-' !in n
  {
    ReachedInv(cfg, workers, order);
    WantedIsNormal(cfg, n);
  }

  lemma WantedIsNormal(cfg: Config, n: string)
    requires Wanted(cfg, n)
    ensures '-' !in n
  {
    var g := DepGraph(cfg);
    var r :| r in Names(cfg.start) && Reaches(g, r, n);
    var p :| IsPath(g, p) && p[0] == r && p[|p| - 1] == n;
    if |p| == 1 {
      NamesAreNormal(cfg.start, n);
    } else {
      assert p[|p| - 2 + 1] in Succ(g, p[|p| - 2]);
      NamesAreNormal(cfg.files[p[|p| - 2]], n);
    }
  }

  lemma NamesAreNormal(raw: seq<string>, n: string)
    requires n in Names(raw)
    ensures '-' !in n
  {
    var k :| 0 <= k < |Names(raw)| && Names(raw)[k] == n;
    assert n == Normalize(raw[k]);
  }

  /**
   The closing assertion: once every worker has returned, the map's keys are exactly the names
   reachable from the list, and none of the entries is empty.
   */
  lemma FinalState(cfg: Config, workers: nat, order: seq<nat>)
    requires Schedule(workers, order) && workers > 0 && Joined(After(cfg, workers, order))
    ensures var s := After(cfg, workers, order);
      && (forall n :: n in s.modules <==> Wanted(cfg, n))
      && (forall n | n in s.modules :: s.modules[n].Ready? && n in cfg.files && n in s.published)
  {
    var s := After(cfg, workers, order);
    ReachedInv(cfg, workers, order);
    assert s.workers[0].Returned?;
    forall n | n in s.modules ensures s.modules[n].Ready? && n in cfg.files && n in s.published {
      assert s.modules[n].Placeholder? ==> HasOwner(s, n);
      assert ReadyAt(s, n);
      var k :| 0 <= k < |s.published| && s.published[k] == n;
      assert PublishedAt(cfg, s, k);
    }
    forall n | Wanted(cfg, n) ensures n in s.modules {
      JoinedIsClosed(cfg, workers, order);
      ReachableInClosed(DepGraph(cfg), Names(cfg.start), s.modules.Keys, n);
    }
  }

  lemma JoinedIsClosed(cfg: Config, workers: nat, order: seq<nat>)
    requires Schedule(workers, order) && workers > 0 && Joined(After(cfg, workers, order))
    ensures var keys := After(cfg, workers, order).modules.Keys;
      Closed(DepGraph(cfg), keys) && forall r | r in Names(cfg.start) :: r in keys
  {
    var s := After(cfg, workers, order);
    ReachedInv(cfg, workers, order);
    assert s.workers[0].Returned?;
    forall n, d | n in s.modules && d in Succ(DepGraph(cfg), n) ensures d in s.modules {
      assert s.modules[n].Placeholder? ==> HasOwner(s, n);
      var k :| 0 <= k < |Names(Deps(cfg, n))| && Names(Deps(cfg, n))[k] == d;
      DependenciesFirst(cfg, workers, order, n, k);
    }
    forall r | r in Names(cfg.start) ensures r in s.modules {
      var k :| 0 <= k < |Names(cfg.start)| && Names(cfg.start)[k] == r;
      assert Taken(s, cfg.start[k]);
    }
  }

  /**
   The number of workers is what the machine reports, which may be zero; then nothing is loaded. So the
   map is complete when all workers have joined exactly if there was a worker or nothing to do.
   */
  lemma CompleteIff(cfg: Config, workers: nat, order: seq<nat>)
    requires Schedule(workers, order) && Joined(After(cfg, workers, order))
    ensures (forall n :: n in After(cfg, workers, order).modules <==> Wanted(cfg, n))
       <==> workers > 0 || cfg.start == []
  {
    if order != [] {
      SomebodySteps(workers, order);
    }
    if workers > 0 {
      FinalState(cfg, workers, order);
    } else if cfg.start == [] {
      assert forall n :: !Wanted(cfg, n);
    } else {
      StartWanted(cfg, 0);
    }
  }

  lemma SomebodySteps(workers: nat, order: seq<nat>)
    requires Schedule(workers, order) && order != []
    ensures workers > 0
  {
    assert order[0] < workers;
  }
}
