/**
 When the recursive load of libraries ends at all. The map receives a library only behind its dependencies,
 so a cycle is followed for ever, unless something missing on the way to it fails an assertion first. The
 load is a function of a bound on its depth here; it ends if some bound is enough.
 */
module LibraryCycles {
  import opened Graphs
  import opened LibraryFiles

  datatype Outcome = TooDeep | Absent | Failed | Loaded(names: set<string>)

  /** `loadLibrary` for a canonical path, with the names that are in the map. */
  function Load(disk: Files, loaded: set<string>, f: string, depth: nat): (r: Outcome)
    ensures r.Absent? ==> f !in disk.needed
    decreases depth, 1, 0
  {
    if f in loaded then Loaded(loaded)
    else if f !in disk.needed then Absent
    else if depth == 0 then TooDeep
    else
      match LoadAll(disk, loaded, disk.needed[f], depth - 1)
      case Loaded(more) => Loaded(more + {f})
      case other => other
  }

  /** `loadDependencies`: one after the other, and an assertion fails when one is not there. */
  function LoadAll(disk: Files, loaded: set<string>, names: seq<string>, depth: nat): (r: Outcome)
    ensures !r.Absent?
    decreases depth, 2, |names|
  {
    if names == [] then Loaded(loaded)
    else
      match Load(disk, loaded, Target(disk, names[0]), depth)
      case Loaded(more) => LoadAll(disk, more, names[1..], depth)
      case Absent => Failed
      case other => other
  }

  ghost predicate Ends(disk: Files, f: string) {
    exists depth :: Load(disk, {}, f, depth) != TooDeep
  }

  // ---- The edges the load follows ---------------------------------------------------

  /** Nothing behind the file is missing or depends on itself. */
  ghost predicate Good(disk: Files, f: string) {
    AllThere(disk, f) && NoCycle(LibraryGraph(disk), [f])
  }

  ghost predicate AllGood(disk: Files, loaded: set<string>) {
    forall f | f in loaded :: Good(disk, f)
  }

  /** How many of the targets are entered: the good ones from the i-th on, and the first that is not. */
  ghost function Enters(disk: Files, targets: seq<string>, i: nat): (n: nat)
    requires i <= |targets|
    ensures i <= n <= |targets| && (i < |targets| ==> i < n)
    decreases |targets| - i
  {
    if i == |targets| then i
    else if Good(disk, targets[i]) then Enters(disk, targets, i + 1)
    else i + 1
  }

  ghost function EnteredTargets(disk: Files, names: seq<string>): seq<string> {
    var targets := Targets(disk, names);
    targets[..Enters(disk, targets, 0)]
  }

  /** The dependencies of every file up to the first that is not good: where the load goes at most. */
  ghost function EnteredGraph(disk: Files): Graph {
    map f | f in disk.needed :: EnteredTargets(disk, disk.needed[f])
  }

  lemma NextHasNoCycle(g: Graph, f: string)
    requires forall d | d in Succ(g, f) :: NoCycle(g, [d])
    ensures NoCycle(g, [f])
  {
    forall n, d | Reachable(g, [f], n) && d in Succ(g, n) ensures !Reaches(g, d, n) {
      if n == f {
        ReachesSelf(g, d);
        if Reaches(g, d, n) {
          assert Reachable(g, [d], n);
          assert false;
        }
      } else {
        ReachesFirst(g, f, n);
        var c :| c in Succ(g, f) && Reaches(g, c, n);
        assert Reachable(g, [c], n);
      }
    }
  }

  lemma NoCycleInPart(e: Graph, g: Graph, f: string)
    requires forall n, d | d in Succ(e, n) :: d in Succ(g, n)
    requires NoCycle(g, [f])
    ensures NoCycle(e, [f])
  {
    forall n, d | Reachable(e, [f], n) && d in Succ(e, n) ensures !Reaches(e, d, n) {
      ReachesInPart(e, g, f, n);
      assert Reachable(g, [f], n);
      if Reaches(e, d, n) {
        ReachesInPart(e, g, d, n);
      }
    }
  }

  lemma ReachesInPart(e: Graph, g: Graph, a: string, b: string)
    requires forall n, d | d in Succ(e, n) :: d in Succ(g, n)
    requires Reaches(e, a, b)
    ensures Reaches(g, a, b)
  {
    var p :| IsPath(e, p) && p[0] == a && p[|p| - 1] == b;
    assert IsPath(g, p);
  }

  lemma GoodIsNotCyclic(disk: Files, f: string)
    requires Good(disk, f)
    ensures NoCycle(EnteredGraph(disk), [f])
  {
    NoCycleInPart(EnteredGraph(disk), LibraryGraph(disk), f);
  }

  lemma GoodNext(disk: Files, f: string)
    requires f in disk.needed && forall d | d in Succ(LibraryGraph(disk), f) :: Good(disk, d)
    ensures Good(disk, f)
  {
    var g := LibraryGraph(disk);
    NextHasNoCycle(g, f);
    forall d | Reaches(g, f, d) ensures d in disk.needed {
      if d != f {
        ReachesFirst(g, f, d);
      }
    }
  }

  // ---- What is loaded is good, what fails is not ---------------------------------------

  lemma {:induction false} LoadedIsGood(disk: Files, loaded: set<string>, f: string, depth: nat)
    requires AllGood(disk, loaded) && Load(disk, loaded, f, depth).Loaded?
    ensures Good(disk, f) && AllGood(disk, Load(disk, loaded, f, depth).names)
    decreases depth, 1, 0
  {
    if f !in loaded {
      assert disk.needed[f][0..] == disk.needed[f];
      AllLoadedAreGood(disk, loaded, f, 0, depth - 1);
      forall d | d in Succ(LibraryGraph(disk), f) ensures Good(disk, d) {
        var k := EdgeIsTarget(disk, f, d);
      }
      GoodNext(disk, f);
    }
  }

  lemma {:induction false} AllLoadedAreGood(disk: Files, loaded: set<string>, f: string, i: nat, depth: nat)
    requires f in disk.needed && i <= |disk.needed[f]| && AllGood(disk, loaded)
    requires LoadAll(disk, loaded, disk.needed[f][i..], depth).Loaded?
    ensures AllGood(disk, LoadAll(disk, loaded, disk.needed[f][i..], depth).names)
    ensures forall k | i <= k < |disk.needed[f]| :: Good(disk, Target(disk, disk.needed[f][k]))
    decreases depth, 2, |disk.needed[f]| - i
  {
    var names := disk.needed[f][i..];
    if names != [] {
      var d := Target(disk, names[0]);
      LoadedIsGood(disk, loaded, d, depth);
      assert names[1..] == disk.needed[f][i + 1..];
      AllLoadedAreGood(disk, Load(disk, loaded, d, depth).names, f, i + 1, depth);
    }
  }

  lemma {:induction false} FailedIsMissing(disk: Files, loaded: set<string>, f: string, depth: nat)
    requires Load(disk, loaded, f, depth).Failed?
    ensures f in disk.needed && !AllThere(disk, f)
    decreases depth, 1, 0
  {
    assert disk.needed[f][0..] == disk.needed[f];
    SomeIsMissing(disk, loaded, f, 0, depth - 1);
  }

  lemma {:induction false} SomeIsMissing(disk: Files, loaded: set<string>, f: string, i: nat, depth: nat)
    requires f in disk.needed && i <= |disk.needed[f]|
    requires LoadAll(disk, loaded, disk.needed[f][i..], depth).Failed?
    ensures !AllThere(disk, f)
    decreases depth, 2, |disk.needed[f]| - i
  {
    var names := disk.needed[f][i..];
    var d := Target(disk, names[0]);
    TargetIsEdge(disk, f, i);
    assert names[1..] == disk.needed[f][i + 1..];
    match Load(disk, loaded, d, depth)
    case Loaded(more) => SomeIsMissing(disk, more, f, i + 1, depth);
    case Absent => MissingBelow(disk, f, d);
    case Failed =>
      FailedIsMissing(disk, loaded, d, depth);
      MissingBelow(disk, f, d);
    case TooDeep =>
  }

  lemma AbsentIsNotGood(disk: Files, f: string)
    requires f !in disk.needed
    ensures !Good(disk, f)
  {
    ReachesSelf(LibraryGraph(disk), f);
  }

  // ---- Without a cycle of entered edges the load ends -----------------------------------

  lemma EdgeFalls(g: Graph, rank: map<string, nat>, n: string, d: string)
    requires Ranks(g, [], rank) && n in rank && d in Succ(g, n)
    ensures d in rank && rank[d] < rank[n]
  {
  }

  lemma {:induction false} DeepEnough(disk: Files, rank: map<string, nat>, loaded: set<string>, f: string, depth: nat)
    requires Ranks(EnteredGraph(disk), [], rank) && f in rank && depth > rank[f] && AllGood(disk, loaded)
    ensures Load(disk, loaded, f, depth) != TooDeep
    decreases depth, 1, 0
  {
    if Load(disk, loaded, f, depth) == TooDeep {
      LoadIsTooDeep(disk, loaded, f, depth);
      AllDeepEnough(disk, rank, loaded, f, 0, depth - 1);
    }
  }

  lemma LoadIsTooDeep(disk: Files, loaded: set<string>, f: string, depth: nat)
    requires depth > 0 && Load(disk, loaded, f, depth) == TooDeep
    ensures f in disk.needed && LoadAll(disk, loaded, disk.needed[f][0..], depth - 1) == TooDeep
  {
    assert disk.needed[f][0..] == disk.needed[f];
  }

  lemma {:induction false} AllDeepEnough(disk: Files, rank: map<string, nat>, loaded: set<string>, f: string, i: nat,
    depth: nat)
    requires Ranks(EnteredGraph(disk), [], rank) && f in rank && depth >= rank[f] && AllGood(disk, loaded)
    requires f in disk.needed && i <= |disk.needed[f]| && EntersBeyond(disk, disk.needed[f], i)
    ensures LoadAll(disk, loaded, disk.needed[f][i..], depth) != TooDeep
    decreases depth, 2, |disk.needed[f]| - i
  {
    var names := disk.needed[f][i..];
    if names != [] {
      var d := Target(disk, disk.needed[f][i]);
      EnteredIsEdge(disk, f, i);
      EdgeFalls(EnteredGraph(disk), rank, f, d);
      DeepEnough(disk, rank, loaded, d, depth);
      assert names[0] == disk.needed[f][i] && names[1..] == disk.needed[f][i + 1..];
      match Load(disk, loaded, d, depth)
      case Loaded(more) =>
        LoadedIsGood(disk, loaded, d, depth);
        GoodIsPassed(disk, disk.needed[f], i);
        AllDeepEnough(disk, rank, more, f, i + 1, depth);
      case _ =>
    }
  }

  /** The first i are good, so it goes on to the next. */
  ghost predicate EntersBeyond(disk: Files, names: seq<string>, i: nat)
    requires i <= |names|
  {
    Enters(disk, Targets(disk, names), 0) == Enters(disk, Targets(disk, names), i)
  }

  lemma GoodIsPassed(disk: Files, names: seq<string>, i: nat)
    requires i < |names| && Good(disk, Target(disk, names[i])) && EntersBeyond(disk, names, i)
    ensures EntersBeyond(disk, names, i + 1)
  {
    assert Targets(disk, names)[i] == Target(disk, names[i]);
  }

  lemma EnteredIsEdge(disk: Files, f: string, i: nat)
    requires f in disk.needed && i < |disk.needed[f]| && EntersBeyond(disk, disk.needed[f], i)
    ensures Target(disk, disk.needed[f][i]) in Succ(EnteredGraph(disk), f)
  {
    assert i < Enters(disk, Targets(disk, disk.needed[f]), i);
    assert EnteredTargets(disk, disk.needed[f])[i] == Target(disk, disk.needed[f][i]);
  }

  // ---- What ends has no cycle of entered edges ------------------------------------------

  lemma {:induction false} EndedHasNoCycle(disk: Files, loaded: set<string>, f: string, depth: nat)
    requires AllGood(disk, loaded) && Load(disk, loaded, f, depth) != TooDeep
    ensures NoCycle(EnteredGraph(disk), [f])
    decreases depth, 1, 0
  {
    match Load(disk, loaded, f, depth)
    case Loaded(_) =>
      LoadedIsGood(disk, loaded, f, depth);
      GoodIsNotCyclic(disk, f);
    case Absent => NextHasNoCycle(EnteredGraph(disk), f);
    case Failed =>
      assert disk.needed[f][0..] == disk.needed[f];
      AllEndedHaveNoCycle(disk, loaded, f, 0, depth - 1);
      NextHasNoCycle(EnteredGraph(disk), f);
  }

  lemma {:induction false} AllEndedHaveNoCycle(disk: Files, loaded: set<string>, f: string, i: nat, depth: nat)
    requires AllGood(disk, loaded) && f in disk.needed && i <= |disk.needed[f]|
    requires EntersBeyond(disk, disk.needed[f], i) && FirstHaveNoCycle(disk, disk.needed[f], i)
    requires LoadAll(disk, loaded, disk.needed[f][i..], depth) != TooDeep
    ensures forall d | d in Succ(EnteredGraph(disk), f) :: NoCycle(EnteredGraph(disk), [d])
    decreases depth, 2, |disk.needed[f]| - i
  {
    var names := disk.needed[f][i..];
    if names == [] {
      TheseAreEntered(disk, f, i);
    } else {
      var d := Target(disk, disk.needed[f][i]);
      assert names[0] == disk.needed[f][i] && names[1..] == disk.needed[f][i + 1..];
      EndedHasNoCycle(disk, loaded, d, depth);
      match Load(disk, loaded, d, depth)
      case Loaded(more) =>
        LoadedIsGood(disk, loaded, d, depth);
        GoodIsPassed(disk, disk.needed[f], i);
        AllEndedHaveNoCycle(disk, more, f, i + 1, depth);
      case Absent =>
        AbsentIsNotGood(disk, d);
        TheseAreEntered(disk, f, i);
      case Failed =>
        FailedIsMissing(disk, loaded, d, depth);
        TheseAreEntered(disk, f, i);
    }
  }

  ghost predicate FirstHaveNoCycle(disk: Files, names: seq<string>, n: nat)
    requires n <= |names|
  {
    forall k | 0 <= k < n :: NoCycle(EnteredGraph(disk), [Target(disk, names[k])])
  }

  lemma StopsThere(disk: Files, names: seq<string>, i: nat, k: nat)
    requires i <= |names| && EntersBeyond(disk, names, i) && k < |EnteredTargets(disk, names)|
    requires i < |names| ==> !Good(disk, Target(disk, names[i]))
    ensures k <= i && k < |names| && EnteredTargets(disk, names)[k] == Target(disk, names[k])
  {
  }

  lemma TheseAreEntered(disk: Files, f: string, i: nat)
    requires f in disk.needed && i <= |disk.needed[f]|
    requires EntersBeyond(disk, disk.needed[f], i) && FirstHaveNoCycle(disk, disk.needed[f], i)
    requires i < |disk.needed[f]| ==> !Good(disk, Target(disk, disk.needed[f][i]))
    requires i < |disk.needed[f]| ==> NoCycle(EnteredGraph(disk), [Target(disk, disk.needed[f][i])])
    ensures forall d | d in Succ(EnteredGraph(disk), f) :: NoCycle(EnteredGraph(disk), [d])
  {
    var names := disk.needed[f];
    assert Succ(EnteredGraph(disk), f) == EnteredTargets(disk, names);
    forall d | d in EnteredTargets(disk, names) ensures NoCycle(EnteredGraph(disk), [d]) {
      var k :| 0 <= k < |EnteredTargets(disk, names)| && EnteredTargets(disk, names)[k] == d;
      StopsThere(disk, names, i, k);
    }
  }

  // ---- The condition --------------------------------------------------------------------

  lemma RankingOf(g: Graph, roots: seq<string>, f: string) returns (rank: map<string, nat>)
    requires NoCycle(g, roots) && f in roots
    ensures Ranks(g, [], rank) && f in rank
  {
    AcyclicIff(g, roots);
    rank :| Ranks(g, roots, rank);
  }

  /**
   The load ends exactly if no cycle can be met: if there is none along dependencies before which, in every
   file on the way, everything is good.
   */
  lemma EndsIff(disk: Files, f: string)
    ensures Ends(disk, f) <==> NoCycle(EnteredGraph(disk), [f])
  {
    if NoCycle(EnteredGraph(disk), [f]) {
      var rank := RankingOf(EnteredGraph(disk), [f], f);
      DeepEnough(disk, rank, {}, f, rank[f] + 1);
    }
    if Ends(disk, f) {
      var depth :| Load(disk, {}, f, depth) != TooDeep;
      EndedHasNoCycle(disk, {}, f, depth);
    }
  }

  /** Without any cycle the load ends, whatever is missing; and if nothing is missing, only then. */
  lemma EndsIffNoCycle(disk: Files, f: string)
    ensures NoCycle(LibraryGraph(disk), [f]) ==> Ends(disk, f)
    ensures AllThere(disk, f) ==> (Ends(disk, f) <==> NoCycle(LibraryGraph(disk), [f]))
  {
    EndsIff(disk, f);
    if NoCycle(LibraryGraph(disk), [f]) {
      NoCycleInPart(EnteredGraph(disk), LibraryGraph(disk), f);
    } else if AllThere(disk, f) && Ends(disk, f) {
      var depth :| Load(disk, {}, f, depth) != TooDeep;
      ReachesSelf(LibraryGraph(disk), f);
      if Load(disk, {}, f, depth).Failed? {
        FailedIsMissing(disk, {}, f, depth);
      }
      LoadedIsGood(disk, {}, f, depth);
    }
  }

  // ---- The bound does not matter ----------------------------------------------------------

  lemma LoadGoesOn(disk: Files, loaded: set<string>, f: string, depth: nat, rest: nat, failed: bool, all: set<string>)
    requires f !in loaded && f in disk.needed && depth == rest + 1
    requires LoadAll(disk, loaded, disk.needed[f], rest) == if failed then Failed else Loaded(all)
    ensures Load(disk, loaded, f, depth) == if failed then Failed else Loaded(all + {f})
  {
  }

  lemma LoadAllGoesOn(disk: Files, loaded: set<string>, names: seq<string>, i: nat, depth: nat)
    requires i < |names|
    ensures LoadAll(disk, loaded, names[i..], depth) ==
      match Load(disk, loaded, Target(disk, names[i]), depth)
      case Loaded(more) => LoadAll(disk, more, names[i + 1..], depth)
      case Absent => Failed
      case other => other
  {
    assert names[i..][0] == names[i] && names[i..][1..] == names[i + 1..];
  }

  lemma {:induction false} DeeperIsSame(disk: Files, loaded: set<string>, f: string, depth: nat, more: nat)
    requires depth <= more && Load(disk, loaded, f, depth) != TooDeep
    ensures Load(disk, loaded, f, more) == Load(disk, loaded, f, depth)
    decreases depth, 1, 0
  {
    if f !in loaded && f in disk.needed {
      AllDeeperIsSame(disk, loaded, disk.needed[f], depth - 1, more - 1);
    }
  }

  lemma {:induction false} AllDeeperIsSame(disk: Files, loaded: set<string>, names: seq<string>, depth: nat, more: nat)
    requires depth <= more && LoadAll(disk, loaded, names, depth) != TooDeep
    ensures LoadAll(disk, loaded, names, more) == LoadAll(disk, loaded, names, depth)
    decreases depth, 2, |names|
  {
    if names != [] {
      var d := Target(disk, names[0]);
      DeeperIsSame(disk, loaded, d, depth, more);
      match Load(disk, loaded, d, depth)
      case Loaded(all) => AllDeeperIsSame(disk, all, names[1..], depth, more);
      case _ =>
    }
  }

  /** If a bound is enough, a ranking of the edges the load enters, and a bound above it with the same outcome. */
  lemma Enough(disk: Files, f: string, depth: nat) returns (rank: map<string, nat>, enough: nat)
    requires Load(disk, {}, f, depth) != TooDeep
    ensures Ranks(EnteredGraph(disk), [], rank) && f in rank && enough > rank[f]
    ensures Load(disk, {}, f, enough) == Load(disk, {}, f, depth)
  {
    EndedHasNoCycle(disk, {}, f, depth);
    rank := RankingOf(EnteredGraph(disk), [f], f);
    enough := rank[f] + 1 + depth;
    DeeperIsSame(disk, {}, f, depth, enough);
  }

  lemma EnteredReach(disk: Files, a: string, b: string)
    requires Reaches(EnteredGraph(disk), a, b)
    ensures Reaches(LibraryGraph(disk), a, b)
  {
    ReachesInPart(EnteredGraph(disk), LibraryGraph(disk), a, b);
  }

  /** A library that asks for itself. */
  lemma SelfIsEndless()
    ensures var disk: Files := Disk(map["libself.so" := "/libself.so"], map["/libself.so" := ["libself.so"]]);
      AllThere(disk, "/libself.so") && !Ends(disk, "/libself.so")
  {
    var disk: Files := Disk(map["libself.so" := "/libself.so"], map["/libself.so" := ["libself.so"]]);
    forall d | Reaches(LibraryGraph(disk), "/libself.so", d) ensures d in disk.needed {
      assert Reachable(LibraryGraph(disk), ["/libself.so"], d);
      ReachableInClosed(LibraryGraph(disk), ["/libself.so"], {"/libself.so"}, d);
    }
    forall depth ensures Load(disk, {}, "/libself.so", depth) == TooDeep {
      NeverDeepEnough(disk, "libself.so", "/libself.so", depth);
    }
  }

  lemma {:induction false} NeverDeepEnough(disk: Files, name: string, f: string, depth: nat)
    requires f in disk.needed && disk.needed[f] == [name] && Target(disk, name) == f
    ensures Load(disk, {}, f, depth) == TooDeep
  {
    if depth > 0 {
      NeverDeepEnough(disk, name, f, depth - 1);
      assert LoadAll(disk, {}, [name], depth - 1) == TooDeep;
    }
  }
}
