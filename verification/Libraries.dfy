/**
 Shared libraries of a process: a memoised depth-first load over the dependency graph, and the
 recursive question whether one library depends on another.
 */
module Libraries {
  import opened Graphs
  import opened LibraryFiles
  import opened LibraryCycles

  ghost predicate NoRepeats(s: seq<string>) {
    forall i, j | 0 <= i < j < |s| :: s[i] != s[j]
  }

  /** Every file is parsed at most once: those parsed are the loaded ones and the ones being loaded. */
  ghost predicate Log(parsed: seq<string>, loaded: set<string>, open: set<string>) {
    NoRepeats(parsed) && open !! loaded && forall f :: f in parsed <==> f in loaded || f in open
  }

  /** The names in `now` but not in `was` are reached from the root. */
  ghost predicate Added(g: Graph, root: string, was: set<string>, now: set<string>) {
    was <= now && forall f | f in now && f !in was :: Reaches(g, root, f)
  }

  lemma AddedBelow(g: Graph, n: string, d: string, was: set<string>, mid: set<string>, now: set<string>)
    requires Added(g, n, was, mid) && Added(g, d, mid, now) && d in Succ(g, n)
    ensures Added(g, n, was, now)
  {
    forall f | f in now && f !in was ensures Reaches(g, n, f) {
      if f !in mid {
        ReachesBefore(g, n, d, f);
      }
    }
  }

  /** A load below n does not load n. */
  lemma AddedNotAbove(g: Graph, rank: map<string, nat>, n: string, d: string, was: set<string>, now: set<string>)
    requires Ranks(g, [], rank) && n in rank && d in Succ(g, n) && Added(g, d, was, now) && n !in was
    ensures n !in now
  {
    if n in now {
      var p :| IsPath(g, p) && p[0] == d && p[|p| - 1] == n;
      RankFalls(g, [], rank, p, |p| - 1);
    }
  }

  class ElfUserspaceLoader {
    const name: string
    var dependencies: seq<ElfUserspaceLoader>

    constructor (name: string)
      ensures this.name == name && dependencies == []
    {
      this.name := name;
      dependencies := [];
    }
  }

  class TaskManager {
    const disk: Files
    var libraryMap: map<string, ElfUserspaceLoader>
    /** The files in the order they were parsed. */
    var parsed: seq<string>
    /** Set when an assertion ends the program. */
    var failed: bool

    constructor (disk: Files)
      ensures this.disk == disk && libraryMap == map[] && parsed == [] && !failed
    {
      this.disk := disk;
      libraryMap, parsed, failed := map[], [], false;
    }

    /** A loaded library has, in the order of its file, the loaded libraries it asks for. */
    ghost predicate Linked(f: string, library: ElfUserspaceLoader, count: nat)
      reads this`libraryMap, library
    {
      && library.name == f
      && f in disk.needed
      && |library.dependencies| == count <= |disk.needed[f]|
      && forall i | 0 <= i < count ::
        && Target(disk, disk.needed[f][i]) in libraryMap
        && library.dependencies[i] == libraryMap[Target(disk, disk.needed[f][i])]
    }

    ghost predicate Valid()
      reads this`libraryMap, libraryMap.Values
    {
      forall f | f in libraryMap :: f in disk.needed && Linked(f, libraryMap[f], |disk.needed[f]|)
    }

    ghost predicate Extends(was: map<string, ElfUserspaceLoader>)
      reads this`libraryMap
    {
      forall f | f in was :: f in libraryMap && libraryMap[f] == was[f]
    }

    /** The state every call begins in: nothing has failed, and what is loaded is good. */
    ghost predicate Running(open: set<string>)
      reads this, libraryMap.Values
    {
      Valid() && !failed && AllGood(disk, libraryMap.Keys) && Log(parsed, libraryMap.Keys, open)
    }

    /** The load under way is at a file of this rank; all files that are being loaded rank higher. */
    ghost predicate Below(rank: map<string, nat>, open: set<string>, f: string)
    {
      && Ranks(EnteredGraph(disk), [], rank) && f in rank
      && forall p | p in open :: p in rank && rank[p] > rank[f]
    }

    /**
     `loadLibrary`; `open` holds the names whose loading is under way. The ranking is that of the edges the
     load can enter, so the method is about every load that ends; it does what `Load` says.
     */
    method LoadLibrary(libraryNameOrig: string, ghost rank: map<string, nat>, ghost open: set<string>, ghost depth: nat)
      returns (library: ElfUserspaceLoader?)
      requires Running(open) && Below(rank, open, Target(disk, libraryNameOrig))
      requires depth > rank[Target(disk, libraryNameOrig)]
      modifies this
      ensures Load(disk, old(libraryMap).Keys, Target(disk, libraryNameOrig), depth)
           == if failed then Failed else if library == null then Absent else Loaded(libraryMap.Keys)
      ensures Valid() && Extends(old(libraryMap)) && NoRepeats(parsed)
      ensures forall f | f in libraryMap && f !in old(libraryMap) :: fresh(libraryMap[f])
      ensures Added(EnteredGraph(disk), Target(disk, libraryNameOrig), old(libraryMap).Keys, libraryMap.Keys)
      ensures failed <==> Target(disk, libraryNameOrig) in disk.needed && !AllThere(disk, Target(disk, libraryNameOrig))
      ensures !failed ==> Running(open)
      ensures !failed ==> (library != null <==> Target(disk, libraryNameOrig) in disk.needed)
      ensures !failed && library != null ==>
                Target(disk, libraryNameOrig) in libraryMap && libraryMap[Target(disk, libraryNameOrig)] == library
      decreases rank[Target(disk, libraryNameOrig)], 5
    {
      var filename := Target(disk, libraryNameOrig);
      if filename in libraryMap {
        LoadedIsThere(filename);
        return libraryMap[filename];
      }
      if filename !in disk.needed {
        return null;
      }
      library := LoadFile(filename, rank, open, depth);
    }

    /** A file that is there and not loaded: parse it, load its dependencies, enter it. */
    method LoadFile(filename: string, ghost rank: map<string, nat>, ghost open: set<string>, ghost depth: nat)
      returns (library: ElfUserspaceLoader?)
      requires Running(open) && Below(rank, open, filename) && depth > rank[filename]
      requires filename in disk.needed && filename !in libraryMap
      modifies this
      ensures Fits(Load(disk, old(libraryMap).Keys, filename, depth), failed, libraryMap.Keys)
      ensures Load(disk, old(libraryMap).Keys, filename, depth) != Absent
      ensures Valid() && Extends(old(libraryMap)) && NoRepeats(parsed)
      ensures forall f | f in libraryMap && f !in old(libraryMap) :: fresh(libraryMap[f])
      ensures Added(EnteredGraph(disk), filename, old(libraryMap).Keys, libraryMap.Keys)
      ensures failed <==> !AllThere(disk, filename)
      ensures !failed ==> Running(open) && library != null && filename in libraryMap && libraryMap[filename] == library
      decreases rank[filename], 4
    {
      ghost var was, rest := libraryMap.Keys, depth - 1;
      library := Parse(filename, rank, open, rest);
      LoadGoesOn(disk, was, filename, depth, rest, failed, libraryMap.Keys);
      if failed {
        return null;
      }
      Insert(filename, library, open);
    }

    method Parse(filename: string, ghost rank: map<string, nat>, ghost open: set<string>, ghost depth: nat)
      returns (library: ElfUserspaceLoader)
      requires Running(open) && Below(rank, open, filename) && depth >= rank[filename]
      requires filename in disk.needed && filename !in libraryMap
      modifies this
      ensures LoadAll(disk, old(libraryMap).Keys, disk.needed[filename], depth)
           == if failed then Failed else Loaded(libraryMap.Keys)
      ensures Valid() && Extends(old(libraryMap)) && NoRepeats(parsed) && filename !in libraryMap
      ensures fresh(library) && library !in libraryMap.Values
      ensures forall f | f in libraryMap && f !in old(libraryMap) :: fresh(libraryMap[f])
      ensures Added(EnteredGraph(disk), filename, old(libraryMap).Keys, libraryMap.Keys)
      ensures failed ==> !AllThere(disk, filename)
      ensures !failed ==> Running(open + {filename}) && Linked(filename, library, |disk.needed[filename]|)
      decreases rank[filename], 3
    {
      library := new ElfUserspaceLoader(filename);
      parsed := parsed + [filename];
      LoadDependencies(library, rank, open + {filename}, depth);
    }

    method Insert(filename: string, library: ElfUserspaceLoader, ghost open: set<string>)
      requires Running(open + {filename}) && filename !in open
      requires filename !in libraryMap && library !in libraryMap.Values
      requires filename in disk.needed && Linked(filename, library, |disk.needed[filename]|)
      modifies this`libraryMap
      ensures libraryMap == old(libraryMap)[filename := library] && libraryMap.Keys == old(libraryMap).Keys + {filename}
      ensures Running(open) && AllThere(disk, filename)
      ensures Added(EnteredGraph(disk), filename, old(libraryMap).Keys, libraryMap.Keys)
    {
      LinkedIsGood(filename, library);
      libraryMap := libraryMap[filename := library];
      assert libraryMap.Keys == old(libraryMap).Keys + {filename};
      ReachesSelf(EnteredGraph(disk), filename);
      assert Valid() by {
        forall f | f in libraryMap ensures f in disk.needed && Linked(f, libraryMap[f], |disk.needed[f]|) {
          assert f != filename ==> old(Linked(f, libraryMap[f], |disk.needed[f]|));
        }
      }
      LoadedIsThere(filename);
    }

    /** A library linked to loaded ones only has nothing missing or cyclic behind it. */
    lemma LinkedIsGood(f: string, library: ElfUserspaceLoader)
      requires AllGood(disk, libraryMap.Keys) && f in disk.needed && Linked(f, library, |disk.needed[f]|)
      ensures Good(disk, f)
    {
      forall d | d in Succ(LibraryGraph(disk), f) ensures Good(disk, d) {
        var k := EdgeIsTarget(disk, f, d);
      }
      GoodNext(disk, f);
    }

    lemma LoadedIsClosed(f: string, d: string)
      requires Valid() && f in libraryMap && Reaches(LibraryGraph(disk), f, d)
      ensures d in libraryMap
    {
      var g := LibraryGraph(disk);
      forall n, m | n in libraryMap && m in Succ(g, n) ensures m in libraryMap {
        var k := EdgeIsTarget(disk, n, m);
        assert Linked(n, libraryMap[n], |disk.needed[n]|);
      }
      assert Reachable(g, [f], d);
      ReachableInClosed(g, [f], libraryMap.Keys, d);
    }

    /** A loaded library has everything it leads to. */
    lemma LoadedIsThere(f: string)
      requires Valid() && f in libraryMap
      ensures AllThere(disk, f)
    {
      forall d | Reaches(LibraryGraph(disk), f, d) ensures d in disk.needed {
        LoadedIsClosed(f, d);
      }
    }

    /** The load under way is inside a file of this rank; no file that is being loaded ranks lower. */
    ghost predicate Inside(rank: map<string, nat>, open: set<string>, f: string) {
      && Ranks(EnteredGraph(disk), [], rank) && f in rank && f in open && f in disk.needed
      && forall p | p in open :: p in rank && rank[p] >= rank[f]
    }

    /** `ElfUserspaceLoader::loadDependencies` for a library that is not in the map yet. */
    method LoadDependencies(library: ElfUserspaceLoader, ghost rank: map<string, nat>, ghost open: set<string>,
      ghost depth: nat)
      requires Running(open) && Inside(rank, open, library.name) && depth >= rank[library.name]
      requires library !in libraryMap.Values && library.dependencies == []
      modifies this, library
      ensures Valid() && Extends(old(libraryMap)) && NoRepeats(parsed)
      ensures library !in libraryMap.Values && library.name !in libraryMap
      ensures forall f | f in libraryMap && f !in old(libraryMap) :: fresh(libraryMap[f])
      ensures Added(EnteredGraph(disk), library.name, old(libraryMap).Keys, libraryMap.Keys)
      ensures LoadAll(disk, old(libraryMap).Keys, disk.needed[library.name], depth)
           == if failed then Failed else Loaded(libraryMap.Keys)
      ensures failed ==> !AllThere(disk, library.name)
      ensures !failed ==> Running(open) && Linked(library.name, library, |disk.needed[library.name]|)
      decreases rank[library.name], 2
    {
      var dependencies := disk.needed[library.name];
      ghost var was := libraryMap.Keys;
      assert dependencies[0..] == dependencies;
      var i := 0;
      while i < |dependencies|
        invariant i <= |dependencies| && !failed
        invariant Running(open) && Extends(old(libraryMap)) && EntersBeyond(disk, dependencies, i)
        invariant library !in libraryMap.Values
        invariant forall f | f in libraryMap && f !in old(libraryMap) :: fresh(libraryMap[f])
        invariant Added(EnteredGraph(disk), library.name, was, libraryMap.Keys)
        invariant Linked(library.name, library, i)
        invariant LoadAll(disk, was, dependencies, depth) == LoadAll(disk, libraryMap.Keys, dependencies[i..], depth)
      {
        ghost var mid := libraryMap.Keys;
        EnteredIsEdge(disk, library.name, i);
        LoadAllGoesOn(disk, mid, dependencies, i, depth);
        LoadDependency(library, i, rank, open, depth);
        AddedBelow(EnteredGraph(disk), library.name, Target(disk, dependencies[i]), was, mid, libraryMap.Keys);
        if failed {
          return;
        }
        GoodIsPassed(disk, dependencies, i);
        i := i + 1;
      }
    }

    /** One round of the loop: load the i-th dependency and append it. */
    method LoadDependency(library: ElfUserspaceLoader, i: nat, ghost rank: map<string, nat>, ghost open: set<string>,
      ghost depth: nat)
      requires Running(open) && Inside(rank, open, library.name) && depth >= rank[library.name]
      requires library !in libraryMap.Values && i < |disk.needed[library.name]| && Linked(library.name, library, i)
      requires EntersBeyond(disk, disk.needed[library.name], i)
      modifies this, library
      ensures Valid() && Extends(old(libraryMap)) && NoRepeats(parsed)
      ensures library !in libraryMap.Values && library.name !in libraryMap
      ensures forall f | f in libraryMap && f !in old(libraryMap) :: fresh(libraryMap[f])
      ensures var d := Target(disk, disk.needed[library.name][i]);
        && Added(EnteredGraph(disk), d, old(libraryMap).Keys, libraryMap.Keys)
        && Fits(Load(disk, old(libraryMap).Keys, d, depth), failed, libraryMap.Keys)
      ensures failed ==> !AllThere(disk, library.name)
      ensures !failed ==> Running(open) && Linked(library.name, library, i + 1)
      decreases rank[library.name], 1
    {
      var lib := Require(library.name, i, rank, open, depth);
      if failed {
        return;
      }
      StaysLinked(old(libraryMap), library, i);
      Append(library, i, lib);
    }

    /** Load the i-th dependency of a file; an assertion fails when it is not there. */
    method Require(n: string, i: nat, ghost rank: map<string, nat>, ghost open: set<string>, ghost depth: nat)
      returns (lib: ElfUserspaceLoader?)
      requires Running(open) && Inside(rank, open, n) && depth >= rank[n]
      requires i < |disk.needed[n]| && EntersBeyond(disk, disk.needed[n], i)
      modifies this
      ensures Valid() && Extends(old(libraryMap)) && NoRepeats(parsed) && n !in libraryMap
      ensures forall f | f in libraryMap && f !in old(libraryMap) :: fresh(libraryMap[f])
      ensures var d := Target(disk, disk.needed[n][i]);
        && Added(EnteredGraph(disk), d, old(libraryMap).Keys, libraryMap.Keys)
        && Fits(Load(disk, old(libraryMap).Keys, d, depth), failed, libraryMap.Keys)
      ensures failed ==> !AllThere(disk, n)
      ensures !failed ==> Running(open) && lib != null && Target(disk, disk.needed[n][i]) in libraryMap
                          && libraryMap[Target(disk, disk.needed[n][i])] == lib
      decreases rank[n], 0
    {
      var dep := disk.needed[n][i];
      TargetIsEdge(disk, n, i);
      EnteredIsEdge(disk, n, i);
      EdgeFalls(EnteredGraph(disk), rank, n, Target(disk, dep));
      lib := LoadLibrary(dep, rank, open, depth);
      AddedNotAbove(EnteredGraph(disk), rank, n, Target(disk, dep), old(libraryMap).Keys, libraryMap.Keys);
      if failed || lib == null {
        failed := true;
        MissingBelow(disk, n, Target(disk, dep));
      }
    }

    method Append(library: ElfUserspaceLoader, ghost i: nat, lib: ElfUserspaceLoader)
      requires Valid() && library !in libraryMap.Values
      requires Linked(library.name, library, i) && i < |disk.needed[library.name]|
      requires Target(disk, disk.needed[library.name][i]) in libraryMap
      requires lib == libraryMap[Target(disk, disk.needed[library.name][i])]
      modifies library
      ensures Valid() && Linked(library.name, library, i + 1)
    {
      library.dependencies := library.dependencies + [lib];
    }

    /** What is linked stays linked when the map grows. */
    lemma StaysLinked(was: map<string, ElfUserspaceLoader>, library: ElfUserspaceLoader, i: nat)
      requires library.name in disk.needed && |library.dependencies| == i <= |disk.needed[library.name]|
      requires forall k | 0 <= k < i ::
                 && Target(disk, disk.needed[library.name][k]) in was
                 && library.dependencies[k] == was[Target(disk, disk.needed[library.name][k])]
      requires Extends(was)
      ensures Linked(library.name, library, i)
    {
    }
  }

  /** What a load says, as the loop over dependencies takes it. */
  ghost predicate Fits(r: Outcome, failed: bool, loaded: set<string>) {
    if failed then r.Failed? || r.Absent? else r == Loaded(loaded)
  }

  /**
   A first load, if the load ends at all: it does what `Load` says with any bound that is enough. If
   everything is there, the map ends up with exactly what the library leads to, each file parsed once; and
   otherwise, if the library itself is there, the program fails.
   */
  method LoadFirst(disk: Files, libraryName: string, ghost depth: nat)
    returns (tm: TaskManager, library: ElfUserspaceLoader?)
    requires Load(disk, {}, Target(disk, libraryName), depth) != TooDeep
    ensures fresh(tm) && tm.disk == disk && tm.Valid() && NoRepeats(tm.parsed)
    ensures Load(disk, {}, Target(disk, libraryName), depth)
         == if tm.failed then Failed else if library == null then Absent else Loaded(tm.libraryMap.Keys)
    ensures tm.failed <==> Target(disk, libraryName) in disk.needed && !AllThere(disk, Target(disk, libraryName))
    ensures !tm.failed ==> (library != null <==> Target(disk, libraryName) in disk.needed)
    ensures !tm.failed && library != null ==>
              && Target(disk, libraryName) in tm.libraryMap && tm.libraryMap[Target(disk, libraryName)] == library
              && forall f :: (f in tm.libraryMap <==> Reaches(LibraryGraph(disk), Target(disk, libraryName), f))
                             && (f in tm.parsed <==> f in tm.libraryMap)
  {
    ghost var t := Target(disk, libraryName);
    ghost var rank, enough := Enough(disk, t, depth);
    tm := new TaskManager(disk);
    assert tm.libraryMap.Keys == {};
    library := tm.LoadLibrary(libraryName, rank, {}, enough);
    if !tm.failed && library != null {
      KeysAreReached(tm, t);
    }
  }

  lemma KeysAreReached(tm: TaskManager, t: string)
    requires tm.Valid() && t in tm.libraryMap && Added(EnteredGraph(tm.disk), t, {}, tm.libraryMap.Keys)
    ensures forall f :: f in tm.libraryMap <==> Reaches(LibraryGraph(tm.disk), t, f)
  {
    forall f ensures f in tm.libraryMap <==> Reaches(LibraryGraph(tm.disk), t, f) {
      if f in tm.libraryMap {
        EnteredReach(tm.disk, t, f);
      }
      if Reaches(LibraryGraph(tm.disk), t, f) {
        tm.LoadedIsClosed(t, f);
      }
    }
  }

  /* Dependency queries */

  /** The path that a depth-first search in the order of the files takes to the target; empty if there is none. */
  ghost function FirstPath(g: Graph, rank: map<string, nat>, n: string, target: string): seq<string>
    requires Ranks(g, [], rank) && n in rank
    decreases rank[n], |Succ(g, n)| + 1
  {
    if n == target then [n]
    else
      var p := FirstAmong(g, rank, n, 0, target);
      if p == [] then [] else [n] + p
  }

  ghost function FirstAmong(g: Graph, rank: map<string, nat>, n: string, i: nat, target: string): seq<string>
    requires Ranks(g, [], rank) && n in rank && i <= |Succ(g, n)|
    decreases rank[n], |Succ(g, n)| - i
  {
    if i == |Succ(g, n)| then []
    else
      assert Succ(g, n)[i] in Succ(g, n);
      var p := FirstPath(g, rank, Succ(g, n)[i], target);
      if p != [] then p else FirstAmong(g, rank, n, i + 1, target)
  }

  /** The search finds a path to everything that is reached, and only to that. */
  lemma {:induction false} FirstPathIff(g: Graph, rank: map<string, nat>, n: string, target: string)
    requires Ranks(g, [], rank) && n in rank
    ensures var p := FirstPath(g, rank, n, target);
      && (p != [] <==> Reaches(g, n, target))
      && (p != [] ==> Leads(g, p, target) && p[0] == n)
    decreases rank[n], |Succ(g, n)| + 1
  {
    if n == target {
      ReachesSelf(g, n);
    } else {
      FirstAmongIff(g, rank, n, 0, target);
      var q := FirstAmong(g, rank, n, 0, target);
      if q != [] {
        OneEdgeMore(g, n, q, target);
      } else if Reaches(g, n, target) {
        ReachesFirst(g, n, target);
      }
    }
  }

  ghost predicate NoneReaches(g: Graph, names: seq<string>, i: nat, target: string) {
    forall k | i <= k < |names| :: !Reaches(g, names[k], target)
  }

  ghost predicate Leads(g: Graph, p: seq<string>, target: string) {
    p != [] && IsPath(g, p) && p[|p| - 1] == target
  }

  lemma OneEdgeMore(g: Graph, n: string, q: seq<string>, target: string)
    requires Leads(g, q, target) && q[0] in Succ(g, n)
    ensures Leads(g, [n] + q, target) && Reaches(g, n, target)
  {
    var p := [n] + q;
    assert IsPath(g, p) && p[0] == n && p[|p| - 1] == target;
  }

  lemma {:induction false} FirstAmongIff(g: Graph, rank: map<string, nat>, n: string, i: nat, target: string)
    requires Ranks(g, [], rank) && n in rank && i <= |Succ(g, n)|
    ensures var p := FirstAmong(g, rank, n, i, target);
      && (p == [] ==> NoneReaches(g, Succ(g, n), i, target))
      && (p != [] ==> Leads(g, p, target) && p[0] in Succ(g, n))
    decreases rank[n], |Succ(g, n)| - i
  {
    if i < |Succ(g, n)| {
      var d := Succ(g, n)[i];
      assert d in Succ(g, n);
      FirstPathIff(g, rank, d, target);
      var p := FirstPath(g, rank, d, target);
      if p == [] {
        FirstAmongIff(g, rank, n, i + 1, target);
        assert FirstAmong(g, rank, n, i, target) == FirstAmong(g, rank, n, i + 1, target);
      } else {
        assert FirstAmong(g, rank, n, i, target) == p;
      }
    }
  }

  /** From place k the path goes on to the first dependency that leads to the target. */
  ghost predicate TakesFirst(g: Graph, p: seq<string>, k: nat, target: string)
    requires k + 1 < |p|
  {
    p[k] != target && FirstLeads(g, Succ(g, p[k]), p[k + 1], target)
  }

  ghost predicate FirstLeads(g: Graph, names: seq<string>, next: string, target: string) {
    exists j :: 0 <= j < |names| && IsFirst(g, names, j, next, target)
  }

  ghost predicate IsFirst(g: Graph, names: seq<string>, j: nat, next: string, target: string)
    requires j < |names|
  {
    names[j] == next && forall i | 0 <= i < j :: !Reaches(g, names[i], target)
  }

  lemma {:induction false} FirstAmongNext(g: Graph, rank: map<string, nat>, n: string, i: nat, next: nat,
    target: string) returns (d: string)
    requires Ranks(g, [], rank) && n in rank && i < |Succ(g, n)| && next == i + 1
    ensures d == Succ(g, n)[i] && d in rank
    ensures FirstAmong(g, rank, n, i, target)
         == if FirstPath(g, rank, d, target) != [] then FirstPath(g, rank, d, target)
            else FirstAmong(g, rank, n, next, target)
  {
    d := Succ(g, n)[i];
    assert d in Succ(g, n);
  }

  lemma {:induction false} FirstAmongIs(g: Graph, rank: map<string, nat>, n: string, i: nat, target: string)
    returns (j: nat)
    requires Ranks(g, [], rank) && n in rank && i <= |Succ(g, n)| && FirstAmong(g, rank, n, i, target) != []
    ensures i <= j < |Succ(g, n)| && Succ(g, n)[j] in rank
    ensures FirstAmong(g, rank, n, i, target) == FirstPath(g, rank, Succ(g, n)[j], target)
    ensures forall k | i <= k < j :: !Reaches(g, Succ(g, n)[k], target)
    decreases |Succ(g, n)| - i
  {
    var next := i + 1;
    var d := FirstAmongNext(g, rank, n, i, next, target);
    if FirstPath(g, rank, d, target) != [] {
      j := i;
    } else {
      FirstPathIff(g, rank, d, target);
      j := FirstAmongIs(g, rank, n, next, target);
    }
  }

  lemma {:induction false} PathGoesOn(g: Graph, rank: map<string, nat>, n: string, target: string) returns (d: string)
    requires Ranks(g, [], rank) && n in rank && |FirstPath(g, rank, n, target)| > 1
    ensures n != target && d in rank && rank[d] < rank[n] && FirstLeads(g, Succ(g, n), d, target)
    ensures FirstPath(g, rank, n, target) == [n] + FirstPath(g, rank, d, target)
    ensures FirstPath(g, rank, d, target) != [] && FirstPath(g, rank, d, target)[0] == d
  {
    var j := FirstAmongIs(g, rank, n, 0, target);
    d := Succ(g, n)[j];
    assert d in Succ(g, n) && IsFirst(g, Succ(g, n), j, d, target);
    EdgeFalls(g, rank, n, d);
    FirstPathIff(g, rank, d, target);
  }

  /** The path found takes, at every library on it, the first dependency that leads to the target. */
  lemma {:induction false} FirstPathIsFirst(g: Graph, rank: map<string, nat>, n: string, target: string, k: nat,
    p: seq<string>)
    requires Ranks(g, [], rank) && n in rank && p == FirstPath(g, rank, n, target) && k + 1 < |p|
    ensures TakesFirst(g, p, k, target)
    decreases k
  {
    var d := PathGoesOn(g, rank, n, target);
    var q := FirstPath(g, rank, d, target);
    if k > 0 {
      FirstPathIsFirst(g, rank, d, target, k - 1, q);
      assert p[k] == q[k - 1] && p[k + 1] == q[k];
    }
  }

  /** `isDependency` on a loaded library: one for itself, and one more for every library on the way. */
  method IsDependency(library: ElfUserspaceLoader, lib: string, ghost tm: TaskManager, ghost rank: map<string, nat>)
    returns (level: nat)
    requires tm.Valid() && library.name in tm.libraryMap && tm.libraryMap[library.name] == library
    requires Ranks(LibraryGraph(tm.disk), [], rank) && library.name in rank
    ensures level == |FirstPath(LibraryGraph(tm.disk), rank, library.name, lib)|
    decreases rank[library.name]
  {
    if library.name == lib {
      return 1;
    }
    ghost var g := LibraryGraph(tm.disk);
    assert tm.Linked(library.name, library, |tm.disk.needed[library.name]|);
    var i := 0;
    while i < |library.dependencies|
      invariant i <= |library.dependencies|
      invariant FirstAmong(g, rank, library.name, 0, lib) == FirstAmong(g, rank, library.name, i, lib)
    {
      var dep := library.dependencies[i];
      assert Succ(g, library.name)[i] == Target(tm.disk, tm.disk.needed[library.name][i]) == dep.name;
      assert Succ(g, library.name)[i] in Succ(g, library.name);
      level := IsDependency(dep, lib, tm, rank);
      if level > 0 {
        return level + 1;
      }
      i := i + 1;
    }
    return 0;
  }
}
