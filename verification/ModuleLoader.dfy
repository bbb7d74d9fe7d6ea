/**
 The protocol by which worker threads load all kernel modules: names come from a shared list, a
 worker claims a name with an empty entry in the shared map, loads the dependencies it finds in the
 file while it holds the claim, and then publishes the object. Whoever meets an empty entry waits.

 One step is one critical section. The order of steps is any sequence of worker numbers.
 */
module ModuleLoader {
  import opened Options
  import opened Graphs
  import opened ModuleNames

  /** The files of the kernel build, with the names each module depends on, and the modules to load. */
  datatype Config = Config(files: map<string, seq<string>>, start: seq<string>)

  /** An entry of the map: the null pointer of a claim, or a pointer to a parsed object. */
  datatype Entry = Placeholder | Ready(id: nat)

  /** An activation of `loadModule` past its claim: before the file is parsed, or at a dependency. */
  datatype Frame =
    | Claimed(name: string)
    | Loading(name: string, id: nat, next: nat)

  /** A worker is gone, or it is about to look up `call`, or it goes on where its innermost activation stands. */
  datatype Worker = Returned | Running(call: Option<string>, stack: seq<Frame>)

  /**
   The shared state and the workers. Three fields only record history, and no step reads them: the
   place of the claim of each name, the names in the order their files were parsed (an object is its
   index here), and in the order they were published.
   */
  datatype State = State(
    modules: map<string, Entry>,
    queue: seq<string>,
    workers: seq<Worker>,
    aborted: bool,
    owner: map<string, (nat, nat)>,
    parsed: seq<string>,
    published: seq<string>)

  function Deps(cfg: Config, n: string): seq<string> {
    if n in cfg.files then cfg.files[n] else []
  }

  function Init(cfg: Config, workers: nat): State {
    State(map[], cfg.start, seq(workers, _ => Running(None, [])), false, map[], [], [])
  }

  function Move(s: State, t: nat, w: Worker): State
    requires t < |s.workers|
  {
    s.(workers := s.workers[t := w])
  }

  /** `loadModuleThread`: take a name from the list, or return when it is empty. */
  function Pop(s: State, t: nat): State
    requires t < |s.workers|
  {
    if s.queue == [] then Move(s, t, Returned)
    else Move(s, t, Running(Some(s.queue[0]), [])).(queue := s.queue[1..])
  }

  /** `loadModule` up to its claim; on an empty entry the worker stays where it is. */
  function Lookup(s: State, t: nat, n: string, stack: seq<Frame>): State
    requires t < |s.workers|
  {
    if n !in s.modules then
      Move(s, t, Running(None, stack + [Claimed(n)])).(
        modules := s.modules[n := Placeholder], owner := s.owner[n := (t, |stack|)])
    else if s.modules[n].Ready? then Move(s, t, Running(None, stack))
    else s
  }

  /** Find and parse the file of a claimed name; without a file an assertion ends the program. */
  function Open(cfg: Config, s: State, t: nat, below: seq<Frame>, n: string): State
    requires t < |s.workers|
  {
    if n !in cfg.files then s.(aborted := true)
    else Move(s, t, Running(None, below + [Loading(n, |s.parsed|, 0)])).(parsed := s.parsed + [n])
  }

  /** Call `loadModule` for the next dependency, or publish the object when there is none left. */
  function Proceed(cfg: Config, s: State, t: nat, below: seq<Frame>, f: Frame): State
    requires t < |s.workers| && f.Loading?
  {
    if f.next < |Deps(cfg, f.name)| then
      Move(s, t, Running(Some(Deps(cfg, f.name)[f.next]), below + [f.(next := f.next + 1)]))
    else
      Move(s, t, Running(None, below)).(
        modules := s.modules[f.name := Ready(f.id)], published := s.published + [f.name])
  }

  function Step(cfg: Config, s: State, t: nat): State
    requires t < |s.workers|
  {
    var w := s.workers[t];
    if s.aborted || w.Returned? then s
    else if w.call.Some? then Lookup(s, t, Normalize(w.call.value), w.stack)
    else if w.stack == [] then Pop(s, t)
    else
      var below, f := w.stack[..|w.stack| - 1], w.stack[|w.stack| - 1];
      if f.Claimed? then Open(cfg, s, t, below, f.name) else Proceed(cfg, s, t, below, f)
  }

  /** A worker that waits for somebody else's claim. */
  predicate Spins(s: State, t: nat)
    requires t < |s.workers|
  {
    var w := s.workers[t];
    && w.Running?
    && w.call.Some?
    && Normalize(w.call.value) in s.modules
    && s.modules[Normalize(w.call.value)].Placeholder?
  }

  predicate Acts(s: State, t: nat)
    requires t < |s.workers|
  {
    !s.aborted && s.workers[t].Running? && !Spins(s, t)
  }

  predicate Schedule(workers: nat, order: seq<nat>) {
    forall i | 0 <= i < |order| :: order[i] < workers
  }

  /** The state after the workers took their steps in the given order. */
  function After(cfg: Config, workers: nat, order: seq<nat>): (s: State)
    requires Schedule(workers, order)
    ensures |s.workers| == workers
  {
    if order == [] then Init(cfg, workers)
    else Step(cfg, After(cfg, workers, order[..|order| - 1]), order[|order| - 1])
  }

  /** All workers joined. */
  predicate Joined(s: State) {
    !s.aborted && forall t | 0 <= t < |s.workers| :: s.workers[t].Returned?
  }

  /* What every step keeps */

  function Stack(w: Worker): seq<Frame> {
    if w.Returned? then [] else w.stack
  }

  function Names(raw: seq<string>): seq<string> {
    seq(|raw|, i requires 0 <= i < |raw| => Normalize(raw[i]))
  }

  function DepGraph(cfg: Config): Graph {
    map n | n in cfg.files :: Names(cfg.files[n])
  }

  /** Every frame is a claim, recorded where it is, and every empty entry is such a frame. */
  ghost predicate FramesOwned(s: State, t: nat)
    requires t < |s.workers|
  {
    var stack := Stack(s.workers[t]);
    forall i | 0 <= i < |stack| ::
      && stack[i].name in s.modules
      && s.modules[stack[i].name] == Placeholder
      && stack[i].name in s.owner
      && s.owner[stack[i].name] == (t, i)
  }

  ghost predicate HasOwner(s: State, n: string) {
    && n in s.owner
    && s.owner[n].0 < |s.workers|
    && s.owner[n].1 < |Stack(s.workers[s.owner[n].0])|
    && Stack(s.workers[s.owner[n].0])[s.owner[n].1].name == n
  }

  ghost predicate Ownership(s: State) {
    && (forall t | 0 <= t < |s.workers| :: FramesOwned(s, t))
    && (forall n | n in s.modules && s.modules[n].Placeholder? :: HasOwner(s, n))
  }

  /** An activation below another one, or in a call, waits for the dependency it named last. */
  predicate Waits(w: Worker, i: nat)
    requires w.Running?
  {
    i + 1 < |w.stack| || w.call.Some?
  }

  ghost predicate FrameOk(cfg: Config, parsed: seq<string>, published: seq<string>, w: Worker, i: nat)
    requires w.Running? && i < |w.stack|
  {
    var f := w.stack[i];
    && (Waits(w, i) ==> f.Loading? && f.next > 0)
    && (f.Loading? ==>
      && f.name in cfg.files
      && f.next <= |cfg.files[f.name]|
      && f.id < |parsed|
      && parsed[f.id] == f.name
      && (i + 1 < |w.stack| ==> w.stack[i + 1].name == Normalize(cfg.files[f.name][f.next - 1]))
      && (i + 1 == |w.stack| && w.call.Some? ==> w.call.value == cfg.files[f.name][f.next - 1])
      && (forall k | 0 <= k < (if Waits(w, i) then f.next - 1 else f.next) ::
        Normalize(cfg.files[f.name][k]) in published))
  }

  ghost predicate WorkerOk(cfg: Config, parsed: seq<string>, published: seq<string>, w: Worker) {
    w.Running? ==> forall i | 0 <= i < |w.stack| :: FrameOk(cfg, parsed, published, w, i)
  }

  ghost predicate WorkersOk(cfg: Config, s: State) {
    forall t | 0 <= t < |s.workers| :: WorkerOk(cfg, s.parsed, s.published, s.workers[t])
  }

  ghost predicate Grows(s: State, t: State) {
    s.parsed <= t.parsed && s.published <= t.published
  }

  lemma WorkerOkGrows(cfg: Config, s: State, t: State, w: Worker)
    requires WorkerOk(cfg, s.parsed, s.published, w) && Grows(s, t)
    ensures WorkerOk(cfg, t.parsed, t.published, w)
  {
    if w.Running? {
      forall i | 0 <= i < |w.stack| ensures FrameOk(cfg, t.parsed, t.published, w, i) {
        assert FrameOk(cfg, s.parsed, s.published, w, i);
      }
    }
  }

  /** Published names: each once, every dependency before its dependent. */
  ghost predicate PublishedAt(cfg: Config, s: State, k: nat)
    requires k < |s.published|
  {
    var n := s.published[k];
    && n in s.modules && s.modules[n].Ready?
    && n in cfg.files
    && n !in s.published[..k]
    && forall i | 0 <= i < |cfg.files[n]| :: Normalize(cfg.files[n][i]) in s.published[..k]
  }

  function OwnersFrame(s: State, n: string): Frame
    requires HasOwner(s, n)
  {
    Stack(s.workers[s.owner[n].0])[s.owner[n].1]
  }

  /** The object made by the j-th parse is what its name's entry or its claimant's frame holds. */
  ghost predicate ParsedAt(s: State, j: nat)
    requires j < |s.parsed|
  {
    var n := s.parsed[j];
    && n in s.modules
    && (s.modules[n].Ready? ==> s.modules[n].id == j)
    && (s.modules[n].Placeholder? ==>
      HasOwner(s, n) && OwnersFrame(s, n).Loading? && OwnersFrame(s, n).id == j)
  }

  ghost predicate ReadyAt(s: State, n: string)
    requires n in s.modules
  {
    s.modules[n].Ready? ==> s.modules[n].id < |s.parsed| && s.parsed[s.modules[n].id] == n && n in s.published
  }

  ghost predicate Logs(cfg: Config, s: State) {
    && (forall k | 0 <= k < |s.published| :: PublishedAt(cfg, s, k))
    && (forall j | 0 <= j < |s.parsed| :: ParsedAt(s, j))
    && (forall n | n in s.modules :: ReadyAt(s, n))
  }

  ghost predicate Wanted(cfg: Config, n: string) {
    Reachable(DepGraph(cfg), Names(cfg.start), n)
  }

  ghost predicate CallWanted(cfg: Config, w: Worker) {
    w.Running? && w.call.Some? ==> Wanted(cfg, Normalize(w.call.value))
  }

  ghost predicate OnlyWanted(cfg: Config, s: State) {
    && (forall n | n in s.modules :: Wanted(cfg, n))
    && (forall t | 0 <= t < |s.workers| :: CallWanted(cfg, s.workers[t]))
    && (s.aborted ==> !AllFilesExist(cfg))
  }

  ghost predicate AllFilesExist(cfg: Config) {
    forall n | Wanted(cfg, n) :: n in cfg.files
  }

  /** A name taken from the list is in the map, or some worker is about to look it up. */
  ghost predicate Taken(s: State, raw: string) {
    || Normalize(raw) in s.modules
    || exists t :: 0 <= t < |s.workers| && s.workers[t] == Running(Some(raw), [])
  }

  ghost predicate ListOk(cfg: Config, s: State) {
    && |s.queue| <= |cfg.start|
    && s.queue == cfg.start[|cfg.start| - |s.queue|..]
    && (forall j | 0 <= j < |cfg.start| - |s.queue| :: Taken(s, cfg.start[j]))
    && (forall t | 0 <= t < |s.workers| && s.workers[t].Returned? :: s.queue == [])
  }

  ghost predicate Inv(cfg: Config, s: State) {
    Ownership(s) && WorkersOk(cfg, s) && Logs(cfg, s) && OnlyWanted(cfg, s) && ListOk(cfg, s)
  }

  lemma InitInv(cfg: Config, workers: nat)
    ensures Inv(cfg, Init(cfg, workers))
  {
  }

  /* Ownership */

  ghost predicate SameNames(v: seq<Frame>, w: seq<Frame>) {
    |v| == |w| && forall i | 0 <= i < |v| :: v[i].name == w[i].name
  }

  lemma OwnershipSameNames(s: State, u: State, t: nat, w: Worker)
    requires Ownership(s) && t < |s.workers| && u.workers == s.workers[t := w]
    requires u.modules == s.modules && u.owner == s.owner && SameNames(Stack(s.workers[t]), Stack(w))
    ensures Ownership(u)
  {
    assert FramesOwned(s, t);
    forall v | 0 <= v < |u.workers| ensures FramesOwned(u, v) {
      assert FramesOwned(s, v);
    }
    forall n | n in u.modules && u.modules[n].Placeholder? ensures HasOwner(u, n) {
      assert HasOwner(s, n);
    }
  }

  lemma OwnershipClaim(s: State, t: nat, n: string, stack: seq<Frame>)
    requires Ownership(s) && t < |s.workers| && Stack(s.workers[t]) == stack && n !in s.modules
    ensures Ownership(Lookup(s, t, n, stack))
  {
    var u := Lookup(s, t, n, stack);
    forall v | 0 <= v < |u.workers| ensures FramesOwned(u, v) {
      assert FramesOwned(s, v);
    }
    forall m | m in u.modules && u.modules[m].Placeholder? ensures HasOwner(u, m) {
      assert m != n ==> HasOwner(s, m);
    }
  }

  lemma OwnershipPublish(cfg: Config, s: State, t: nat, below: seq<Frame>, f: Frame)
    requires Ownership(s) && t < |s.workers| && Stack(s.workers[t]) == below + [f]
    requires f.Loading? && f.next >= |Deps(cfg, f.name)|
    ensures Ownership(Proceed(cfg, s, t, below, f))
  {
    var u := Proceed(cfg, s, t, below, f);
    assert FramesOwned(s, t);
    var stack := Stack(s.workers[t]);
    assert stack[|below|] == f && forall i | 0 <= i < |below| :: stack[i] == below[i];
    forall v | 0 <= v < |u.workers| ensures FramesOwned(u, v) {
      assert FramesOwned(s, v);
    }
    forall m | m in u.modules && u.modules[m].Placeholder? ensures HasOwner(u, m) {
      assert HasOwner(s, m);
    }
  }

  /* Where the workers stand */

  lemma WorkersOkMove(cfg: Config, s: State, u: State, t: nat)
    requires WorkersOk(cfg, s) && Grows(s, u) && t < |s.workers| == |u.workers|
    requires u.workers == s.workers[t := u.workers[t]]
    requires WorkerOk(cfg, u.parsed, u.published, u.workers[t])
    ensures WorkersOk(cfg, u)
  {
    forall v | 0 <= v < |u.workers| ensures WorkerOk(cfg, u.parsed, u.published, u.workers[v]) {
      if v != t {
        WorkerOkGrows(cfg, s, u, s.workers[v]);
      }
    }
  }

  lemma ClaimOk(cfg: Config, parsed: seq<string>, published: seq<string>, w: Worker)
    requires WorkerOk(cfg, parsed, published, w) && w.Running? && w.call.Some?
    ensures WorkerOk(cfg, parsed, published, Running(None, w.stack + [Claimed(Normalize(w.call.value))]))
  {
    var u := Running(None, w.stack + [Claimed(Normalize(w.call.value))]);
    forall i | 0 <= i < |u.stack| ensures FrameOk(cfg, parsed, published, u, i) {
      if i < |w.stack| {
        assert FrameOk(cfg, parsed, published, w, i);
      }
    }
  }

  lemma ReturnOk(cfg: Config, parsed: seq<string>, published: seq<string>, w: Worker)
    requires WorkerOk(cfg, parsed, published, w) && w.Running? && w.call.Some?
    requires Normalize(w.call.value) in published
    ensures WorkerOk(cfg, parsed, published, Running(None, w.stack))
  {
    var u := Running(None, w.stack);
    forall i | 0 <= i < |u.stack| ensures FrameOk(cfg, parsed, published, u, i) {
      assert FrameOk(cfg, parsed, published, w, i);
    }
  }

  lemma OpenOk(cfg: Config, parsed: seq<string>, published: seq<string>, below: seq<Frame>, n: string)
    requires WorkerOk(cfg, parsed, published, Running(None, below + [Claimed(n)])) && n in cfg.files
    ensures WorkerOk(cfg, parsed + [n], published, Running(None, below + [Loading(n, |parsed|, 0)]))
  {
    var w, u := Running(None, below + [Claimed(n)]), Running(None, below + [Loading(n, |parsed|, 0)]);
    forall i | 0 <= i < |u.stack| ensures FrameOk(cfg, parsed + [n], published, u, i) {
      assert FrameOk(cfg, parsed, published, w, i);
    }
  }

  lemma CallOk(cfg: Config, parsed: seq<string>, published: seq<string>, below: seq<Frame>, f: Frame)
    requires WorkerOk(cfg, parsed, published, Running(None, below + [f])) && f.Loading? && f.next < |Deps(cfg, f.name)|
    ensures WorkerOk(cfg, parsed, published,
              Running(Some(Deps(cfg, f.name)[f.next]), below + [f.(next := f.next + 1)]))
  {
    var w := Running(None, below + [f]);
    var u := Running(Some(Deps(cfg, f.name)[f.next]), below + [f.(next := f.next + 1)]);
    assert w.stack[|below|] == f;
    forall i | 0 <= i < |u.stack| ensures FrameOk(cfg, parsed, published, u, i) {
      assert FrameOk(cfg, parsed, published, w, i);
    }
  }

  lemma PublishOk(cfg: Config, parsed: seq<string>, published: seq<string>, below: seq<Frame>, f: Frame)
    requires WorkerOk(cfg, parsed, published, Running(None, below + [f]))
    ensures WorkerOk(cfg, parsed, published + [f.name], Running(None, below))
  {
    var w, u := Running(None, below + [f]), Running(None, below);
    assert w.stack[|below|] == f;
    forall i | 0 <= i < |u.stack| ensures FrameOk(cfg, parsed, published + [f.name], u, i) {
      assert FrameOk(cfg, parsed, published, w, i);
    }
  }

  /* The logs */

  ghost predicate SameObjects(v: seq<Frame>, w: seq<Frame>) {
    && SameNames(v, w)
    && forall i | 0 <= i < |v| :: v[i].Loading? ==> w[i].Loading? && w[i].id == v[i].id
  }

  /** A worker that moves without claiming, parsing or publishing leaves the logs right. */
  lemma LogsSameObjects(cfg: Config, s: State, u: State, t: nat, w: Worker)
    requires Logs(cfg, s) && t < |s.workers| && u.workers == s.workers[t := w]
    requires SameObjects(Stack(s.workers[t]), Stack(w))
    requires u.modules == s.modules && u.owner == s.owner && u.parsed == s.parsed && u.published == s.published
    ensures Logs(cfg, u)
  {
    forall k | 0 <= k < |u.published| ensures PublishedAt(cfg, u, k) {
      assert PublishedAt(cfg, s, k);
    }
    forall j | 0 <= j < |u.parsed| ensures ParsedAt(u, j) {
      assert ParsedAt(s, j);
    }
    forall n | n in u.modules ensures ReadyAt(u, n) {
      assert ReadyAt(s, n);
    }
  }

  lemma LogsClaim(cfg: Config, s: State, t: nat, n: string, stack: seq<Frame>)
    requires Logs(cfg, s) && t < |s.workers| && Stack(s.workers[t]) == stack && n !in s.modules
    ensures Logs(cfg, Lookup(s, t, n, stack))
  {
    var u := Lookup(s, t, n, stack);
    forall k | 0 <= k < |u.published| ensures PublishedAt(cfg, u, k) {
      assert PublishedAt(cfg, s, k);
    }
    forall j | 0 <= j < |u.parsed| ensures ParsedAt(u, j) {
      assert ParsedAt(s, j);
    }
    forall m | m in u.modules ensures ReadyAt(u, m) {
      assert m != n ==> ReadyAt(s, m);
    }
  }

  lemma LogsOpen(cfg: Config, s: State, t: nat, below: seq<Frame>, n: string)
    requires Logs(cfg, s) && Ownership(s) && t < |s.workers| && Stack(s.workers[t]) == below + [Claimed(n)]
    requires n in cfg.files && Ownership(Open(cfg, s, t, below, n))
    ensures Logs(cfg, Open(cfg, s, t, below, n))
  {
    var u := Open(cfg, s, t, below, n);
    assert FramesOwned(s, t) && Stack(s.workers[t])[|below|] == Claimed(n);
    forall k | 0 <= k < |u.published| ensures PublishedAt(cfg, u, k) {
      assert PublishedAt(cfg, s, k);
    }
    assert HasOwner(u, n);
    forall j | 0 <= j < |u.parsed| ensures ParsedAt(u, j) {
      if j < |s.parsed| {
        assert ParsedAt(s, j);
        if s.modules[s.parsed[j]].Placeholder? {
          OpenKeeps(cfg, s, t, below, n, s.parsed[j]);
        }
      }
    }
    forall m | m in u.modules ensures ReadyAt(u, m) {
      assert ReadyAt(s, m);
    }
  }

  lemma OpenKeeps(cfg: Config, s: State, t: nat, below: seq<Frame>, n: string, m: string)
    requires t < |s.workers| && Stack(s.workers[t]) == below + [Claimed(n)]
    requires HasOwner(s, m) && m != n && n in cfg.files
    ensures HasOwner(Open(cfg, s, t, below, n), m)
    ensures OwnersFrame(Open(cfg, s, t, below, n), m) == OwnersFrame(s, m)
  {
  }

  lemma LogsPublish(cfg: Config, s: State, t: nat, below: seq<Frame>, f: Frame)
    requires Logs(cfg, s) && Ownership(s) && WorkersOk(cfg, s) && t < |s.workers|
    requires s.workers[t] == Running(None, below + [f]) && f.Loading? && f.next >= |Deps(cfg, f.name)|
    ensures Logs(cfg, Proceed(cfg, s, t, below, f))
  {
    var u := Proceed(cfg, s, t, below, f);
    assert FramesOwned(s, t) && Stack(s.workers[t])[|below|] == f;
    assert WorkerOk(cfg, s.parsed, s.published, s.workers[t]);
    assert FrameOk(cfg, s.parsed, s.published, s.workers[t], |below|);
    forall k | 0 <= k < |u.published| ensures PublishedAt(cfg, u, k) {
      PublishedKept(cfg, s, t, below, f, k);
    }
    forall j | 0 <= j < |u.parsed| ensures ParsedAt(u, j) {
      assert ParsedAt(s, j);
      if s.parsed[j] != f.name && s.modules[s.parsed[j]].Placeholder? {
        PublishKeeps(cfg, s, t, below, f, s.parsed[j]);
      }
    }
    forall m | m in u.modules ensures ReadyAt(u, m) {
      assert ReadyAt(s, m);
    }
  }

  lemma PublishKeeps(cfg: Config, s: State, t: nat, below: seq<Frame>, f: Frame, m: string)
    requires t < |s.workers| && Stack(s.workers[t]) == below + [f] && HasOwner(s, m) && m != f.name
    requires f.Loading? && f.next >= |Deps(cfg, f.name)|
    ensures HasOwner(Proceed(cfg, s, t, below, f), m)
    ensures OwnersFrame(Proceed(cfg, s, t, below, f), m) == OwnersFrame(s, m)
  {
  }

  lemma PublishedKept(cfg: Config, s: State, t: nat, below: seq<Frame>, f: Frame, k: nat)
    requires Logs(cfg, s) && t < |s.workers| && k <= |s.published|
    requires f.Loading? && f.name in cfg.files && f.next >= |Deps(cfg, f.name)|
    requires f.name in s.modules && s.modules[f.name].Placeholder?
    requires forall i | 0 <= i < f.next && i < |cfg.files[f.name]| :: Normalize(cfg.files[f.name][i]) in s.published
    ensures PublishedAt(cfg, Proceed(cfg, s, t, below, f), k)
  {
    var u := Proceed(cfg, s, t, below, f);
    if k < |s.published| {
      assert PublishedAt(cfg, s, k) && u.published[..k] == s.published[..k];
    } else {
      assert u.published[..k] == s.published;
      ClaimUnpublished(cfg, s, f.name);
    }
  }

  lemma ClaimUnpublished(cfg: Config, s: State, n: string)
    requires Logs(cfg, s) && n in s.modules && s.modules[n].Placeholder?
    ensures n !in s.published
  {
    forall k | 0 <= k < |s.published| ensures s.published[k] != n {
      assert PublishedAt(cfg, s, k);
    }
  }

  /* Only wanted names, and all taken names */

  lemma OnlyWantedMove(cfg: Config, s: State, u: State, t: nat)
    requires OnlyWanted(cfg, s) && t < |s.workers| == |u.workers| && u.workers == s.workers[t := u.workers[t]]
    requires CallWanted(cfg, u.workers[t]) && forall n | n in u.modules :: n in s.modules || Wanted(cfg, n)
    requires u.aborted ==> !AllFilesExist(cfg)
    ensures OnlyWanted(cfg, u)
  {
    forall v | 0 <= v < |u.workers| ensures CallWanted(cfg, u.workers[v]) {
      assert CallWanted(cfg, s.workers[v]);
    }
  }

  lemma DependencyWanted(cfg: Config, n: string, k: nat)
    requires Wanted(cfg, n) && k < |Deps(cfg, n)|
    ensures Wanted(cfg, Normalize(Deps(cfg, n)[k]))
  {
    var names := Names(cfg.files[n]);
    assert names[k] in names;
    ReachableStep(DepGraph(cfg), Names(cfg.start), n, names[k]);
  }

  lemma StartWanted(cfg: Config, k: nat)
    requires k < |cfg.start|
    ensures Wanted(cfg, Normalize(cfg.start[k]))
  {
    assert Names(cfg.start)[k] in Names(cfg.start);
    ReachableRoot(DepGraph(cfg), Names(cfg.start), Names(cfg.start)[k]);
  }

  /** A worker whose step leaves the list alone does not lose a name it took. */
  lemma ListOkMove(cfg: Config, s: State, u: State, t: nat)
    requires ListOk(cfg, s) && t < |s.workers| == |u.workers| && u.workers == s.workers[t := u.workers[t]]
    requires u.queue == s.queue && forall n | n in s.modules :: n in u.modules
    requires s.workers[t].Running? && (s.workers[t].call.Some? ==> Normalize(s.workers[t].call.value) in u.modules)
    requires u.workers[t].Returned? ==> u.queue == []
    ensures ListOk(cfg, u)
  {
    forall j | 0 <= j < |cfg.start| - |u.queue| ensures Taken(u, cfg.start[j]) {
      assert Taken(s, cfg.start[j]);
      if Normalize(cfg.start[j]) !in s.modules {
        var v :| 0 <= v < |s.workers| && s.workers[v] == Running(Some(cfg.start[j]), []);
        assert v != t ==> u.workers[v] == s.workers[v];
      }
    }
  }

  lemma ListOkPop(cfg: Config, s: State, t: nat)
    requires ListOk(cfg, s) && t < |s.workers| && s.workers[t] == Running(None, []) && s.queue != []
    ensures ListOk(cfg, Pop(s, t))
  {
    var u := Pop(s, t);
    var taken := |cfg.start| - |u.queue|;
    forall j | 0 <= j < taken ensures Taken(u, cfg.start[j]) {
      if j == taken - 1 {
        assert u.workers[t] == Running(Some(cfg.start[j]), []);
      } else {
        assert Taken(s, cfg.start[j]);
        if Normalize(cfg.start[j]) !in s.modules {
          var v :| 0 <= v < |s.workers| && s.workers[v] == Running(Some(cfg.start[j]), []);
          assert v != t && u.workers[v] == s.workers[v];
        }
      }
    }
  }

  /* One step */

  lemma PopInv(cfg: Config, s: State, t: nat)
    requires Inv(cfg, s) && t < |s.workers| && s.workers[t] == Running(None, [])
    ensures Inv(cfg, Pop(s, t))
  {
    var u := Pop(s, t);
    OwnershipSameNames(s, u, t, u.workers[t]);
    WorkersOkMove(cfg, s, u, t);
    LogsSameObjects(cfg, s, u, t, u.workers[t]);
    if s.queue != [] {
      StartWanted(cfg, |cfg.start| - |s.queue|);
      ListOkPop(cfg, s, t);
    } else {
      ListOkMove(cfg, s, u, t);
    }
    OnlyWantedMove(cfg, s, u, t);
  }

  lemma LookupInv(cfg: Config, s: State, t: nat, raw: string, stack: seq<Frame>)
    requires Inv(cfg, s) && t < |s.workers| && s.workers[t] == Running(Some(raw), stack)
    ensures Inv(cfg, Lookup(s, t, Normalize(raw), stack))
  {
    var n := Normalize(raw);
    var u := Lookup(s, t, n, stack);
    assert CallWanted(cfg, s.workers[t]) && WorkerOk(cfg, s.parsed, s.published, s.workers[t]);
    if n !in s.modules {
      OwnershipClaim(s, t, n, stack);
      ClaimOk(cfg, s.parsed, s.published, s.workers[t]);
      WorkersOkMove(cfg, s, u, t);
      LogsClaim(cfg, s, t, n, stack);
      OnlyWantedMove(cfg, s, u, t);
      ListOkMove(cfg, s, u, t);
    } else if s.modules[n].Ready? {
      OwnershipSameNames(s, u, t, u.workers[t]);
      assert ReadyAt(s, n);
      ReturnOk(cfg, s.parsed, s.published, s.workers[t]);
      WorkersOkMove(cfg, s, u, t);
      LogsSameObjects(cfg, s, u, t, u.workers[t]);
      OnlyWantedMove(cfg, s, u, t);
      ListOkMove(cfg, s, u, t);
    }
  }

  lemma OpenInv(cfg: Config, s: State, t: nat, below: seq<Frame>, n: string)
    requires Inv(cfg, s) && t < |s.workers| && s.workers[t] == Running(None, below + [Claimed(n)])
    ensures Inv(cfg, Open(cfg, s, t, below, n))
  {
    var u := Open(cfg, s, t, below, n);
    TopIsOwned(s, t, below, Claimed(n));
    if n in cfg.files {
      OwnershipSameNames(s, u, t, u.workers[t]);
      assert WorkerOk(cfg, s.parsed, s.published, s.workers[t]);
      OpenOk(cfg, s.parsed, s.published, below, n);
      WorkersOkMove(cfg, s, u, t);
      LogsOpen(cfg, s, t, below, n);
      OnlyWantedMove(cfg, s, u, t);
      ListOkMove(cfg, s, u, t);
    } else {
      AbortInv(cfg, s, t, n);
    }
  }

  lemma AbortInv(cfg: Config, s: State, t: nat, n: string)
    requires Inv(cfg, s) && t < |s.workers| && n in s.modules && n !in cfg.files
    ensures Inv(cfg, s.(aborted := true))
  {
    var u := s.(aborted := true);
    assert Wanted(cfg, n);
    assert s.workers[t := s.workers[t]] == s.workers;
    OwnershipSameNames(s, u, t, s.workers[t]);
    LogsSameObjects(cfg, s, u, t, s.workers[t]);
    AbortListOk(cfg, s);
  }

  lemma AbortListOk(cfg: Config, s: State)
    requires ListOk(cfg, s)
    ensures ListOk(cfg, s.(aborted := true))
  {
    forall j | 0 <= j < |cfg.start| - |s.queue| ensures Taken(s.(aborted := true), cfg.start[j]) {
      assert Taken(s, cfg.start[j]);
    }
  }

  lemma TopIsOwned(s: State, t: nat, below: seq<Frame>, f: Frame)
    requires Ownership(s) && t < |s.workers| && Stack(s.workers[t]) == below + [f]
    ensures f.name in s.modules && s.modules[f.name].Placeholder?
    ensures f.name in s.owner && s.owner[f.name] == (t, |below|)
  {
    assert FramesOwned(s, t) && Stack(s.workers[t])[|below|] == f;
  }

  lemma CallInv(cfg: Config, s: State, t: nat, below: seq<Frame>, f: Frame)
    requires Inv(cfg, s) && t < |s.workers| && s.workers[t] == Running(None, below + [f])
    requires f.Loading? && f.next < |Deps(cfg, f.name)|
    ensures Inv(cfg, Proceed(cfg, s, t, below, f))
  {
    var u := Proceed(cfg, s, t, below, f);
    TopIsOwned(s, t, below, f);
    assert WorkerOk(cfg, s.parsed, s.published, s.workers[t]);
    OwnershipSameNames(s, u, t, u.workers[t]);
    CallOk(cfg, s.parsed, s.published, below, f);
    WorkersOkMove(cfg, s, u, t);
    LogsSameObjects(cfg, s, u, t, u.workers[t]);
    DependencyWanted(cfg, f.name, f.next);
    OnlyWantedMove(cfg, s, u, t);
    ListOkMove(cfg, s, u, t);
  }

  lemma PublishInv(cfg: Config, s: State, t: nat, below: seq<Frame>, f: Frame)
    requires Inv(cfg, s) && t < |s.workers| && s.workers[t] == Running(None, below + [f])
    requires f.Loading? && f.next >= |Deps(cfg, f.name)|
    ensures Inv(cfg, Proceed(cfg, s, t, below, f))
  {
    var u := Proceed(cfg, s, t, below, f);
    TopIsOwned(s, t, below, f);
    assert WorkerOk(cfg, s.parsed, s.published, s.workers[t]);
    OwnershipPublish(cfg, s, t, below, f);
    PublishOk(cfg, s.parsed, s.published, below, f);
    WorkersOkMove(cfg, s, u, t);
    LogsPublish(cfg, s, t, below, f);
    OnlyWantedMove(cfg, s, u, t);
    ListOkMove(cfg, s, u, t);
  }

  lemma StepInv(cfg: Config, s: State, t: nat)
    requires Inv(cfg, s) && t < |s.workers|
    ensures Inv(cfg, Step(cfg, s, t))
  {
    var w := s.workers[t];
    if !s.aborted && w.Running? {
      if w.call.Some? {
        LookupInv(cfg, s, t, w.call.value, w.stack);
      } else if w.stack == [] {
        PopInv(cfg, s, t);
      } else {
        var below, f := w.stack[..|w.stack| - 1], w.stack[|w.stack| - 1];
        assert w.stack == below + [f];
        if f.Claimed? {
          OpenInv(cfg, s, t, below, f.name);
        } else if f.next < |Deps(cfg, f.name)| {
          CallInv(cfg, s, t, below, f);
        } else {
          PublishInv(cfg, s, t, below, f);
        }
      }
    }
  }

  /** The invariant holds after every schedule of any number of workers. */
  lemma {:induction false} ReachedInv(cfg: Config, workers: nat, order: seq<nat>)
    requires Schedule(workers, order)
    ensures Inv(cfg, After(cfg, workers, order))
  {
    if order == [] {
      InitInv(cfg, workers);
    } else {
      ReachedInv(cfg, workers, order[..|order| - 1]);
      StepInv(cfg, After(cfg, workers, order[..|order| - 1]), order[|order| - 1]);
    }
  }
}
