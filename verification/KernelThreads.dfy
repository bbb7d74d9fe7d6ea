/**
 The loader's code as one thread runs it: recursive calls for dependencies, a spin loop on an empty entry,
 and shared memory that changes between its critical sections as the other threads take their turns.
 Whatever the order of turns, the thread takes exactly the protocol's steps.
 */
module KernelThreads {
  import opened Options
  import opened ModuleNames
  import opened ModuleLoader
  import opened LoaderSafety

  /** The memory the threads share, seen by one of them while the turns of all are taken in a given order. */
  class Kernel {
    const cfg: Config
    const concurrency: nat
    const order: seq<nat>
    /** How many turns are over. */
    var at: nat
    var moduleMap: map<string, Entry>
    var modList: seq<string>
    /** The names of the parsed files; an object is named by its place here. */
    var parsed: seq<string>
    var failed: bool

    /** What the protocol says of this moment. */
    ghost function Now(): State
      requires Schedule(concurrency, order) && at <= |order|
      reads this
    {
      After(cfg, concurrency, order[..at])
    }

    ghost predicate Shows(s: State)
      reads this
    {
      moduleMap == s.modules && modList == s.queue && parsed == s.parsed && failed == s.aborted
    }

    ghost predicate Valid()
      reads this
    {
      Schedule(concurrency, order) && at <= |order| && Shows(Now())
    }

    /** Thread t is to go on here: its next call, and the activations it is in. */
    ghost predicate Stands(t: nat, call: Option<string>, stack: seq<Frame>)
      reads this
    {
      Valid() && t < concurrency && Now().workers[t] == Running(call, stack)
    }

    ghost predicate HasTurn(t: nat)
      reads this
    {
      Valid() && at < |order| && order[at] == t && !failed
    }

    /** Thread t cannot go on, though it has not returned: the program was aborted, or the turns are over. */
    ghost predicate Over(t: nat)
      reads this
    {
      Valid() && t < concurrency && Now().workers[t].Running? && (failed || at == |order|)
    }

    constructor (cfg: Config, concurrency: nat, order: seq<nat>)
      requires Schedule(concurrency, order)
      ensures this.cfg == cfg && this.concurrency == concurrency && this.order == order && at == 0 && Valid()
    {
      this.cfg, this.concurrency, this.order := cfg, concurrency, order;
      at, moduleMap, modList, parsed, failed := 0, map[], cfg.start, [], false;
    }

    /** Wait for the mutex: the others take their turns. False exactly if the program ends first. */
    method Lock(t: nat, ghost w: Worker) returns (on: bool)
      requires Valid() && t < concurrency && Now().workers[t] == w && w.Running?
      modifies this
      ensures Valid() && at >= old(at) && Now().workers[t] == w
      ensures if on then HasTurn(t) else Over(t)
    {
      while at < |order| && order[at] != t
        invariant Schedule(concurrency, order) && at <= |order| && at >= old(at)
        invariant Now().workers[t] == w
        decreases |order| - at
      {
        OthersTurn(t);
      }
      var now := After(cfg, concurrency, order[..at]);
      moduleMap, modList, parsed, failed := now.modules, now.queue, now.parsed, now.aborted;
      on := at < |order| && !failed;
    }

    method OthersTurn(t: nat)
      requires Schedule(concurrency, order) && t < concurrency && at < |order| && order[at] != t
      modifies this`at
      ensures at == old(at) + 1 && Now().workers[t] == old(Now()).workers[t]
    {
      assert order[..at + 1][..at] == order[..at];
      at := at + 1;
    }

    /** Give the mutex back after a turn that did what the protocol's step does. */
    method Unlock(t: nat, ghost before: State)
      requires Schedule(concurrency, order) && t < concurrency && at < |order| && order[at] == t
      requires before == Now() && Shows(Step(cfg, before, t))
      modifies this`at
      ensures Valid() && at == old(at) + 1 && Now() == Step(cfg, before, t)
    {
      assert order[..at + 1][..at] == order[..at];
      at := at + 1;
    }

    method LoadModule(t: nat, moduleNameOrig: string, ghost stack: seq<Frame>) returns (on: bool, id: nat)
      requires Stands(t, Some(moduleNameOrig), stack)
      modifies this
      ensures Valid() && at >= old(at) && (!on ==> Over(t))
      ensures on ==> at > old(at) && Stands(t, None, stack)
      ensures on ==> Normalize(moduleNameOrig) in moduleMap && moduleMap[Normalize(moduleNameOrig)] == Ready(id)
      decreases |order| - at, 2
    {
      var moduleName := Normalize(moduleNameOrig);
      id := 0;
      on := Lock(t, Running(Some(moduleNameOrig), stack));
      if !on { return; }
      if moduleName in moduleMap {
        on, id := Wait(t, moduleNameOrig, stack);
        return;
      }
      ghost var before := Now();
      moduleMap := moduleMap[moduleName := Placeholder];
      Unlock(t, before);
      on, id := LoadFile(t, moduleName, stack);
    }

    /** The spin loop on an entry that is there. */
    method Wait(t: nat, moduleNameOrig: string, ghost stack: seq<Frame>) returns (on: bool, id: nat)
      requires Stands(t, Some(moduleNameOrig), stack) && HasTurn(t) && Normalize(moduleNameOrig) in moduleMap
      modifies this
      ensures Valid() && at >= old(at) && (!on ==> Over(t))
      ensures on ==> at > old(at) && Stands(t, None, stack)
      ensures on ==> Normalize(moduleNameOrig) in moduleMap && moduleMap[Normalize(moduleNameOrig)] == Ready(id)
    {
      var moduleName := Normalize(moduleNameOrig);
      id := 0;
      while moduleMap[moduleName] == Placeholder
        invariant Stands(t, Some(moduleNameOrig), stack) && HasTurn(t) && at >= old(at)
        invariant moduleName in moduleMap
        decreases |order| - at
      {
        Unlock(t, Now());
        ghost var spun := at;
        on := Lock(t, Running(Some(moduleNameOrig), stack));
        if !on { return; }
        EntriesStay(cfg, concurrency, order, spun, at, moduleName);
      }
      id := moduleMap[moduleName].id;
      Unlock(t, Now());
      on := true;
    }

    /** Behind the claim: find and parse the file, load what it depends on, publish. */
    method LoadFile(t: nat, moduleName: string, ghost stack: seq<Frame>) returns (on: bool, id: nat)
      requires Stands(t, None, stack + [Claimed(moduleName)])
      modifies this
      ensures Valid() && at >= old(at) && (!on ==> Over(t))
      ensures on ==> Stands(t, None, stack) && moduleName in moduleMap && moduleMap[moduleName] == Ready(id)
      decreases |order| - at, 1
    {
      on, id := Parse(t, moduleName, stack);
      if !on { return; }
      on := LoadDependencies(t, moduleName, id, stack);
      if !on { return; }
      on := Publish(t, moduleName, id, stack);
    }

    method Parse(t: nat, moduleName: string, ghost stack: seq<Frame>) returns (on: bool, id: nat)
      requires Stands(t, None, stack + [Claimed(moduleName)])
      modifies this
      ensures Valid() && at >= old(at) && (!on ==> Over(t))
      ensures on ==> at > old(at) && moduleName in cfg.files && Stands(t, None, stack + [Loading(moduleName, id, 0)])
    {
      id := 0;
      on := Lock(t, Running(None, stack + [Claimed(moduleName)]));
      if !on { return; }
      ghost var before := Now();
      if moduleName !in cfg.files {
        failed := true;
        Unlock(t, before);
        return false, 0;
      }
      id := |parsed|;
      parsed := parsed + [moduleName];
      Unlock(t, before);
    }

    method Publish(t: nat, moduleName: string, id: nat, ghost stack: seq<Frame>) returns (on: bool)
      requires moduleName in cfg.files
      requires Stands(t, None, stack + [Loading(moduleName, id, |cfg.files[moduleName]|)])
      modifies this
      ensures Valid() && at >= old(at) && (!on ==> Over(t))
      ensures on ==> Stands(t, None, stack) && moduleName in moduleMap && moduleMap[moduleName] == Ready(id)
    {
      on := Lock(t, Running(None, stack + [Loading(moduleName, id, |cfg.files[moduleName]|)]));
      if !on { return; }
      ghost var before := Now();
      moduleMap := moduleMap[moduleName := Ready(id)];
      Unlock(t, before);
    }

    /** One recursive load for each name the file lists. */
    method LoadDependencies(t: nat, moduleName: string, id: nat, ghost stack: seq<Frame>) returns (on: bool)
      requires moduleName in cfg.files && Stands(t, None, stack + [Loading(moduleName, id, 0)])
      modifies this
      ensures Valid() && at >= old(at) && (!on ==> Over(t))
      ensures on ==> Stands(t, None, stack + [Loading(moduleName, id, |cfg.files[moduleName]|)])
      decreases |order| - at, 0
    {
      var names := cfg.files[moduleName];
      var next := 0;
      while next < |names|
        invariant next <= |names| && at >= old(at)
        invariant Stands(t, None, stack + [Loading(moduleName, id, next)])
      {
        ghost var f := Loading(moduleName, id, next);
        on := Lock(t, Running(None, stack + [f]));
        if !on { return; }
        Unlock(t, Now());
        var loaded;
        on, loaded := LoadModule(t, names[next], stack + [f.(next := next + 1)]);
        if !on { return; }
        next := next + 1;
      }
      on := true;
    }

    /** `loadModuleThread`. */
    method LoadModuleThread(t: nat) returns (done: bool)
      requires Stands(t, None, [])
      modifies this
      ensures Valid() && at >= old(at)
      ensures if done then Now().workers[t].Returned? else Over(t)
    {
      while true
        invariant Stands(t, None, []) && at >= old(at)
        decreases |order| - at
      {
        done := Lock(t, Running(None, []));
        if !done { return; }
        ghost var before := Now();
        if modList == [] {
          Unlock(t, before);
          return true;
        }
        var name := modList[0];
        modList := modList[1..];
        Unlock(t, before);
        var loaded;
        done, loaded := LoadModule(t, name, []);
        if !done { return; }
      }
    }
  }

  /** Entries of the map stay while turns are taken. */
  lemma {:induction false} EntriesStay(cfg: Config, workers: nat, order: seq<nat>, i: nat, j: nat, n: string)
    requires Schedule(workers, order) && i <= j <= |order| && n in After(cfg, workers, order[..i]).modules
    ensures n in After(cfg, workers, order[..j]).modules
    decreases j
  {
    if i < j {
      assert order[..j][..j - 1] == order[..j - 1];
      EntriesStay(cfg, workers, order, i, j - 1, n);
    }
  }

  lemma {:induction false} ReturnedStays(cfg: Config, workers: nat, order: seq<nat>, i: nat, j: nat, t: nat)
    requires Schedule(workers, order) && i <= j <= |order| && t < workers
    requires After(cfg, workers, order[..i]).workers[t].Returned?
    ensures After(cfg, workers, order[..j]).workers[t].Returned?
    decreases j
  {
    if i < j {
      ReturnedStays(cfg, workers, order, i, j - 1, t);
      AfterNext(cfg, workers, order, j);
      ReturnedStep(cfg, After(cfg, workers, order[..j - 1]), order[j - 1], t);
    }
  }

  lemma AfterNext(cfg: Config, workers: nat, order: seq<nat>, j: nat)
    requires Schedule(workers, order) && 0 < j <= |order|
    ensures After(cfg, workers, order[..j]) == Step(cfg, After(cfg, workers, order[..j - 1]), order[j - 1])
  {
    assert order[..j][..j - 1] == order[..j - 1];
  }

  lemma ReturnedStep(cfg: Config, s: State, u: nat, t: nat)
    requires u < |s.workers| && t < |s.workers| && s.workers[t].Returned?
    ensures t < |Step(cfg, s, u).workers| && Step(cfg, s, u).workers[t].Returned?
  {
  }

  /** An aborted program takes no further steps. */
  lemma {:induction false} AbortStays(cfg: Config, workers: nat, order: seq<nat>, i: nat, j: nat)
    requires Schedule(workers, order) && i <= j <= |order| && After(cfg, workers, order[..i]).aborted
    ensures After(cfg, workers, order[..j]) == After(cfg, workers, order[..i])
    decreases j
  {
    if i < j {
      AbortStays(cfg, workers, order, i, j - 1);
      AfterNext(cfg, workers, order, j);
    }
  }

  /** One thread from its start: it returns exactly if it returns in the protocol while the turns last. */
  method RunThread(cfg: Config, concurrency: nat, order: seq<nat>, t: nat) returns (done: bool)
    requires Schedule(concurrency, order) && t < concurrency
    ensures done <==> After(cfg, concurrency, order).workers[t].Returned?
  {
    var kernel := new Kernel(cfg, concurrency, order);
    assert order[..0] == [];
    done := kernel.LoadModuleThread(t);
    assert order[..|order|] == order;
    if done {
      ReturnedStays(cfg, concurrency, order, kernel.at, |order|, t);
    } else if kernel.failed {
      AbortStays(cfg, concurrency, order, kernel.at, |order|);
    }
  }

  /**
   `loadAllModules`: every thread runs its code, in turns that are the same for all. All join exactly if
   the protocol does, and then the closing assertion holds.
   */
  method LoadAllModules(cfg: Config, concurrency: nat, order: seq<nat>)
    returns (joined: bool, moduleMap: map<string, Entry>)
    requires Schedule(concurrency, order)
    ensures moduleMap == After(cfg, concurrency, order).modules
    ensures joined <==> Joined(After(cfg, concurrency, order))
    ensures joined ==> forall n | n in moduleMap :: moduleMap[n] != Placeholder
  {
    var last := After(cfg, concurrency, order);
    joined, moduleMap := !last.aborted, last.modules;
    for t := 0 to concurrency
      invariant joined <==> !last.aborted && forall u | 0 <= u < t :: last.workers[u].Returned?
    {
      var done := RunThread(cfg, concurrency, order, t);
      joined := joined && done;
    }
    if joined {
      JoinedIsReady(cfg, concurrency, order);
    }
  }

  lemma JoinedIsReady(cfg: Config, workers: nat, order: seq<nat>)
    requires Schedule(workers, order) && Joined(After(cfg, workers, order))
    ensures forall n | n in After(cfg, workers, order).modules :: After(cfg, workers, order).modules[n].Ready?
  {
    var s := After(cfg, workers, order);
    ReachedInv(cfg, workers, order);
    forall n | n in s.modules ensures s.modules[n].Ready? {
      assert s.modules[n].Placeholder? ==> HasOwner(s, n);
    }
  }
}
