/**
 Relocation of a kernel module (an ET_REL file): the loop over the RELA sections, the resolution
 of section-relative symbols in place, and the fields it writes, judged against the
 calculations of section 4.4.1 of the System V AMD64 psABI.
 */
module Relocation {
  import opened Options
  import opened Bytes
  import opened Patching
  import opened Sections

  const SHN_UNDEF: nat := 0
  const SHN_LORESERVE: nat := 0xff00
  const SHN_ABS: nat := 0xfff1
  const SHN_COMMON: nat := 0xfff2

  const R_NONE: nat := 0
  const R_64: nat := 1
  const R_PC32: nat := 2
  const R_COPY: nat := 5
  const R_GLOB_DAT: nat := 6
  const R_JUMP_SLOT: nat := 7
  const R_RELATIVE: nat := 8
  const R_32: nat := 10
  const R_32S: nat := 11
  const R_IRELATIVE: nat := 37

  datatype Symbol = Symbol(name: string, shndx: nat, value: int)

  datatype Rela = Rela(offset: int, sym: nat, kind: nat, addend: int)

  datatype SectionKind = RelTable | RelaTable | OtherKind

  /** A section header; `section.mem` is the address `updateSectionInfoMemAddress` finds for it. */
  datatype Header = Header(name: string, kind: SectionKind, info: nat, alloc: bool, section: Section, relocs: seq<Rela>)

  /**
   What the loop consults: the headers, the per-CPU section with the guest's address for it
   (`None` when the file has no such section), and the kernel's exported symbols.
   */
  datatype Env = Env(headers: seq<Header>, percpu: Option<(nat, int)>, exported: map<string, int>)

  /** The file and its symbol table; `ok` is false once an error was thrown or an assertion failed. */
  datatype State = State(img: seq<byte>, symbols: seq<Symbol>, ok: bool)

  /** One relocation of section `target`, or a reason to stop. */
  datatype Job = Job(target: nat, rela: Rela) | Unsupported

  predicate IsWord64(v: int) {
    0 <= v < TWO_64
  }

  /** Guest address of the section a symbol refers to. */
  function SymbolBase(env: Env, shndx: nat): int
    requires shndx < |env.headers|
  {
    if env.percpu.Some? && env.percpu.value.0 == shndx then env.percpu.value.1 else env.headers[shndx].section.mem
  }

  /** A value below the section's guest address is taken for an offset into the section. */
  function Resolve(base: int, value: int): int {
    if value < base then (value + base) % TWO_64 else value
  }

  /** `st_value` after the switch on `st_shndx`. */
  function ResolvedValue(env: Env, s: Symbol): int
    requires s.shndx < |env.headers|
  {
    if s.shndx == SHN_UNDEF then (if s.name in env.exported then env.exported[s.name] else 0)
    else if s.shndx == SHN_ABS then s.value
    else Resolve(SymbolBase(env, s.shndx), s.value)
  }

  predicate KnownSymbol(env: Env, s: Symbol) {
    s.shndx < |env.headers| && s.shndx != SHN_COMMON
  }

  predicate KnownKind(kind: nat) {
    kind in {R_NONE, R_64, R_PC32, R_COPY, R_GLOB_DAT, R_JUMP_SLOT, R_RELATIVE, R_32, R_32S, R_IRELATIVE}
  }

  function Width(kind: nat): nat {
    if kind == R_NONE || kind == R_COPY then 0 else if kind == R_32S || kind == R_PC32 then 4 else 8
  }

  /** The place of the field in the file and in the guest. */
  function Place(env: Env, job: Job): int
    requires job.Job? && job.target < |env.headers|
  {
    env.headers[job.target].section.index + job.rela.offset
  }

  function GuestPlace(env: Env, job: Job): int
    requires job.Job? && job.target < |env.headers|
  {
    env.headers[job.target].section.mem + job.rela.offset
  }

  /** What is written for a symbol whose resolved value is `value`. */
  function FieldValue(env: Env, job: Job, shndx: nat, value: int): int
    requires job.Job? && job.target < |env.headers| && shndx < |env.headers|
  {
    var v := value + job.rela.addend;
    if job.rela.kind == R_RELATIVE || job.rela.kind == R_IRELATIVE then job.rela.addend
    else if job.rela.kind != R_PC32 then v
    else if env.headers[job.target].name == ".altinstructions" then
      v - SymbolBase(env, shndx) + env.headers[shndx].section.index - Place(env, job)
    else v - GuestPlace(env, job)
  }

  function FieldWrite(env: Env, job: Job, shndx: nat, value: int): (w: Write)
    requires job.Job? && job.target < |env.headers| && shndx < |env.headers|
    ensures w.off == Place(env, job) && |w.data| == Width(job.rela.kind)
  {
    Write(Place(env, job), Store(FieldValue(env, job, shndx, value), Width(job.rela.kind)))
  }

  /** One turn of the relocation loop. */
  function Relocate(env: Env, s: State, job: Job): (r: State)
    requires JobInBounds(env, |s.img|, |s.symbols|, job)
    ensures |r.img| == |s.img| && |r.symbols| == |s.symbols|
  {
    if job.Unsupported? then s.(ok := false) else
      var sym := s.symbols[job.rela.sym];
      if !KnownSymbol(env, sym) then s.(ok := false) else
        var value := ResolvedValue(env, sym);
        var symbols := s.symbols[job.rela.sym := sym.(value := value)];
        if !KnownKind(job.rela.kind) then State(s.img, symbols, false)
        else State(Put(s.img, FieldWrite(env, job, sym.shndx, value)), symbols, s.ok)
  }

  /** The field lies inside the file and the symbol in the table. */
  predicate JobInBounds(env: Env, size: nat, symbols: nat, job: Job) {
    job.Job? ==>
      && job.target < |env.headers| && job.rela.sym < symbols
      && 0 <= Place(env, job) && Place(env, job) + Width(job.rela.kind) <= size
  }

  ghost predicate InBounds(env: Env, size: nat, symbols: nat, jobs: seq<Job>) {
    forall j | j in jobs :: JobInBounds(env, size, symbols, j)
  }

  function RelocateAll(env: Env, s: State, jobs: seq<Job>): (r: State)
    requires InBounds(env, |s.img|, |s.symbols|, jobs)
    ensures |r.img| == |s.img| && |r.symbols| == |s.symbols|
  {
    if jobs == [] then s else
      assert jobs[|jobs| - 1] in jobs && forall j | j in jobs[..|jobs| - 1] :: j in jobs;
      var before := RelocateAll(env, s, jobs[..|jobs| - 1]);
      if !before.ok then before else Relocate(env, before, jobs[|jobs| - 1])
  }

  /** The relocations header `i` stands for; none when the section it describes is not allocated. */
  function JobsOf(env: Env, i: nat): seq<Job>
    requires i < |env.headers|
  {
    var h := env.headers[i];
    if h.info >= |env.headers| || !env.headers[h.info].alloc || h.kind.OtherKind? then []
    else if h.kind.RelTable? || env.percpu.None? then [Unsupported]
    else RelaJobs(h.info, h.relocs)
  }

  function RelaJobs(target: nat, relocs: seq<Rela>): (jobs: seq<Job>)
    ensures |jobs| == |relocs|
  {
    if relocs == [] then [] else RelaJobs(target, relocs[..|relocs| - 1]) + [Job(target, relocs[|relocs| - 1])]
  }

  lemma {:induction false} RelaJobAt(target: nat, relocs: seq<Rela>, k: nat)
    requires k < |relocs|
    ensures RelaJobs(target, relocs)[k] == Job(target, relocs[k])
  {
    if k < |relocs| - 1 {
      RelaJobAt(target, relocs[..|relocs| - 1], k);
    }
  }

  function Jobs(env: Env, n: nat): seq<Job>
    requires n <= |env.headers|
  {
    if n == 0 then [] else Jobs(env, n - 1) + JobsOf(env, n - 1)
  }

  class ElfFile64 {
    var file: array<byte>
    var symbols: seq<Symbol>

    constructor (file: array<byte>, symbols: seq<Symbol>)
      ensures this.file == file && this.symbols == symbols
    {
      this.file, this.symbols := file, symbols;
    }

    ghost function Contents(ok: bool): State
      reads this, file
    {
      State(file[..], symbols, ok)
    }

    /** Returns false when the program stops with an error or a failed assertion. */
    method ApplyRelocations(env: Env) returns (ok: bool)
      requires InBounds(env, file.Length, |symbols|, Jobs(env, |env.headers|))
      modifies file, this`symbols
      ensures InBounds(env, old(file.Length), |old(symbols)|, Jobs(env, |env.headers|))
      ensures Contents(ok) == RelocateAll(env, old(Contents(true)), Jobs(env, |env.headers|))
    {
      ghost var start := Contents(true);
      ok := true;
      NoSectionDone(env, start);
      for i := 0 to |env.headers|
        invariant ok && file.Length == |start.img| && |symbols| == |start.symbols|
        invariant SectionsDone(env, start, i, Contents(true))
      {
        ok := ApplyNext(env, i, start);
        if !ok {
          return;
        }
      }
    }

    /** The next section, in the run over all of them. */
    method ApplyNext(env: Env, i: nat, ghost start: State) returns (ok: bool)
      requires i < |env.headers| && start.ok && |start.img| == file.Length && |start.symbols| == |symbols|
      requires InBounds(env, |start.img|, |start.symbols|, Jobs(env, |env.headers|))
      requires SectionsDone(env, start, i, Contents(true))
      modifies file, this`symbols
      ensures |symbols| == |start.symbols|
      ensures ok ==> SectionsDone(env, start, i + 1, Contents(true))
      ensures !ok ==> SectionsDone(env, start, |env.headers|, Contents(false))
    {
      ghost var before := Contents(true);
      SectionInBounds(env, start, i);
      ok := ApplySection(env, i);
      SectionDone(env, start, i, before, Contents(ok));
    }

    /** The body of the loop over the sections. */
    method ApplySection(env: Env, i: nat) returns (ok: bool)
      requires i < |env.headers| && InBounds(env, file.Length, |symbols|, JobsOf(env, i))
      modifies file, this`symbols
      ensures |symbols| == |old(symbols)|
      ensures Contents(ok) == RelocateAll(env, old(Contents(true)), JobsOf(env, i))
    {
      var h := env.headers[i];
      if h.info >= |env.headers| || !env.headers[h.info].alloc {
        return true;
      }
      if h.kind.RelTable? {
        return false;
      }
      ok := true;
      if h.kind.RelaTable? {
        ok := ApplyRelaOnSection(env, i);
      }
    }

    method ApplyRelaOnSection(env: Env, relSectionId: nat) returns (ok: bool)
      requires relSectionId < |env.headers| && env.headers[relSectionId].kind.RelaTable?
      requires env.headers[relSectionId].info < |env.headers| && env.headers[env.headers[relSectionId].info].alloc
      requires InBounds(env, file.Length, |symbols|, JobsOf(env, relSectionId))
      modifies file, this`symbols
      ensures |symbols| == |old(symbols)|
      ensures Contents(ok) == RelocateAll(env, old(Contents(true)), JobsOf(env, relSectionId))
    {
      ghost var start, jobs := Contents(true), JobsOf(env, relSectionId);
      var h := env.headers[relSectionId];
      if env.percpu.None? {
        return false;
      }
      ok := true;
      var cachedId := -1;
      var cached := Section(0, 0, 0);
      for i := 0 to |h.relocs|
        invariant ok && |symbols| == |start.symbols|
        invariant cachedId >= 0 ==> CacheHolds(env, cachedId, cached)
        invariant InBounds(env, file.Length, |symbols|, jobs[..i])
        invariant Contents(ok) == RelocateAll(env, start, jobs[..i])
      {
        assert jobs[..i + 1][..i] == jobs[..i];
        RelaJobAt(h.info, h.relocs, i);
        assert jobs[i] in jobs;
        ok, cachedId, cached := ApplyRela(env, h.info, h.relocs[i], cachedId, cached);
        if !ok {
          StaysFailed(env, start, jobs[..i + 1], jobs);
          return;
        }
      }
      assert jobs[..|h.relocs|] == jobs;
    }

    /** The body of the loop over one RELA section, with its one-entry section cache. */
    method ApplyRela(env: Env, target: nat, rela: Rela, cachedId: int, cached: Section)
      returns (ok: bool, nextId: int, next: Section)
      requires JobInBounds(env, file.Length, |symbols|, Job(target, rela)) && env.percpu.Some?
      requires cachedId >= 0 ==> CacheHolds(env, cachedId, cached)
      modifies file, this`symbols
      ensures Contents(ok) == Relocate(env, old(Contents(true)), Job(target, rela))
      ensures nextId >= 0 ==> CacheHolds(env, nextId, next)
    {
      var sym := symbols[rela.sym];
      nextId, next := cachedId, cached;
      if nextId != sym.shndx {
        if sym.shndx >= |env.headers| {
          return false, nextId, next;
        }
        nextId, next := sym.shndx, LookUp(env, sym.shndx);
      }
      if sym.shndx == SHN_COMMON {
        return false, nextId, next;
      }
      var value := ValueOf(env, sym, next);
      symbols := symbols[rela.sym := sym.(value := value)];
      if !KnownKind(rela.kind) {
        return false, nextId, next;
      }
      WriteField(env, target, rela, sym.shndx, value, next);
      return true, nextId, next;
    }

    /** The switch on the relocation type, with the file and guest addresses of the cached section. */
    method WriteField(env: Env, target: nat, rela: Rela, ghost shndx: nat, value: int, cached: Section)
      requires target < |env.headers| && CacheHolds(env, shndx, cached)
      requires Fits(file.Length, FieldWrite(env, Job(target, rela), shndx, value))
      modifies file
      ensures file[..] == Put(old(file[..]), FieldWrite(env, Job(target, rela), shndx, value))
    {
      var locInElf := env.headers[target].section.index + rela.offset;
      var val := ValueToWrite(env, target, rela, shndx, value, cached);
      Copy(file, locInElf, Store(val, Width(rela.kind)));
    }
  }

  method ValueToWrite(env: Env, target: nat, rela: Rela, ghost shndx: nat, value: int, cached: Section)
    returns (val: int)
    requires target < |env.headers| && CacheHolds(env, shndx, cached)
    ensures val == FieldValue(env, Job(target, rela), shndx, value)
  {
    var targetSection := env.headers[target].section;
    val := value + rela.addend;
    if rela.kind == R_RELATIVE || rela.kind == R_IRELATIVE {
      val := rela.addend;
    } else if rela.kind == R_PC32 {
      if env.headers[target].name == ".altinstructions" {
        val := val - cached.mem + cached.index - (targetSection.index + rela.offset);
      } else {
        val := val - (targetSection.mem + rela.offset);
      }
    }
  }

  /** `findSectionByID` and `updateSectionInfoMemAddress`; the per-CPU section has an address of its own. */
  function LookUp(env: Env, id: nat): (s: Section)
    requires id < |env.headers|
    ensures CacheHolds(env, id, s)
  {
    var s := env.headers[id].section;
    if env.percpu.Some? && id == env.percpu.value.0 then s.(mem := env.percpu.value.1) else s
  }

  /** The switch on the symbol's section. */
  method ValueOf(env: Env, sym: Symbol, cached: Section) returns (value: int)
    requires CacheHolds(env, sym.shndx, cached)
    ensures value == ResolvedValue(env, sym)
  {
    value := sym.value;
    if sym.shndx == SHN_UNDEF {
      value := if sym.name in env.exported then env.exported[sym.name] else 0;
    } else if sym.shndx != SHN_ABS {
      if value < cached.mem {
        value := (value + cached.mem) % TWO_64;
      }
    }
  }

  /** The cached section is the one its number names, with the address symbols of it are resolved by. */
  ghost predicate CacheHolds(env: Env, id: int, s: Section) {
    0 <= id < |env.headers| && s.index == env.headers[id].section.index && s.mem == SymbolBase(env, id)
  }

  lemma {:induction false} JobsSplit(env: Env, n: nat, m: nat) returns (rest: seq<Job>)
    requires n <= m <= |env.headers|
    ensures Jobs(env, m) == Jobs(env, n) + rest
  {
    if n == m {
      rest := [];
      NothingMore(Jobs(env, n));
    } else {
      var front := m - 1;
      var more := JobsSplit(env, n, front);
      rest := more + JobsOf(env, front);
      Associative(Jobs(env, n), more, JobsOf(env, front));
    }
  }

  lemma NothingMore(js: seq<Job>)
    ensures js + [] == js
  {
  }

  lemma Associative(a: seq<Job>, b: seq<Job>, c: seq<Job>)
    ensures (a + b) + c == a + (b + c)
  {
  }

  lemma FrontInBounds(env: Env, size: nat, symbols: nat, js: seq<Job>, more: seq<Job>, all: seq<Job>)
    requires all == js + more && InBounds(env, size, symbols, all)
    ensures js <= all && InBounds(env, size, symbols, js) && InBounds(env, size, symbols, more)
  {
    forall j | j in js || j in more ensures j in all {}
  }

  lemma {:induction false} RelocateAppend(env: Env, s: State, js: seq<Job>, more: seq<Job>)
    requires InBounds(env, |s.img|, |s.symbols|, js + more) && s.ok
    ensures InBounds(env, |s.img|, |s.symbols|, js) && InBounds(env, |s.img|, |s.symbols|, more)
    ensures var t := RelocateAll(env, s, js);
      RelocateAll(env, s, js + more) == if t.ok then RelocateAll(env, t, more) else t
  {
    assert forall j | j in js :: j in js + more;
    assert forall j | j in more :: j in js + more;
    if more == [] {
      assert js + more == js;
    } else {
      assert (js + more)[..|js + more| - 1] == js + more[..|more| - 1];
      RelocateAppend(env, s, js, more[..|more| - 1]);
    }
  }

  /** The relocations of the sections below n lead from one state to the other. */
  ghost predicate SectionsDone(env: Env, start: State, n: nat, now: State) {
    && n <= |env.headers|
    && InBounds(env, |start.img|, |start.symbols|, Jobs(env, n))
    && now == RelocateAll(env, start, Jobs(env, n))
  }

  lemma NoSectionDone(env: Env, start: State)
    ensures SectionsDone(env, start, 0, start)
  {
  }

  lemma {:induction false} SectionInBounds(env: Env, s: State, i: nat)
    requires i < |env.headers| && InBounds(env, |s.img|, |s.symbols|, Jobs(env, |env.headers|))
    ensures InBounds(env, |s.img|, |s.symbols|, JobsOf(env, i))
    ensures InBounds(env, |s.img|, |s.symbols|, Jobs(env, i + 1))
  {
    var next := i + 1;
    var rest := JobsSplit(env, next, |env.headers|);
    FrontInBounds(env, |s.img|, |s.symbols|, Jobs(env, next), rest, Jobs(env, |env.headers|));
    FrontInBounds(env, |s.img|, |s.symbols|, Jobs(env, i), JobsOf(env, i), Jobs(env, next));
  }

  /** The sections up to i, then section i, are the sections up to i + 1, or all there is when it stops. */
  lemma {:induction false} SectionDone(env: Env, s: State, i: nat, t: State, u: State)
    requires i < |env.headers| && s.ok && t.ok && InBounds(env, |s.img|, |s.symbols|, Jobs(env, |env.headers|))
    requires SectionsDone(env, s, i, t)
    requires InBounds(env, |t.img|, |t.symbols|, JobsOf(env, i)) && u == RelocateAll(env, t, JobsOf(env, i))
    ensures SectionsDone(env, s, i + 1, u)
    ensures !u.ok ==> SectionsDone(env, s, |env.headers|, u)
  {
    SectionInBounds(env, s, i);
    var next := i + 1;
    DoneMore(env, s, Jobs(env, i), JobsOf(env, i), Jobs(env, next), t);
    if !u.ok {
      StoppedForGood(env, s, next, u);
    }
  }

  lemma {:induction false} DoneMore(env: Env, s: State, js: seq<Job>, more: seq<Job>, all: seq<Job>, t: State)
    requires all == js + more && InBounds(env, |s.img|, |s.symbols|, all) && s.ok
    requires InBounds(env, |s.img|, |s.symbols|, js) && t == RelocateAll(env, s, js) && t.ok
    requires InBounds(env, |t.img|, |t.symbols|, more)
    ensures RelocateAll(env, s, all) == RelocateAll(env, t, more)
  {
    RelocateAppend(env, s, js, more);
  }

  lemma {:induction false} StoppedForGood(env: Env, s: State, n: nat, u: State)
    requires SectionsDone(env, s, n, u) && !u.ok && InBounds(env, |s.img|, |s.symbols|, Jobs(env, |env.headers|))
    ensures SectionsDone(env, s, |env.headers|, u)
  {
    var rest := JobsSplit(env, n, |env.headers|);
    FrontInBounds(env, |s.img|, |s.symbols|, Jobs(env, n), rest, Jobs(env, |env.headers|));
    StaysFailed(env, s, Jobs(env, n), Jobs(env, |env.headers|));
  }

  /** Once stopped, later relocations do nothing. */
  lemma {:induction false} StaysFailed(env: Env, s: State, js: seq<Job>, all: seq<Job>)
    requires InBounds(env, |s.img|, |s.symbols|, all) && js <= all
    requires InBounds(env, |s.img|, |s.symbols|, js) && !RelocateAll(env, s, js).ok
    ensures RelocateAll(env, s, all) == RelocateAll(env, s, js)
  {
    if js != all {
      assert forall j | j in all[..|all| - 1] :: j in all;
      assert js <= all[..|all| - 1];
      StaysFailed(env, s, js, all[..|all| - 1]);
    }
  }

  // ---- When a relocation stops ----------------------------------------------------

  /** A type the code knows, and a symbol whose section exists, as the file holds it. */
  predicate GoesThrough(env: Env, symbols: seq<Symbol>, job: Job)
    requires job.Job? ==> job.rela.sym < |symbols|
  {
    job.Job? && KnownSymbol(env, symbols[job.rela.sym]) && KnownKind(job.rela.kind)
  }

  /** No relocation moves a symbol to another section. */
  lemma {:induction false} SectionsStay(env: Env, s: State, jobs: seq<Job>, k: nat)
    requires InBounds(env, |s.img|, |s.symbols|, jobs) && k < |s.symbols|
    ensures RelocateAll(env, s, jobs).symbols[k].shndx == s.symbols[k].shndx
  {
    if jobs != [] {
      var front := jobs[..|jobs| - 1];
      assert jobs[|jobs| - 1] in jobs && forall j | j in front :: j in jobs;
      SectionsStay(env, s, front, k);
    }
  }

  /** A run goes through exactly if every relocation of it would, on the symbols as the file holds them. */
  lemma {:induction false} RunsThroughIff(env: Env, s: State, jobs: seq<Job>)
    requires InBounds(env, |s.img|, |s.symbols|, jobs) && s.ok
    ensures RelocateAll(env, s, jobs).ok <==> forall j | j in jobs :: GoesThrough(env, s.symbols, j)
  {
    if jobs != [] {
      var front, last := jobs[..|jobs| - 1], jobs[|jobs| - 1];
      assert jobs == front + [last] && last in jobs && forall j | j in front :: j in jobs;
      RunsThroughIff(env, s, front);
      if last.Job? {
        SectionsStay(env, s, front, last.rela.sym);
      }
    }
  }

  /** ELF numbers sections below the reserved indices, so a run that names an absolute symbol stops. */
  lemma AbsoluteSymbolStops(env: Env, s: State, jobs: seq<Job>, j: Job)
    requires InBounds(env, |s.img|, |s.symbols|, jobs) && s.ok && |env.headers| < SHN_LORESERVE
    requires j in jobs && j.Job? && s.symbols[j.rela.sym].shndx == SHN_ABS
    ensures !RelocateAll(env, s, jobs).ok
  {
    RunsThroughIff(env, s, jobs);
    assert !GoesThrough(env, s.symbols, j);
  }

  // ---- Symbols are resolved once --------------------------------------------------

  /**
   Resolving twice is resolving once exactly when the value is not below the base, or adding the
   base does not wrap around.
   */
  lemma ResolveOnceIff(base: int, value: int)
    requires IsWord64(base) && IsWord64(value)
    ensures Resolve(base, Resolve(base, value)) == Resolve(base, value)
      <==> (value >= base || value + base < TWO_64)
  {}

  /** An offset so large that adding the base wraps around is taken for an offset again. */
  lemma WrappedTwice()
    ensures var base, value := 0xffff_ffff_a000_0000, 0xffff_ffff_9000_0000;
      Resolve(base, value) == 0xffff_ffff_3000_0000 && Resolve(base, Resolve(base, value)) == 0xffff_fffe_d000_0000
  {}

  /** A symbol whose value no sequence of relocations can move twice. */
  predicate Settles(env: Env, s: Symbol) {
    KnownSymbol(env, s) && (s.shndx == SHN_UNDEF || s.shndx == SHN_ABS ||
      (IsWord64(s.value) && IsWord64(SymbolBase(env, s.shndx)) &&
        (s.value >= SymbolBase(env, s.shndx) || s.value + SymbolBase(env, s.shndx) < TWO_64)))
  }

  predicate Good(env: Env, symbols: seq<Symbol>, job: Job) {
    && job.Job? && job.target < |env.headers| && job.rela.sym < |symbols|
    && KnownKind(job.rela.kind) && Settles(env, symbols[job.rela.sym])
  }

  /** What relocation `job` writes, computed from the symbol table as the file holds it. */
  function WriteOf(env: Env, symbols: seq<Symbol>, job: Job): Write
    requires Good(env, symbols, job)
  {
    var sym := symbols[job.rela.sym];
    FieldWrite(env, job, sym.shndx, ResolvedValue(env, sym))
  }

  function WritesOf(env: Env, symbols: seq<Symbol>, jobs: seq<Job>): (ws: seq<Write>)
    requires forall i | 0 <= i < |jobs| :: Good(env, symbols, jobs[i])
    ensures |ws| == |jobs|
  {
    seq(|jobs|, i requires 0 <= i < |jobs| => WriteOf(env, symbols, jobs[i]))
  }

  predicate Uses(jobs: seq<Job>, k: nat) {
    exists i :: 0 <= i < |jobs| && jobs[i].Job? && jobs[i].rela.sym == k
  }

  /** Every symbol some relocation names has been resolved, the others are as the file holds them. */
  ghost function SymbolsAfter(env: Env, symbols: seq<Symbol>, jobs: seq<Job>): (r: seq<Symbol>)
    requires forall i | 0 <= i < |jobs| :: Good(env, symbols, jobs[i])
    ensures |r| == |symbols|
  {
    seq(|symbols|, k requires 0 <= k < |symbols| =>
      if Uses(jobs, k) && symbols[k].shndx < |env.headers|
      then symbols[k].(value := ResolvedValue(env, symbols[k])) else symbols[k])
  }

  /**
   However many relocations name a symbol, and in whatever order: each is resolved once, and the
   image is the list of writes computed from the symbol table as the file holds it.
   */
  lemma {:induction false} RelocationIsWrites(env: Env, s: State, jobs: seq<Job>)
    requires s.ok && InBounds(env, |s.img|, |s.symbols|, jobs)
    requires forall i | 0 <= i < |jobs| :: Good(env, s.symbols, jobs[i])
    ensures RelocateAll(env, s, jobs)
      == State(PutAll(s.img, WritesOf(env, s.symbols, jobs)), SymbolsAfter(env, s.symbols, jobs), true)
  {
    if jobs == [] {
      assert SymbolsAfter(env, s.symbols, jobs) == s.symbols;
    } else {
      var front, last := jobs[..|jobs| - 1], jobs[|jobs| - 1];
      assert last in jobs && forall j | j in front :: j in jobs;
      assert Good(env, s.symbols, last);
      RelocationIsWrites(env, s, front);
      var before := RelocateAll(env, s, front);
      RelocateGood(env, before, s.symbols, front, last);
      assert front + [last] == jobs;
      WritesSnoc(env, s.img, s.symbols, jobs, front, last);
    }
  }

  lemma {:induction false} WritesSnoc(env: Env, img: seq<byte>, symbols: seq<Symbol>, jobs: seq<Job>, front: seq<Job>,
    last: Job)
    requires front + [last] == jobs && forall i | 0 <= i < |jobs| :: Good(env, symbols, jobs[i])
    ensures Good(env, symbols, last) && forall i | 0 <= i < |front| :: Good(env, symbols, front[i])
    ensures PutAll(img, WritesOf(env, symbols, jobs))
      == Put(PutAll(img, WritesOf(env, symbols, front)), WriteOf(env, symbols, last))
  {
    assert jobs[|front|] == last && forall i | 0 <= i < |front| :: front[i] == jobs[i];
    var ws := WritesOf(env, symbols, jobs);
    assert ws[..|front|] == WritesOf(env, symbols, front);
  }

  /** One more relocation, whether or not its symbol has been resolved before. */
  lemma {:induction false} RelocateGood(env: Env, before: State, symbols: seq<Symbol>, front: seq<Job>, last: Job)
    requires forall i | 0 <= i < |front| :: Good(env, symbols, front[i])
    requires Good(env, symbols, last) && JobInBounds(env, |before.img|, |symbols|, last)
    requires before.ok && before.symbols == SymbolsAfter(env, symbols, front)
    ensures Relocate(env, before, last)
      == State(Put(before.img, WriteOf(env, symbols, last)), SymbolsAfter(env, symbols, front + [last]), true)
  {
    var k := last.rela.sym;
    ResolvedTwice(env, symbols[k]);
    UsesSnoc(front, last);
    assert Relocate(env, before, last).symbols == SymbolsAfter(env, symbols, front + [last]);
  }

  lemma ResolvedTwice(env: Env, s: Symbol)
    requires Settles(env, s)
    ensures var r := s.(value := ResolvedValue(env, s));
      KnownSymbol(env, r) && ResolvedValue(env, r) == ResolvedValue(env, s)
  {}

  lemma UsesSnoc(jobs: seq<Job>, job: Job)
    requires job.Job?
    ensures forall k: nat :: Uses(jobs + [job], k) <==> Uses(jobs, k) || k == job.rela.sym
  {
    forall k: nat ensures Uses(jobs + [job], k) <==> Uses(jobs, k) || k == job.rela.sym {
      var all := jobs + [job];
      assert all[|jobs|] == job;
      if i :| 0 <= i < |jobs| && jobs[i].Job? && jobs[i].rela.sym == k {
        assert all[i] == jobs[i];
      }
    }
  }

  // ---- The fields against the psABI -----------------------------------------------

  /**
   S of the psABI: the address of an undefined symbol is the kernel's export, that of a symbol defined by
   an offset into its section lies behind the guest address of that section.
   */
  function SymbolAddress(env: Env, s: Symbol): int
    requires s.shndx < |env.headers| && (s.shndx == SHN_UNDEF ==> s.name in env.exported)
  {
    if s.shndx == SHN_UNDEF then env.exported[s.name] else SymbolBase(env, s.shndx) + s.value
  }

  /** Defined in a section of the file by an offset below that section's guest address. */
  predicate SectionRelative(env: Env, s: Symbol) {
    && KnownSymbol(env, s) && s.shndx != SHN_UNDEF && s.shndx != SHN_ABS
    && 0 <= s.value < SymbolBase(env, s.shndx) && SymbolAddress(env, s) < TWO_64
  }

  /** Symbols with an address: exported by the kernel, or defined in the file. */
  predicate Addressed(env: Env, s: Symbol) {
    KnownSymbol(env, s) && s.shndx != SHN_ABS && (s.shndx == SHN_UNDEF ==> s.name in env.exported)
  }

  /** Section-relative symbols end with their base added exactly once. */
  lemma SectionRelativeSettles(env: Env, s: Symbol)
    requires SectionRelative(env, s)
    ensures Settles(env, s) && ResolvedValue(env, s) == SymbolAddress(env, s)
  {}

  /**
   A symbol defined in the file resolves to its address exactly if its value is below the base and the sum
   does not wrap, or the base is zero.
   */
  lemma ResolvesIff(env: Env, s: Symbol)
    requires Addressed(env, s) && s.shndx != SHN_UNDEF && IsWord64(s.value) && IsWord64(SymbolBase(env, s.shndx))
    ensures ResolvedValue(env, s) == SymbolAddress(env, s)
       <==> SectionRelative(env, s) || SymbolBase(env, s.shndx) == 0
  {}

  /** The calculation of the psABI for the three kinds a kernel module uses. */
  function Calculation(env: Env, symbols: seq<Symbol>, job: Job): int
    requires job.Job? && job.target < |env.headers| && job.rela.sym < |symbols|
    requires Addressed(env, symbols[job.rela.sym])
  {
    var s := SymbolAddress(env, symbols[job.rela.sym]);
    if job.rela.kind == R_PC32 then s + job.rela.addend - GuestPlace(env, job) else s + job.rela.addend
  }

  ghost predicate Relocatable(env: Env, s: State, jobs: seq<Job>) {
    && s.ok && InBounds(env, |s.img|, |s.symbols|, jobs)
    && (forall i | 0 <= i < |jobs| :: Good(env, s.symbols, jobs[i]))
    && Coherent(WritesOf(env, s.symbols, jobs))
  }

  lemma {:induction false} WritesAllFit(env: Env, s: State, jobs: seq<Job>)
    requires InBounds(env, |s.img|, |s.symbols|, jobs)
    requires forall i | 0 <= i < |jobs| :: Good(env, s.symbols, jobs[i])
    ensures AllFit(|s.img|, WritesOf(env, s.symbols, jobs))
  {
    var ws := WritesOf(env, s.symbols, jobs);
    forall w | w in ws ensures Fits(|s.img|, w) {
      var i :| 0 <= i < |ws| && ws[i] == w;
      assert jobs[i] in jobs;
    }
  }

  /** Every relocated field holds what its own relocation writes. */
  lemma {:induction false} FieldHolds(env: Env, s: State, jobs: seq<Job>, i: nat)
    requires Relocatable(env, s, jobs) && i < |jobs|
    ensures var w := WriteOf(env, s.symbols, jobs[i]);
      && Fits(|s.img|, w)
      && RelocateAll(env, s, jobs).img[w.off..w.off + |w.data|] == w.data
  {
    RelocationIsWrites(env, s, jobs);
    WritesAllFit(env, s, jobs);
    var ws, w := WritesOf(env, s.symbols, jobs), WriteOf(env, s.symbols, jobs[i]);
    assert ws[i] == w;
    FieldOfWrite(s.img, ws, i, w, w.off + |w.data|);
  }

  lemma FieldOfWrite(img: seq<byte>, ws: seq<Write>, i: nat, w: Write, end: int)
    requires AllFit(|img|, ws) && Coherent(ws) && i < |ws| && ws[i] == w && end == w.off + |w.data|
    ensures Fits(|img|, w) && PutAll(img, ws)[w.off..end] == w.data
  {
    PutAllField(img, ws, w, end);
  }

  /** The symbol's value is one that the code takes for an offset, or that is right as it is for this width. */
  predicate TakenRight(env: Env, s: Symbol, modulus: int)
    requires s.shndx < |env.headers| && modulus > 0
  {
    s.shndx == SHN_UNDEF || s.value < SymbolBase(env, s.shndx) || SymbolBase(env, s.shndx) % modulus == 0
  }

  function Modulus(kind: nat): (m: int)
    ensures m > 0
  {
    if kind == R_64 then TWO_64 else TWO_32
  }

  /**
   Relocation correctness: when fields do not overlap, a R_X86_64_64, 32S or PC32 field of a symbol that is
   exported or defined in the file decodes to S + A, or S + A - P, truncated to the field, exactly if the
   symbol is undefined, or its value lies below its section's address, or that address vanishes in the field.
   */
  lemma {:induction false} RelocationCorrect(env: Env, s: State, jobs: seq<Job>, i: nat)
    requires Relocatable(env, s, jobs) && i < |jobs|
    requires Addressed(env, s.symbols[jobs[i].rela.sym])
    requires jobs[i].rela.kind in {R_64, R_32S, R_PC32}
    requires jobs[i].rela.kind == R_PC32 ==> env.headers[jobs[i].target].name != ".altinstructions"
    ensures var job := jobs[i];
      var at, width := Place(env, job), if job.rela.kind == R_64 then 8 else 4;
      && 0 <= at <= |s.img| - width
      && (Load(RelocateAll(env, s, jobs).img[at..at + width])
           == Calculation(env, s.symbols, job) % Modulus(job.rela.kind)
         <==> TakenRight(env, s.symbols[job.rela.sym], Modulus(job.rela.kind)))
  {
    WriteIsCalculation(env, s.symbols, jobs[i]);
    FieldHolds(env, s, jobs, i);
  }

  lemma WriteIsCalculation(env: Env, symbols: seq<Symbol>, job: Job)
    requires Good(env, symbols, job) && job.rela.kind in {R_64, R_32S, R_PC32}
    requires Addressed(env, symbols[job.rela.sym])
    requires job.rela.kind == R_PC32 ==> env.headers[job.target].name != ".altinstructions"
    ensures var w := WriteOf(env, symbols, job);
      && w.off == Place(env, job) && |w.data| == (if job.rela.kind == R_64 then 8 else 4)
      && (Load(w.data) == Calculation(env, symbols, job) % Modulus(job.rela.kind)
         <==> TakenRight(env, symbols[job.rela.sym], Modulus(job.rela.kind)))
  {
    var sym, m := symbols[job.rela.sym], Modulus(job.rela.kind);
    var value, meant := FieldValue(env, job, sym.shndx, ResolvedValue(env, sym)), Calculation(env, symbols, job);
    LoadStore32(value);
    LoadStore64(value);
    SameModulo(value, meant, m);
    ResolvedExcess(env, sym, m);
  }

  /** By how much a settled symbol misses its address. */
  lemma ResolvedExcess(env: Env, s: Symbol, modulus: int)
    requires Addressed(env, s) && Settles(env, s) && (modulus == TWO_32 || modulus == TWO_64)
    ensures (ResolvedValue(env, s) - SymbolAddress(env, s)) % modulus == 0 <==> TakenRight(env, s, modulus)
  {
    if s.shndx != SHN_UNDEF && s.value >= SymbolBase(env, s.shndx) {
      var base := SymbolBase(env, s.shndx);
      assert ResolvedValue(env, s) - SymbolAddress(env, s) == -base;
      SameModulo(0, base, modulus);
    }
  }

  lemma SameModulo(x: int, y: int, m: int)
    requires m == TWO_32 || m == TWO_64
    ensures x % m == y % m <==> (x - y) % m == 0
  {
  }

  /** A value that is not below the base stays, though the symbol's address lies behind it. */
  lemma ValueAboveBaseStays()
    ensures var text := Header(".text", OtherKind, 0, true, Section(0, 0x1000, 8), []);
      var env := Env([text, text], None, map[]);
      var s, job := State([0, 0, 0, 0, 0, 0, 0, 0], [Symbol("f", 1, 0x2000)], true), Job(1, Rela(0, 0, R_64, 0));
      && Relocatable(env, s, [job]) && Addressed(env, s.symbols[0])
      && Load(RelocateAll(env, s, [job]).img[0..8]) != Calculation(env, s.symbols, job) % TWO_64
  {
    var text := Header(".text", OtherKind, 0, true, Section(0, 0x1000, 8), []);
    var env := Env([text, text], None, map[]);
    var s, job := State([0, 0, 0, 0, 0, 0, 0, 0], [Symbol("f", 1, 0x2000)], true), Job(1, Rela(0, 0, R_64, 0));
    SingleIsRelocatable(env, s, job);
    RelocationCorrect(env, s, [job], 0);
  }

  lemma SingleIsRelocatable(env: Env, s: State, job: Job)
    requires s.ok && JobInBounds(env, |s.img|, |s.symbols|, job) && Good(env, s.symbols, job)
    ensures Relocatable(env, s, [job])
  {
    var ws := WritesOf(env, s.symbols, [job]);
    assert forall v | v in ws :: v == ws[0];
  }

  predicate InField(env: Env, job: Job, k: int)
    requires job.Job? && job.target < |env.headers|
  {
    Place(env, job) <= k < Place(env, job) + Width(job.rela.kind)
  }

  /** Every byte outside the fields is unchanged. */
  lemma {:induction false} RelocationFrame(env: Env, s: State, jobs: seq<Job>, k: nat)
    requires s.ok && InBounds(env, |s.img|, |s.symbols|, jobs) && k < |s.img|
    requires forall i | 0 <= i < |jobs| :: Good(env, s.symbols, jobs[i]) && !InField(env, jobs[i], k)
    ensures RelocateAll(env, s, jobs).img[k] == s.img[k]
  {
    RelocationIsWrites(env, s, jobs);
    var ws := WritesOf(env, s.symbols, jobs);
    forall w | w in ws ensures !Covers(w, k) {
      var i :| 0 <= i < |ws| && ws[i] == w;
    }
    PutAllFrame(s.img, ws, k);
  }

  /** The order of the relocations, across all sections, does not affect image or symbols. */
  lemma {:induction false} RelocationOrder(env: Env, s: State, jobs: seq<Job>, jobs': seq<Job>)
    requires Relocatable(env, s, jobs)
    requires forall j :: j in jobs <==> j in jobs'
    ensures InBounds(env, |s.img|, |s.symbols|, jobs')
    ensures RelocateAll(env, s, jobs) == RelocateAll(env, s, jobs')
  {
    forall i | 0 <= i < |jobs'| ensures Good(env, s.symbols, jobs'[i]) {
      assert jobs'[i] in jobs;
    }
    RelocationIsWrites(env, s, jobs);
    RelocationIsWrites(env, s, jobs');
    WritesAllFit(env, s, jobs);
    var vs, ws := WritesOf(env, s.symbols, jobs), WritesOf(env, s.symbols, jobs');
    forall w ensures w in vs <==> w in ws {
      SameJobsSameWrites(env, s.symbols, jobs, jobs', w);
      SameJobsSameWrites(env, s.symbols, jobs', jobs, w);
    }
    SameWritesSameImage(s.img, vs, ws);
    forall k: nat ensures Uses(jobs, k) <==> Uses(jobs', k) {
      SameJobsSameUses(jobs, jobs', k);
      SameJobsSameUses(jobs', jobs, k);
    }
    assert RelocateAll(env, s, jobs).symbols == RelocateAll(env, s, jobs').symbols;
  }

  lemma SameJobsSameWrites(env: Env, symbols: seq<Symbol>, jobs: seq<Job>, jobs': seq<Job>, w: Write)
    requires forall j | j in jobs :: j in jobs'
    requires forall i | 0 <= i < |jobs| :: Good(env, symbols, jobs[i])
    requires forall i | 0 <= i < |jobs'| :: Good(env, symbols, jobs'[i])
    ensures w in WritesOf(env, symbols, jobs) ==> w in WritesOf(env, symbols, jobs')
  {
    var ws := WritesOf(env, symbols, jobs);
    if w in ws {
      var i :| 0 <= i < |ws| && ws[i] == w;
      assert jobs[i] in jobs;
      var k :| 0 <= k < |jobs'| && jobs'[k] == jobs[i];
      assert WritesOf(env, symbols, jobs')[k] == w;
    }
  }

  lemma SameJobsSameUses(jobs: seq<Job>, jobs': seq<Job>, k: nat)
    requires forall j | j in jobs :: j in jobs'
    ensures Uses(jobs, k) ==> Uses(jobs', k)
  {
    if i :| 0 <= i < |jobs| && jobs[i].Job? && jobs[i].rela.sym == k {
      assert jobs[i] in jobs;
      var m :| 0 <= m < |jobs'| && jobs'[m] == jobs[i];
    }
  }

  /**
   R_X86_64_32 is stored eight bytes wide although the psABI's field is a word32: the image is the
   specified one exactly when the four bytes behind the field already hold the upper half.
   */
  lemma Word32StoredWide(img: seq<byte>, at: nat, value: int)
    requires at + 8 <= |img|
    ensures Put(img, Write(at, Store(value, 8))) == Put(img, Write(at, Store(value, 4)))
      <==> Load(img[at + 4..at + 8]) == (value / TWO_32) % TWO_32
  {
    var low, high := Store(value, 4), Store(value / TWO_32, 4);
    StoreHalves(value);
    PutAdjacent(img, at, at + 4, low, high);
    var narrow := Put(img, Write(at, low));
    PutBehind(img, at, low, 4);
    PutSame(narrow, at + 4, high);
    LoadStore32(value / TWO_32);
    StoreLoad(img[at + 4..at + 8]);
    StoreLoad(high);
  }

  lemma PutBehind(img: seq<byte>, at: nat, data: seq<byte>, n: nat)
    requires at + |data| + n <= |img|
    ensures Put(img, Write(at, data))[at + |data|..at + |data| + n] == img[at + |data|..at + |data| + n]
  {
    PutEverywhere(img, Write(at, data));
  }

  /** A write changes nothing exactly if its bytes are there already. */
  lemma PutSame(img: seq<byte>, at: nat, data: seq<byte>)
    requires at + |data| <= |img|
    ensures Put(img, Write(at, data)) == img <==> img[at..at + |data|] == data
  {
    PutField(img, at, data);
    PutEverywhere(img, Write(at, data));
    if img[at..at + |data|] == data {
      forall k | 0 <= k < |img| ensures Put(img, Write(at, data))[k] == img[k] {
        assert at <= k < at + |data| ==> img[at..at + |data|][k - at] == img[k];
      }
    }
  }

  lemma StoreHalves(value: int)
    ensures Store(value, 8) == Store(value, 4) + Store(value / TWO_32, 4)
  {
    forall i: nat | i < 4 ensures value / Pow256(4 + i) == (value / TWO_32) / Pow256(i) {
      Widths();
      DivideTwice(value, 4, i);
    }
  }
}
