/**
 What relocation leaves in a module's file, said of its section headers and of the numbers of the psABI: the
 fields of all records of all RELA tables for allocated sections hold their calculation, nothing else changes,
 and the pass goes through exactly if there is nothing it does not know.
 */
module RelocatedFile {
  import opened Options
  import opened Bytes
  import opened Patching
  import opened Sections
  import opened Relocation

  /** Header `i` is a table of relocations for the allocated section `t`. */
  predicate IsTableFor(env: Env, i: nat, t: nat) {
    i < |env.headers| && env.headers[i].info == t < |env.headers| && env.headers[t].alloc
  }

  predicate RecordIn(env: Env, i: nat, t: nat, r: Rela)
    requires i < |env.headers|
  {
    IsTableFor(env, i, t) && env.headers[i].kind.RelaTable? && r in env.headers[i].relocs
  }

  /** `r` is a record of a RELA table for section `t`. */
  ghost predicate Recorded(env: Env, t: nat, r: Rela) {
    RecordedBelow(env, |env.headers|, t, r)
  }

  ghost predicate RecordedBelow(env: Env, n: nat, t: nat, r: Rela)
    requires n <= |env.headers|
  {
    exists i :: 0 <= i < n && RecordIn(env, i, t, r)
  }

  /** A table the program stops at: one without addends, or any if there is no per-CPU section. */
  predicate StopsAt(env: Env, i: nat)
    requires i < |env.headers|
  {
    && IsTableFor(env, i, env.headers[i].info)
    && (env.headers[i].kind.RelTable? || (env.headers[i].kind.RelaTable? && env.percpu.None?))
  }

  ghost predicate StopsBelow(env: Env, n: nat)
    requires n <= |env.headers|
  {
    exists i :: 0 <= i < n && StopsAt(env, i)
  }

  // ---- The jobs of a file -----------------------------------------------------------

  lemma {:induction false} RelaJobsIff(target: nat, relocs: seq<Rela>, j: Job)
    ensures j in RelaJobs(target, relocs) <==> j.Job? && j.target == target && j.rela in relocs
  {
    if relocs != [] {
      var front, last := relocs[..|relocs| - 1], relocs[|relocs| - 1];
      RelaJobsIff(target, front, j);
      assert relocs == front + [last];
    }
  }

  lemma JobOfIff(env: Env, i: nat, t: nat, r: Rela)
    requires i < |env.headers|
    ensures Job(t, r) in JobsOf(env, i) <==> env.percpu.Some? && RecordIn(env, i, t, r)
  {
    RelaJobsIff(env.headers[i].info, env.headers[i].relocs, Job(t, r));
  }

  lemma UnsupportedOfIff(env: Env, i: nat)
    requires i < |env.headers|
    ensures Unsupported in JobsOf(env, i) <==> StopsAt(env, i)
  {
    RelaJobsIff(env.headers[i].info, env.headers[i].relocs, Unsupported);
  }

  lemma {:induction false} JobsNext(env: Env, last: nat, n: nat, j: Job)
    requires n == last + 1 <= |env.headers|
    ensures j in Jobs(env, n) <==> j in Jobs(env, last) || j in JobsOf(env, last)
  {
  }

  lemma RecordedNext(env: Env, last: nat, n: nat, t: nat, r: Rela)
    requires n == last + 1 <= |env.headers|
    ensures RecordedBelow(env, n, t, r) <==> RecordedBelow(env, last, t, r) || RecordIn(env, last, t, r)
  {
  }

  /** The relocations the pass performs are the records of the RELA tables for allocated sections. */
  lemma {:induction false} JobIff(env: Env, n: nat, t: nat, r: Rela)
    requires n <= |env.headers|
    ensures Job(t, r) in Jobs(env, n) <==> env.percpu.Some? && RecordedBelow(env, n, t, r)
  {
    if n > 0 {
      var last := n - 1;
      JobIff(env, last, t, r);
      JobOfIff(env, last, t, r);
      JobsNext(env, last, n, Job(t, r));
      RecordedNext(env, last, n, t, r);
    }
  }

  lemma {:induction false} UnsupportedIff(env: Env, n: nat)
    requires n <= |env.headers|
    ensures Unsupported in Jobs(env, n) <==> StopsBelow(env, n)
  {
    if n > 0 {
      var last := n - 1;
      UnsupportedIff(env, last);
      UnsupportedOfIff(env, last);
      JobsNext(env, last, n, Unsupported);
    }
  }

  // ---- The calculation --------------------------------------------------------------

  /** Guest address of the section a symbol is defined in; the per-CPU section has one of its own. */
  function SectionAddress(env: Env, shndx: nat): int
    requires shndx < |env.headers|
  {
    match env.percpu
    case Some((id, address)) => if id == shndx then address else env.headers[shndx].section.mem
    case None => env.headers[shndx].section.mem
  }

  /** S: the kernel's export, or the value in the file, behind the section's address if it is below that. */
  function S(env: Env, s: Symbol): int
    requires s.shndx < |env.headers|
  {
    if s.shndx == 0 then (if s.name in env.exported then env.exported[s.name] else 0)
    else if s.shndx != 0xfff1 && s.value < SectionAddress(env, s.shndx) then SectionAddress(env, s.shndx) + s.value
    else s.value
  }

  /** The field in the file, and how many bytes of it are written. */
  function FieldAt(env: Env, t: nat, r: Rela): int
    requires t < |env.headers|
  {
    env.headers[t].section.index + r.offset
  }

  function FieldWidth(r: Rela): nat {
    match r.kind
    case 0 => 0
    case 5 => 0
    case 2 => 4
    case 11 => 4
    case _ => 8
  }

  /** S + A, S + A - P, or A; in .altinstructions the distance in the file instead of that in the guest. */
  function Meant(env: Env, t: nat, r: Rela, s: Symbol): int
    requires t < |env.headers| && s.shndx < |env.headers|
  {
    if r.kind == 8 || r.kind == 37 then r.addend
    else if r.kind != 2 then S(env, s) + r.addend
    else if env.headers[t].name == ".altinstructions" then
      (env.headers[s.shndx].section.index + (S(env, s) + r.addend - SectionAddress(env, s.shndx))) - FieldAt(env, t, r)
    else S(env, s) + r.addend - (env.headers[t].section.mem + r.offset)
  }

  /** The types the program knows: none, 64, PC32, COPY, GLOB_DAT, JUMP_SLOT, RELATIVE, 32, 32S, IRELATIVE. */
  predicate KnownType(kind: nat) {
    kind == 0 || kind == 1 || kind == 2 || (5 <= kind <= 8) || kind == 10 || kind == 11 || kind == 37
  }

  /** The symbol's section exists and is not SHN_COMMON. */
  predicate HasSection(env: Env, s: Symbol) {
    s.shndx < |env.headers| && s.shndx != 0xfff2
  }

  /** Adding the base once settles the value. */
  predicate Settled(env: Env, s: Symbol) {
    HasSection(env, s) && (s.shndx == 0 || s.shndx == 0xfff1 ||
      (&& 0 <= s.value < TWO_64 && 0 <= SectionAddress(env, s.shndx) < TWO_64
       && (s.value < SectionAddress(env, s.shndx) ==> SectionAddress(env, s.shndx) + s.value < TWO_64)))
  }

  /** Every record names a symbol of the table and a field of the file. */
  ghost predicate InFile(env: Env, s: State) {
    forall t, r | Recorded(env, t, r) ::
      r.sym < |s.symbols| && 0 <= FieldAt(env, t, r) && FieldAt(env, t, r) + FieldWidth(r) <= |s.img|
  }

  predicate FieldsApart(env: Env, t: nat, r: Rela, t': nat, r': Rela)
    requires t < |env.headers| && t' < |env.headers|
  {
    || FieldAt(env, t, r) + FieldWidth(r) <= FieldAt(env, t', r')
    || FieldAt(env, t', r') + FieldWidth(r') <= FieldAt(env, t, r)
  }

  /** A file that can be relocated: known types, settled symbols, and no two records for the same bytes. */
  ghost predicate Loadable(env: Env, s: State) {
    && s.ok && env.percpu.Some? && InFile(env, s) && !StopsBelow(env, |env.headers|)
    && (forall t, r | Recorded(env, t, r) :: KnownType(r.kind) && Settled(env, s.symbols[r.sym]))
    && (forall t, r, t', r' {:trigger FieldsApart(env, t, r, t', r')} | Recorded(env, t, r) && Recorded(env, t', r') ::
         (t == t' && r == r') || FieldsApart(env, t, r, t', r'))
  }

  lemma SettledIs(env: Env, s: Symbol)
    ensures Settled(env, s) <==> Settles(env, s)
    ensures Settled(env, s) ==> ResolvedValue(env, s) == S(env, s)
  {
  }

  lemma {:induction false} JobsInBounds(env: Env, s: State)
    requires InFile(env, s)
    ensures InBounds(env, |s.img|, |s.symbols|, Jobs(env, |env.headers|))
  {
    forall j | j in Jobs(env, |env.headers|) ensures JobInBounds(env, |s.img|, |s.symbols|, j) {
      if j.Job? {
        JobIff(env, |env.headers|, j.target, j.rela);
        assert Recorded(env, j.target, j.rela);
      }
    }
  }

  lemma {:induction false} JobsAreGood(env: Env, s: State, j: Job)
    requires Loadable(env, s) && j in Jobs(env, |env.headers|)
    ensures Good(env, s.symbols, j) && Recorded(env, j.target, j.rela)
  {
    UnsupportedIff(env, |env.headers|);
    assert j.Job?;
    JobIff(env, |env.headers|, j.target, j.rela);
    assert Recorded(env, j.target, j.rela);
    SettledIs(env, s.symbols[j.rela.sym]);
  }

  lemma WriteIs(env: Env, symbols: seq<Symbol>, t: nat, r: Rela)
    requires Good(env, symbols, Job(t, r)) && Settled(env, symbols[r.sym])
    ensures WriteOf(env, symbols, Job(t, r))
         == Write(FieldAt(env, t, r), Store(Meant(env, t, r, symbols[r.sym]), FieldWidth(r)))
  {
    SettledIs(env, symbols[r.sym]);
  }

  lemma {:induction false} FileIsRelocatable(env: Env, s: State)
    requires Loadable(env, s)
    ensures Relocatable(env, s, Jobs(env, |env.headers|))
  {
    var jobs := Jobs(env, |env.headers|);
    JobsInBounds(env, s);
    forall i | 0 <= i < |jobs| ensures Good(env, s.symbols, jobs[i]) {
      JobsAreGood(env, s, jobs[i]);
    }
    var ws := WritesOf(env, s.symbols, jobs);
    forall v, w | v in ws && w in ws ensures v == w || Disjoint(v, w) {
      var i :| 0 <= i < |ws| && ws[i] == v;
      var j :| 0 <= j < |ws| && ws[j] == w;
      JobsAreGood(env, s, jobs[i]);
      JobsAreGood(env, s, jobs[j]);
      WritesApart(env, s, jobs[i], jobs[j]);
    }
  }

  lemma {:induction false} WritesApart(env: Env, s: State, j: Job, k: Job)
    requires Loadable(env, s) && Good(env, s.symbols, j) && Good(env, s.symbols, k)
    requires Recorded(env, j.target, j.rela) && Recorded(env, k.target, k.rela)
    ensures j == k || Disjoint(WriteOf(env, s.symbols, j), WriteOf(env, s.symbols, k))
  {
    WriteIs(env, s.symbols, j.target, j.rela);
    WriteIs(env, s.symbols, k.target, k.rela);
    assert (j.target == k.target && j.rela == k.rela) || FieldsApart(env, j.target, j.rela, k.target, k.rela);
  }

  /** After the pass over a file every recorded field holds its calculation, truncated to the field. */
  lemma {:induction false} FieldsHold(env: Env, s: State, t: nat, r: Rela)
    requires Loadable(env, s) && Recorded(env, t, r)
    ensures InBounds(env, |s.img|, |s.symbols|, Jobs(env, |env.headers|))
    ensures RelocateAll(env, s, Jobs(env, |env.headers|)).ok
    ensures var img, at := RelocateAll(env, s, Jobs(env, |env.headers|)).img, FieldAt(env, t, r);
      && 0 <= at && at + FieldWidth(r) <= |img|
      && img[at..at + FieldWidth(r)] == Store(Meant(env, t, r, s.symbols[r.sym]), FieldWidth(r))
  {
    var jobs := Jobs(env, |env.headers|);
    FileIsRelocatable(env, s);
    RelocationIsWrites(env, s, jobs);
    JobIff(env, |env.headers|, t, r);
    var i :| 0 <= i < |jobs| && jobs[i] == Job(t, r);
    JobHolds(env, s, jobs, i, t, r, FieldAt(env, t, r), FieldAt(env, t, r) + FieldWidth(r));
  }

  lemma {:induction false} JobHolds(env: Env, s: State, jobs: seq<Job>, i: nat, t: nat, r: Rela, at: int, end: int)
    requires Relocatable(env, s, jobs) && i < |jobs| && jobs[i] == Job(t, r) && Settled(env, s.symbols[r.sym])
    requires at == FieldAt(env, t, r) && end == at + FieldWidth(r)
    ensures 0 <= at && end <= |s.img|
    ensures RelocateAll(env, s, jobs).img[at..end] == Store(Meant(env, t, r, s.symbols[r.sym]), FieldWidth(r))
  {
    FieldHolds(env, s, jobs, i);
    WriteIs(env, s.symbols, t, r);
  }

  ghost predicate InSomeField(env: Env, k: int) {
    exists t, r :: Recorded(env, t, r) && FieldAt(env, t, r) <= k < FieldAt(env, t, r) + FieldWidth(r)
  }

  /** And nothing else changes. */
  lemma {:induction false} RestStays(env: Env, s: State, k: nat)
    requires Loadable(env, s) && k < |s.img| && !InSomeField(env, k)
    ensures InBounds(env, |s.img|, |s.symbols|, Jobs(env, |env.headers|))
    ensures RelocateAll(env, s, Jobs(env, |env.headers|)).img[k] == s.img[k]
  {
    var jobs := Jobs(env, |env.headers|);
    FileIsRelocatable(env, s);
    forall i | 0 <= i < |jobs| ensures Good(env, s.symbols, jobs[i]) && !InField(env, jobs[i], k) {
      JobsAreGood(env, s, jobs[i]);
      WriteIs(env, s.symbols, jobs[i].target, jobs[i].rela);
      assert Recorded(env, jobs[i].target, jobs[i].rela);
    }
    RelocationFrame(env, s, jobs, k);
  }

  ghost predicate AllKnown(env: Env, s: State)
    requires InFile(env, s)
  {
    forall t, r | Recorded(env, t, r) :: KnownType(r.kind) && HasSection(env, s.symbols[r.sym])
  }

  /** The pass goes through exactly if no table stops it and every record has a known type and a section. */
  lemma {:induction false} GoesThroughIff(env: Env, s: State)
    requires s.ok && InFile(env, s)
    ensures InBounds(env, |s.img|, |s.symbols|, Jobs(env, |env.headers|))
    ensures RelocateAll(env, s, Jobs(env, |env.headers|)).ok
       <==> !StopsBelow(env, |env.headers|) && (env.percpu.Some? ==> AllKnown(env, s))
  {
    var jobs := Jobs(env, |env.headers|);
    JobsInBounds(env, s);
    RunsThroughIff(env, s, jobs);
    UnsupportedIff(env, |env.headers|);
    if forall j | j in jobs :: GoesThrough(env, s.symbols, j) {
      AllAreKnown(env, s, jobs);
    } else {
      var j :| j in jobs && !GoesThrough(env, s.symbols, j);
      OneIsNot(env, s, jobs, j);
    }
  }

  lemma {:induction false} AllAreKnown(env: Env, s: State, jobs: seq<Job>)
    requires InFile(env, s) && jobs == Jobs(env, |env.headers|) && InBounds(env, |s.img|, |s.symbols|, jobs)
    requires forall j | j in jobs :: GoesThrough(env, s.symbols, j)
    ensures env.percpu.Some? ==> AllKnown(env, s)
    ensures Unsupported !in jobs
  {
    forall t, r | env.percpu.Some? && Recorded(env, t, r)
      ensures KnownType(r.kind) && HasSection(env, s.symbols[r.sym])
    {
      JobIff(env, |env.headers|, t, r);
      assert GoesThrough(env, s.symbols, Job(t, r));
    }
  }

  lemma {:induction false} OneIsNot(env: Env, s: State, jobs: seq<Job>, j: Job)
    requires InFile(env, s) && jobs == Jobs(env, |env.headers|) && InBounds(env, |s.img|, |s.symbols|, jobs)
    requires j in jobs && !GoesThrough(env, s.symbols, j)
    ensures Unsupported in jobs || (env.percpu.Some? && !AllKnown(env, s))
  {
    if j.Job? {
      JobIff(env, |env.headers|, j.target, j.rela);
      assert Recorded(env, j.target, j.rela);
    }
  }
}
