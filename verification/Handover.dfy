/**
 Theorems that span two passes: a pointer field written by the relocation loop and later
 followed by the pass that patches instructions.
 */
module Handover {
  import opened Bytes
  import opened Patching
  import opened Sections
  import Relocation
  import Alternatives
  import SmpLocks

  predicate FitsInt32(x: int) {
    -0x8000_0000 <= x < 0x8000_0000
  }

  /** The place in the file of the symbol a relocation names, plus its addend. */
  function HostAddress(env: Relocation.Env, symbols: seq<Relocation.Symbol>, job: Relocation.Job): int
    requires job.Job? && job.rela.sym < |symbols| && symbols[job.rela.sym].shndx < |env.headers|
  {
    env.headers[symbols[job.rela.sym].shndx].section.index + symbols[job.rela.sym].value + job.rela.addend
  }

  lemma AltWriteIs(env: Relocation.Env, symbols: seq<Relocation.Symbol>, job: Relocation.Job, at: int, distance: int)
    requires Relocation.Good(env, symbols, job) && Relocation.SectionRelative(env, symbols[job.rela.sym])
    requires job.rela.kind == Relocation.R_PC32 && env.headers[job.target].name == ".altinstructions"
    requires at == Relocation.Place(env, job) && distance == HostAddress(env, symbols, job) - at
    ensures Relocation.WriteOf(env, symbols, job) == Write(at, Store(distance, 4))
  {
    Relocation.SectionRelativeSettles(env, symbols[job.rela.sym]);
  }

  lemma FieldHoldsAt(env: Relocation.Env, s: Relocation.State, jobs: seq<Relocation.Job>, i: nat, w: Write, at: int,
    end: int)
    requires Relocation.Relocatable(env, s, jobs) && i < |jobs|
    requires w == Relocation.WriteOf(env, s.symbols, jobs[i]) && at == w.off && end == at + |w.data|
    ensures 0 <= at <= end <= |s.img| && Relocation.RelocateAll(env, s, jobs).img[at..end] == w.data
  {
    Relocation.FieldHolds(env, s, jobs, i);
  }

  /**
   Alternatives round trip: the self-relative pointer `applyAltinstr` follows from a field the
   relocation loop wrote in .altinstructions leads to the file's copy of that very symbol plus
   addend, exactly when the distance fits 32 signed bits.
   */
  lemma AltPointerRoundTrip(env: Relocation.Env, s: Relocation.State, jobs: seq<Relocation.Job>, i: nat)
    requires Relocation.Relocatable(env, s, jobs) && i < |jobs|
    requires jobs[i].rela.kind == Relocation.R_PC32 && env.headers[jobs[i].target].name == ".altinstructions"
    requires Relocation.SectionRelative(env, s.symbols[jobs[i].rela.sym])
    ensures var at, host := Relocation.Place(env, jobs[i]), HostAddress(env, s.symbols, jobs[i]);
      && 0 <= at <= |s.img| - 4
      && (Alternatives.SelfRelative(Relocation.RelocateAll(env, s, jobs).img, at) == host <==> FitsInt32(host - at))
  {
    var img, at := Relocation.RelocateAll(env, s, jobs).img, Relocation.Place(env, jobs[i]);
    var host := HostAddress(env, s.symbols, jobs[i]);
    var distance, end := host - at, at + 4;
    AltWriteIs(env, s.symbols, jobs[i], at, distance);
    FieldHoldsAt(env, s, jobs, i, Write(at, Store(distance, 4)), at, end);
    LoadStore32(distance);
  }

  lemma LockFieldHolds(env: Relocation.Env, s: Relocation.State, jobs: seq<Relocation.Job>, i: nat,
    img: seq<byte>, at: int, distance: int)
    requires Relocation.Relocatable(env, s, jobs) && i < |jobs|
    requires jobs[i].rela.kind == Relocation.R_PC32 && env.headers[jobs[i].target].name == ".smp_locks"
    requires Relocation.SectionRelative(env, s.symbols[jobs[i].rela.sym])
    requires img == Relocation.RelocateAll(env, s, jobs).img && at == Relocation.Place(env, jobs[i])
    requires distance == Relocation.Calculation(env, s.symbols, jobs[i])
    ensures 0 <= at <= |img| - 4 && Load(img[at..at + 4]) == distance % TWO_32
  {
    Relocation.RelocationCorrect(env, s, jobs, i);
  }

  /**
   SMP locks round trip: a PC32 relocation of .smp_locks, read by `applySmpLocks`, leads to the
   file's copy of the lock at guest address S + A, exactly when truncation to 32 bits takes the same
   from the relocated distance and from the skew of the two sections.
   */
  lemma LockPointerRoundTrip(env: Relocation.Env, s: Relocation.State, jobs: seq<Relocation.Job>, i: nat, text: Section)
    requires Relocation.Relocatable(env, s, jobs) && i < |jobs|
    requires jobs[i].rela.kind == Relocation.R_PC32 && env.headers[jobs[i].target].name == ".smp_locks"
    requires Relocation.SectionRelative(env, s.symbols[jobs[i].rela.sym])
    ensures var job := jobs[i];
      var locks, at := env.headers[job.target].section, Relocation.Place(env, job);
      var address := Relocation.SymbolAddress(env, s.symbols[job.rela.sym]) + job.rela.addend;
      0 <= at <= |s.img| - 4
      && var ptr := SmpLocks.LockPointer(Relocation.RelocateAll(env, s, jobs).img, locks, text, at);
         (ptr == text.index + (address - text.mem) <==>
           Lost(Relocation.Calculation(env, s.symbols, job)) == Lost(Skew(locks, text)))
  {
    var job := jobs[i];
    var img, at := Relocation.RelocateAll(env, s, jobs).img, Relocation.Place(env, job);
    var distance := Relocation.Calculation(env, s.symbols, job);
    LockFieldHolds(env, s, jobs, i, img, at, distance);
    LockFollowed(env, s.symbols, job, img, at, distance, text);
  }

  lemma LockFollowed(env: Relocation.Env, symbols: seq<Relocation.Symbol>, job: Relocation.Job, img: seq<byte>, at: int,
    distance: int, text: Section)
    requires job.Job? && job.target < |env.headers| && job.rela.sym < |symbols| && job.rela.kind == Relocation.R_PC32
    requires Relocation.SectionRelative(env, symbols[job.rela.sym])
    requires at == Relocation.Place(env, job) && 0 <= at <= |img| - 4
    requires distance == Relocation.Calculation(env, symbols, job) && Load(img[at..at + 4]) == distance % TWO_32
    ensures var locks := env.headers[job.target].section;
      var address := Relocation.SymbolAddress(env, symbols[job.rela.sym]) + job.rela.addend;
      var ptr := SmpLocks.LockPointer(img, locks, text, at);
      ptr == text.index + (address - text.mem) <==> Lost(distance) == Lost(Skew(locks, text))
  {
    SmpLocks.LockPointerIff(img, env.headers[job.target].section, text, at,
      Relocation.SymbolAddress(env, symbols[job.rela.sym]) + job.rela.addend, distance);
  }
}
