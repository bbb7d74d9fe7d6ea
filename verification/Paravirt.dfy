/**
 Paravirtual call sites: what `paravirtNativePatch` puts at a site, and the loop over
 .parainstructions that copies, patches, pads and writes back.
 */
module Paravirt {
  import opened Bytes
  import opened Patching
  import opened Nops
  import opened PatchSites
  import opened Sections

  const CLBR_ANY: bv16 := 15

  /** The function pointer structs, each with the 64-bit value at every byte offset. */
  datatype Ops = Ops(
    init: seq<int>, time: seq<int>, cpu: seq<int>, irq: seq<int>, apic: seq<int>, mmu: seq<int>, lock: seq<int>)

  /**
   The state read from the guest, with what the program's own inline assembly contributes:
   `native` lists the directly patched operation types in the order they are tried, `jumps` the
   types that need a jump, `mov32`/`mov64` the identity functions. Code strings fit a byte length.
   */
  datatype State = State(ops: Ops, native: seq<(int, seq<byte>)>, jumps: set<int>, mov32: seq<byte>, mov64: seq<byte>,
    nopFunc: int, ident32: int, ident64: int, nops: Ideal)

  /** One record of .parainstructions; `instr` is a guest address. */
  datatype Site = Site(instr: int, instrtype: nat, len: nat, clobbers: bv16)

  /** A call or jump of five bytes. */
  function Branch(opcode: byte, target: int, addr: int): (r: seq<byte>)
    ensures |r| == 5
  {
    [opcode] + Store(target - (addr + 5), 4)
  }

  /** The structs lie directly after each other; `type` indexes the resulting array. */
  function Flat(ops: Ops): seq<int> {
    ops.init + (ops.time + (ops.cpu + (ops.irq + (ops.apic + (ops.mmu + ops.lock)))))
  }

  method GetCallDestination(ops: Ops, kind: nat) returns (destination: int)
    ensures destination == if kind < |Flat(ops)| then Flat(ops)[kind] else 0
  {
    var k: nat := kind;
    if k < |ops.init| { return ops.init[k]; }
    k := k - |ops.init|;
    if k < |ops.time| { return ops.time[k]; }
    k := k - |ops.time|;
    if k < |ops.cpu| { return ops.cpu[k]; }
    k := k - |ops.cpu|;
    if k < |ops.irq| { return ops.irq[k]; }
    k := k - |ops.irq|;
    if k < |ops.apic| { return ops.apic[k]; }
    k := k - |ops.apic|;
    if k < |ops.mmu| { return ops.mmu[k]; }
    k := k - |ops.mmu|;
    if k < |ops.lock| { return ops.lock[k]; }
    return 0;
  }

  /** The same lookup struct by struct. */
  function Destination(structs: seq<seq<int>>, kind: nat): int {
    if structs == [] then 0
    else if kind < |structs[0]| then structs[0][kind]
    else Destination(structs[1..], kind - |structs[0]|)
  }

  function Structs(ops: Ops): seq<seq<int>> {
    [ops.init, ops.time, ops.cpu, ops.irq, ops.apic, ops.mmu, ops.lock]
  }

  function Concat(structs: seq<seq<int>>): seq<int> {
    if structs == [] then [] else structs[0] + Concat(structs[1..])
  }

  lemma {:induction false} DestinationIsIndex(structs: seq<seq<int>>, kind: nat)
    ensures Destination(structs, kind) == if kind < |Concat(structs)| then Concat(structs)[kind] else 0
  {
    if structs != [] && kind >= |structs[0]| {
      DestinationIsIndex(structs[1..], kind - |structs[0]|);
    }
  }

  lemma DestinationIsFlat(ops: Ops, kind: nat)
    ensures Destination(Structs(ops), kind) == if kind < |Flat(ops)| then Flat(ops)[kind] else 0
  {
    var s := Structs(ops);
    DestinationIsIndex(s, kind);
    ConcatAt(s, 0);
    ConcatAt(s, 1);
    ConcatAt(s, 2);
    ConcatAt(s, 3);
    ConcatAt(s, 4);
    ConcatAt(s, 5);
    ConcatAt(s, 6);
    assert s[0..] == s && Concat(s[7..]) == [] && ops.lock + [] == ops.lock;
  }

  lemma ConcatAt(structs: seq<seq<int>>, i: nat)
    requires i < |structs|
    ensures Concat(structs[i..]) == structs[i] + Concat(structs[i + 1..])
  {
    assert structs[i..][1..] == structs[i + 1..];
  }

  /** Copies the code, whose length is taken as 8 bits, if it fits the site. */
  function PatchInsns(code: seq<byte>, len: nat): Patch {
    var insnLen := |code| % 256;
    if insnLen > len then Keep(len) else Patch(code[..insnLen], insnLen)
  }

  function PatchBranch(opcode: byte, target: int, addr: int, len: nat): Patch {
    if len < 5 then Keep(len) else Patch(Branch(opcode, target, addr), 5)
  }

  /** A call is placed only when the site may clobber everything the target may. */
  function PatchCall(target: int, addr: int, clobbers: bv16, len: nat): Patch {
    if CLBR_ANY & !clobbers != 0 then Keep(len) else PatchBranch(0xe8, target, addr, len)
  }

  function PatchDefault(st: State, kind: nat, clobbers: bv16, addr: int, len: nat): Patch {
    var f := Destination(Structs(st.ops), kind);
    if f == 0 || f == st.nopFunc then Patch([], 0)
    else if f == st.ident32 then PatchInsns(st.mov32, len)
    else if f == st.ident64 then PatchInsns(st.mov64, len)
    else if kind in st.jumps then PatchBranch(0xe9, f, addr, len)
    else PatchCall(f, addr, clobbers, len)
  }

  /** The first native operation with this type, if any. */
  function FindNative(native: seq<(int, seq<byte>)>, kind: int): nat {
    if native == [] || native[0].0 == kind then 0 else 1 + FindNative(native[1..], kind)
  }

  lemma {:induction false} FindNativeFirst(native: seq<(int, seq<byte>)>, kind: int)
    ensures var i := FindNative(native, kind);
      && i <= |native| && (i < |native| ==> native[i].0 == kind)
      && forall j | 0 <= j < i :: native[j].0 != kind
  {
    if native != [] && native[0].0 != kind {
      FindNativeFirst(native[1..], kind);
    }
  }

  function NativePatch(st: State, kind: nat, clobbers: bv16, addr: int, len: nat): Patch {
    var i := FindNative(st.native, kind);
    if i < |st.native| then PatchInsns(st.native[i].1, len) else PatchDefault(st, kind, clobbers, addr, len)
  }

  /**
   No patch uses more than the site has, so the padding never underflows; what is used is
   either exactly the code written or the whole site left as it was.
   */
  lemma UsedWithinSite(st: State, kind: nat, clobbers: bv16, addr: int, len: nat)
    ensures FitsSite(NativePatch(st, kind, clobbers, addr, len), len)
  {}

  // ---- The routines that fill the buffer ------------------------------------------

  method WriteInsns(buf: array<byte>, code: seq<byte>, len: nat) returns (used: nat)
    requires len <= buf.Length
    modifies buf
    ensures var p := PatchInsns(code, len); used == p.used && buf[..] == Put(old(buf[..]), Write(0, p.code))
  {
    used := |code| % 256;
    if used > len {
      used := len;
      PutNothing(buf[..], 0);
    } else {
      Copy(buf, 0, code[..used]);
    }
  }

  method WriteBranch(buf: array<byte>, opcode: byte, target: int, addr: int, len: nat) returns (used: nat)
    requires len <= buf.Length
    modifies buf
    ensures var p := PatchBranch(opcode, target, addr, len);
      used == p.used && buf[..] == Put(old(buf[..]), Write(0, p.code))
  {
    if len < 5 {
      PutNothing(buf[..], 0);
      return len;
    }
    WriteOpcode(buf, opcode, target - (addr + 5));
    return 5;
  }

  method WriteOpcode(buf: array<byte>, opcode: byte, delta: int)
    requires 5 <= buf.Length
    modifies buf
    ensures buf[..] == Put(old(buf[..]), Write(0, [opcode] + Store(delta, 4)))
  {
    PutAdjacent(buf[..], 0, 1, [opcode], Store(delta, 4));
    Copy(buf, 0, [opcode]);
    Copy(buf, 1, Store(delta, 4));
  }

  method ParavirtPatchDefault(st: State, kind: nat, clobbers: bv16, buf: array<byte>, addr: int, len: nat)
    returns (used: nat)
    requires len <= buf.Length
    modifies buf
    ensures var p := PatchDefault(st, kind, clobbers, addr, len);
      used == p.used && buf[..] == Put(old(buf[..]), Write(0, p.code))
  {
    var opfunc := GetCallDestination(st.ops, kind);
    DestinationIsFlat(st.ops, kind);
    PutNothing(buf[..], 0);
    if opfunc == 0 || opfunc == st.nopFunc {
      used := 0;
    } else if opfunc == st.ident32 {
      used := WriteInsns(buf, st.mov32, len);
    } else if opfunc == st.ident64 {
      used := WriteInsns(buf, st.mov64, len);
    } else if kind in st.jumps {
      used := WriteBranch(buf, 0xe9, opfunc, addr, len);
    } else if CLBR_ANY & !clobbers != 0 {
      used := len;
    } else {
      used := WriteBranch(buf, 0xe8, opfunc, addr, len);
    }
  }

  method ParavirtNativePatch(st: State, kind: nat, clobbers: bv16, buf: array<byte>, addr: int, len: nat)
    returns (used: nat)
    requires len <= buf.Length
    modifies buf
    ensures var p := NativePatch(st, kind, clobbers, addr, len);
      used == p.used && buf[..] == Put(old(buf[..]), Write(0, p.code))
  {
    var i := FindNative(st.native, kind);
    if i < |st.native| {
      used := WriteInsns(buf, st.native[i].1, len);
    } else {
      used := ParavirtPatchDefault(st, kind, clobbers, buf, addr, len);
    }
  }

  // ---- The table ------------------------------------------------------------------

  /** A branch leads to its target modulo 2^32, and to exactly it when it is within reach. */
  lemma BranchTarget(opcode: byte, target: int, addr: int)
    ensures var leads := addr + 5 + Int32(Load(Branch(opcode, target, addr)[1..5]));
      leads % TWO_32 == target % TWO_32 && (leads == target <==> -0x8000_0000 <= target - (addr + 5) < 0x8000_0000)
  {
    var d := target - (addr + 5);
    assert Branch(opcode, target, addr)[1..5] == Store(d, 4);
    LoadStore32(d);
    assert Int32(d) == d + (Int32(d) / TWO_32 - d / TWO_32) * TWO_32;
  }

  /** The record's place in the file and what is put there. */
  function Place(st: State, text: Section, p: Site): Placed {
    UsedWithinSite(st, p.instrtype * 8, p.clobbers, p.instr, p.len);
    Placed(p.instr - text.mem + text.index, p.len, NativePatch(st, p.instrtype * 8, p.clobbers, p.instr, p.len))
  }

  function PlaceAll(st: State, text: Section, sites: seq<Site>): (ps: seq<Placed>)
    ensures |ps| == |sites|
  {
    if sites == [] then [] else PlaceAll(st, text, sites[..|sites| - 1]) + [Place(st, text, sites[|sites| - 1])]
  }

  lemma {:induction false} PlaceAllAt(st: State, text: Section, sites: seq<Site>, i: nat)
    requires i < |sites|
    ensures PlaceAll(st, text, sites)[i] == Place(st, text, sites[i])
  {
    if i < |sites| - 1 {
      PlaceAllAt(st, text, sites[..|sites| - 1], i);
    }
  }

  /** The loop asserts that a site is shorter than 255 bytes and stops at the first that is not. */
  method ApplyParainstr(st: State, text: Section, file: array<byte>, sites: seq<Site>) returns (done: nat)
    requires SitesFit(file.Length, PlaceAll(st, text, sites))
    modifies file
    ensures done <= |sites| && (forall i | 0 <= i < done :: sites[i].len < 255)
    ensures done < |sites| ==> sites[done].len >= 255
    ensures file[..] == PatchAll(st.nops, old(file[..]), PlaceAll(st, text, sites)[..done])
  {
    var insnbuf := new byte[254];
    done := PatchTable(st, text, file, insnbuf, sites, PlaceAll(st, text, sites));
    ShortUpTo(sites, done);
  }

  /** The first n sites are short enough for the buffer. */
  predicate Short(sites: seq<Site>, n: nat)
    requires n <= |sites|
  {
    n == 0 || (Short(sites, n - 1) && sites[n - 1].len < 255)
  }

  lemma {:induction false} ShortUpTo(sites: seq<Site>, n: nat)
    requires n <= |sites| && Short(sites, n)
    ensures forall i | 0 <= i < n :: sites[i].len < 255
  {
    if n > 0 {
      ShortUpTo(sites, n - 1);
    }
  }

  method PatchTable(st: State, text: Section, file: array<byte>, insnbuf: array<byte>, sites: seq<Site>,
    ghost placed: seq<Placed>) returns (done: nat)
    requires placed == PlaceAll(st, text, sites)
    requires SitesFit(file.Length, placed) && insnbuf.Length == 254 && insnbuf != file
    modifies file, insnbuf
    ensures done <= |sites| && Short(sites, done)
    ensures done < |sites| ==> sites[done].len >= 255
    ensures file[..] == PatchAll(st.nops, old(file[..]), placed[..done])
  {
    ghost var original := file[..];
    done := 0;
    while done < |sites| && sites[done].len < 255
      invariant done <= |sites| && Short(sites, done)
      invariant file[..] == PatchAll(st.nops, original, placed[..done])
    {
      PatchNext(st, text, file, insnbuf, sites, placed, done, original);
      done := done + 1;
    }
  }

  /** The body of the loop, in the run over the table. */
  method PatchNext(st: State, text: Section, file: array<byte>, insnbuf: array<byte>, sites: seq<Site>,
    ghost placed: seq<Placed>, i: nat, ghost original: seq<byte>)
    requires i < |sites| && sites[i].len < 255 && insnbuf.Length == 254 && insnbuf != file
    requires placed == PlaceAll(st, text, sites)
    requires |original| == file.Length && SitesFit(|original|, placed)
    requires file[..] == PatchAll(st.nops, original, placed[..i])
    modifies file, insnbuf
    ensures file[..] == PatchAll(st.nops, original, placed[..i + 1])
  {
    PatchAllSnoc(st.nops, original, placed, i);
    PlaceAllAt(st, text, sites, i);
    PatchSite(st, text, file, insnbuf, sites[i], placed[i]);
  }

  /** What the body does to the file. */
  method PatchSite(st: State, text: Section, file: array<byte>, insnbuf: array<byte>, p: Site, ghost s: Placed)
    requires p.len < 255 && insnbuf.Length == 254 && insnbuf != file
    requires s == Place(st, text, p) && SiteFits(file.Length, s)
    modifies file, insnbuf
    ensures file[..] == PatchOne(st.nops, old(file[..]), s)
  {
    var off := p.instr - text.mem + text.index;
    assert file[..][off..off + p.len] == file[off..off + p.len];
    PrepareSite(st, insnbuf, p, file[off..off + p.len], s);
    Copy(file, off, insnbuf[..p.len]);
  }

  /** `insnbuf`: the original instructions, patched and padded. */
  method PrepareSite(st: State, insnbuf: array<byte>, p: Site, original: seq<byte>, ghost s: Placed)
    requires |original| == p.len == s.len < 255 && insnbuf.Length == 254
    requires s.patch == NativePatch(st, p.instrtype * 8, p.clobbers, p.instr, p.len)
    modifies insnbuf
    ensures insnbuf[..p.len] == SiteImage(st.nops, s, original)
  {
    Copy(insnbuf, 0, original);
    ghost var copied := insnbuf[..];
    var used := ParavirtNativePatch(st, p.instrtype * 8, p.clobbers, insnbuf, p.instr, p.len);
    ghost var patched := insnbuf[..];
    AddNops(st.nops, insnbuf, used, p.len - used);
    BufferHolds(st.nops, old(insnbuf[..]), copied, patched, insnbuf[..], original, s);
  }
}
