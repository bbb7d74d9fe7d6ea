/**
 Alternative instructions: the loop over .altinstructions that copies replacements over
 instructions, moves relative calls and pads the rest. Host pointers are file offsets.
 */
module Alternatives {
  import opened Bytes
  import opened Patching
  import opened Nops
  import opened Sections

  const ENTRY_SIZE: nat := 12
  const BUFFER_SIZE: nat := 254

  /**
   The sections involved, whether the file is the kernel image, and the CPU features the guest has.
   */
  datatype Env = Env(
    table: Section, replacements: Section, text: Section, isKernel: bool, features: set<int>, nops: Ideal)

  predicate EntryInFile(img: seq<byte>, a: int) {
    0 <= a && a + ENTRY_SIZE <= |img|
  }

  /** A 32-bit self-relative pointer stored at `at`. */
  function SelfRelative(img: seq<byte>, at: int): int
    requires 0 <= at && at + 4 <= |img|
  {
    at + Int32(Load(img[at..at + 4]))
  }

  function Instr(env: Env, img: seq<byte>, a: int): int
    requires EntryInFile(img, a)
  {
    SelfRelative(img, a) - if env.isKernel then env.text.index else 0
  }

  function Replacement(img: seq<byte>, a: int): int
    requires EntryInFile(img, a)
  {
    SelfRelative(img, a + 4)
  }

  function CpuId(img: seq<byte>, a: int): int
    requires EntryInFile(img, a)
  {
    Load(img[a + 8..a + 10])
  }

  function InstrLen(img: seq<byte>, a: int): nat
    requires EntryInFile(img, a)
  {
    img[a + 10]
  }

  function ReplacementLen(img: seq<byte>, a: int): nat
    requires EntryInFile(img, a)
  {
    img[a + 11]
  }

  predicate Enabled(env: Env, img: seq<byte>, a: int)
    requires EntryInFile(img, a)
  {
    CpuId(img, a) in env.features
  }

  predicate InSection(s: Section, ptr: int) {
    s.index <= ptr < s.index + s.size
  }

  /** What the code takes off the displacement of a replacement that lies in its section. */
  function Correction(env: Env, replacement: int): int {
    if InSection(env.replacements, replacement) then Skew(env.replacements, env.text) else 0
  }

  /** The displacement of a call moved from `replacement` to `instr`. */
  function MovedDisplacement(env: Env, displacement: int, replacement: int, instr: int): int {
    Int32(displacement - Correction(env, replacement) + (replacement - instr))
  }

  predicate IsCall(code: seq<byte>) {
    |code| == 5 && code[0] == 0xe8
  }

  /** The replacement as it is placed at `instr`: a relative call is adjusted to its new place. */
  function Moved(env: Env, code: seq<byte>, replacement: int, instr: int): (r: seq<byte>)
    ensures |r| == |code|
  {
    if IsCall(code)
    then [0xe8] + Store(MovedDisplacement(env, Int32(Load(code[1..5])), replacement, instr), 4)
    else code
  }

  /** The pointers of an enabled entry stay inside the file, and its lengths keep their promise. */
  predicate EntryInBounds(env: Env, img: seq<byte>, a: int) {
    && EntryInFile(img, a)
    && (Enabled(env, img, a) ==>
      && 0 <= Replacement(img, a) && Replacement(img, a) + ReplacementLen(img, a) <= |img|
      && ReplacementLen(img, a) <= InstrLen(img, a) <= BUFFER_SIZE
      && 0 <= Instr(env, img, a) && Instr(env, img, a) + InstrLen(img, a) <= |img|)
  }

  function ReplacementCode(env: Env, img: seq<byte>, a: int): (r: seq<byte>)
    requires EntryInBounds(env, img, a) && Enabled(env, img, a)
    ensures |r| == ReplacementLen(img, a)
  {
    img[Replacement(img, a)..Replacement(img, a) + ReplacementLen(img, a)]
  }

  /** The bytes the instruction is overwritten with. */
  function AltWrite(env: Env, img: seq<byte>, a: int): (w: Write)
    requires EntryInBounds(env, img, a) && Enabled(env, img, a)
    ensures w.off == Instr(env, img, a) && |w.data| == InstrLen(img, a)
  {
    Write(Instr(env, img, a),
      Moved(env, ReplacementCode(env, img, a), Replacement(img, a), Instr(env, img, a))
      + Fill(env.nops, InstrLen(img, a) - ReplacementLen(img, a)))
  }

  function AltStep(env: Env, img: seq<byte>, a: int): (r: seq<byte>)
    requires EntryInBounds(env, img, a)
    ensures |r| == |img|
  {
    if Enabled(env, img, a) then Put(img, AltWrite(env, img, a)) else img
  }

  function TableEnd(env: Env): int {
    env.table.index + env.table.size
  }

  /** Every entry from `a` on is in bounds when the loop reaches it. */
  predicate Runs(env: Env, img: seq<byte>, a: int)
    decreases TableEnd(env) - a
  {
    a >= TableEnd(env) || (EntryInBounds(env, img, a) && Runs(env, AltStep(env, img, a), a + ENTRY_SIZE))
  }

  function AltFrom(env: Env, img: seq<byte>, a: int): (r: seq<byte>)
    requires Runs(env, img, a)
    ensures |r| == |img|
    decreases TableEnd(env) - a
  {
    if a >= TableEnd(env) then img else AltFrom(env, AltStep(env, img, a), a + ENTRY_SIZE)
  }

  method ApplyAltinstr(env: Env, file: array<byte>)
    requires Runs(env, file[..], env.table.index)
    modifies file
    ensures Runs(env, old(file[..]), env.table.index)
    ensures file[..] == AltFrom(env, old(file[..]), env.table.index)
  {
    var insnbuf := new byte[BUFFER_SIZE];
    var a := env.table.index;
    while a < TableEnd(env)
      invariant Runs(env, file[..], a)
      invariant AltFrom(env, file[..], a) == AltFrom(env, old(file[..]), env.table.index)
      decreases TableEnd(env) - a
    {
      ApplyEntry(env, file, insnbuf, a);
      a := a + ENTRY_SIZE;
    }
  }

  /** The body of the loop for the entry at `a`. */
  method ApplyEntry(env: Env, file: array<byte>, insnbuf: array<byte>, a: int)
    requires EntryInBounds(env, file[..], a) && insnbuf.Length == BUFFER_SIZE && insnbuf != file
    modifies file, insnbuf
    ensures file[..] == AltStep(env, old(file[..]), a)
  {
    ghost var img := file[..];
    EntryFields(file, img, a);
    if Load(file[a + 8..a + 10]) !in env.features {
      return;
    }
    var instrLen, replacementLen := file[a + 10], file[a + 11];
    var instr := a + Int32(Load(file[a..a + 4]));
    var replacement := a + 4 + Int32(Load(file[a + 4..a + 8]));
    if env.isKernel {
      instr := instr - env.text.index;
    }
    ghost var w := AltWrite(env, img, a);
    assert file[replacement..replacement + replacementLen] == ReplacementCode(env, img, a);
    FillBuffer(env, file, insnbuf, replacement, replacementLen, instr, instrLen);
    assert w == Write(instr, insnbuf[..instrLen]);
    Copy(file, instr, insnbuf[..instrLen]);
  }

  lemma EntryFields(file: array<byte>, img: seq<byte>, a: int)
    requires img == file[..] && EntryInFile(img, a)
    ensures img[a..a + 4] == file[a..a + 4] && img[a + 4..a + 8] == file[a + 4..a + 8]
    ensures img[a + 8..a + 10] == file[a + 8..a + 10]
  {}

  /** `insnbuf`: the replacement, its call moved, then padding. */
  method FillBuffer(env: Env, file: array<byte>, insnbuf: array<byte>, replacement: nat, replacementLen: nat,
    instr: int, instrLen: nat)
    requires insnbuf.Length == BUFFER_SIZE && insnbuf != file
    requires replacement + replacementLen <= file.Length && replacementLen <= instrLen <= BUFFER_SIZE
    modifies insnbuf
    ensures insnbuf[..instrLen] ==
      Moved(env, file[replacement..replacement + replacementLen], replacement, instr)
      + Fill(env.nops, instrLen - replacementLen)
  {
    ghost var code := file[replacement..replacement + replacementLen];
    ghost var before := insnbuf[..];
    Copy(insnbuf, 0, file[replacement..replacement + replacementLen]);
    PutPrefix(before, [], code);
    MoveCall(env, insnbuf, replacementLen, replacement, instr, code);
    before := insnbuf[..];
    AddNops(env.nops, insnbuf, replacementLen, instrLen - replacementLen);
    PutPrefix(before, before[..replacementLen], Fill(env.nops, instrLen - replacementLen));
  }

  /** A relative call at the start of the buffer gets the displacement for its new place. */
  method MoveCall(env: Env, insnbuf: array<byte>, replacementLen: nat, replacement: int, instr: int,
    ghost code: seq<byte>)
    requires insnbuf.Length == BUFFER_SIZE && replacementLen <= BUFFER_SIZE && insnbuf[..replacementLen] == code
    modifies insnbuf
    ensures insnbuf[..replacementLen] == Moved(env, code, replacement, instr)
  {
    if insnbuf[0] == 0xe8 && replacementLen == 5 {
      assert code[0] == 0xe8 && code[1..5] == insnbuf[1..5];
      CorrectOperand(env, insnbuf, replacement, instr, Int32(Load(code[1..5])));
      assert insnbuf[..5] == [insnbuf[0]] + insnbuf[1..5];
    }
  }

  /** The two corrections of the operand, one after the other. */
  method CorrectOperand(env: Env, insnbuf: array<byte>, replacement: int, instr: int, ghost d: int)
    requires insnbuf.Length == BUFFER_SIZE && Int32(Load(insnbuf[1..5])) == d
    modifies insnbuf
    ensures insnbuf[0] == old(insnbuf[0])
    ensures insnbuf[1..5] == Store(MovedDisplacement(env, d, replacement, instr), 4)
  {
    ghost var taken, shift := Correction(env, replacement), replacement - instr;
    if InSection(env.replacements, replacement) {
      AddToOperand(insnbuf, -Skew(env.replacements, env.text), d);
    }
    LowBits(d - taken, shift);
    AddToOperand(insnbuf, replacement - instr, Int32(d - taken));
    OperandIs(insnbuf[1..5], d - taken + shift);
  }

  /** `*(int32_t *)(insnbuf + 1) += delta`. */
  method AddToOperand(insnbuf: array<byte>, delta: int, ghost d: int)
    requires insnbuf.Length == BUFFER_SIZE && Int32(Load(insnbuf[1..5])) == d
    modifies insnbuf
    ensures Int32(Load(insnbuf[1..5])) == Int32(d + delta)
    ensures insnbuf[0] == old(insnbuf[0])
  {
    var sum := Int32(Load(insnbuf[1..5])) + delta;
    ghost var before := insnbuf[..];
    Copy(insnbuf, 1, Store(sum, 4));
    PutPrefix(before, before[..1], Store(sum, 4));
    assert insnbuf[..5] == before[..1] + Store(sum, 4);
    assert insnbuf[1..5] == insnbuf[..5][1..] && insnbuf[0] == insnbuf[..5][0];
    LoadStore32(sum);
  }

  /** A field is determined by what it reads as. */
  lemma OperandIs(field: seq<byte>, value: int)
    requires |field| == 4 && Int32(Load(field)) == Int32(value)
    ensures field == Store(Int32(value), 4)
  {
    Widths();
    StoreLoad(field);
    StoreEqual(Load(field), Int32(value), 4);
  }

  lemma PutPrefix(img: seq<byte>, front: seq<byte>, data: seq<byte>)
    requires |front| + |data| <= |img| && img[..|front|] == front
    ensures Put(img, Write(|front|, data))[..|front| + |data|] == front + data
  {
    PutEverywhere(img, Write(|front|, data));
    assert img[..|front|] == front;
  }

  // ---- Moved calls ----------------------------------------------------------------

  /** Where a 5-byte call at guest address `at` leads. */
  function CallTarget(code: seq<byte>, at: int): int
    requires |code| == 5
  {
    at + 5 + Int32(Load(code[1..5]))
  }

  /**
   A call copied over an instruction of the text still calls the same guest address, modulo 2^32,
   exactly when what the code takes off its displacement is the skew of the section that really holds
   the replacement.
   */
  lemma MovedCallIff(env: Env, code: seq<byte>, replacement: int, instr: int, holder: Section)
    requires IsCall(code) && InSection(holder, replacement)
    ensures IsCall(Moved(env, code, replacement, instr))
    ensures CallTarget(Moved(env, code, replacement, instr), GuestAddress(env.text, instr)) % TWO_32
         == CallTarget(code, GuestAddress(holder, replacement)) % TWO_32
      <==> (Skew(holder, env.text) - Correction(env, replacement)) % TWO_32 == 0
  {
    var taken := Int32(Load(code[1..5])) - Correction(env, replacement) + (replacement - instr);
    var at, there := GuestAddress(env.text, instr), CallTarget(code, GuestAddress(holder, replacement));
    MovedBytes(env, code, replacement, instr);
    TakenTo(taken, at + 5, there, Skew(holder, env.text) - Correction(env, replacement));
  }

  lemma TakenTo(taken: int, from: int, there: int, excess: int)
    requires from + taken == there + excess
    ensures (from + Int32(taken)) % TWO_32 == there % TWO_32 <==> excess % TWO_32 == 0
  {
    LowBits(taken, from);
    SameUpTo(there, excess);
  }

  /** A call whose replacement lies in a third section, with a skew of its own, ends up elsewhere. */
  lemma ThirdSectionLosesTarget()
    ensures var text, own := Section(0, 0x1000, 0x100), Section(0x100, 0x2000, 0x10);
      var third := Section(0x200, 0x9000, 0x10);
      var env := Env(Section(0x300, 0xa000, 0x10), own, text, false, {}, IdealNops(P6));
      var code: seq<byte> := [0xe8, 0, 0, 0, 0];
      && InSection(third, 0x200)
      && CallTarget(Moved(env, code, 0x200, 0x10), GuestAddress(text, 0x10)) % TWO_32
           != CallTarget(code, GuestAddress(third, 0x200)) % TWO_32
  {
    var text, own, third := Section(0, 0x1000, 0x100), Section(0x100, 0x2000, 0x10), Section(0x200, 0x9000, 0x10);
    var env := Env(Section(0x300, 0xa000, 0x10), own, text, false, {}, IdealNops(P6));
    MovedCallIff(env, [0xe8, 0, 0, 0, 0], 0x200, 0x10, third);
  }

  /** So a replacement in its own section keeps its target, and so does one in the text itself. */
  lemma MovedCallKept(env: Env, code: seq<byte>, replacement: int, instr: int, holder: Section)
    requires IsCall(code) && InSection(holder, replacement)
    requires holder == env.replacements || (holder == env.text && !InSection(env.replacements, replacement))
    ensures CallTarget(Moved(env, code, replacement, instr), GuestAddress(env.text, instr)) % TWO_32
         == CallTarget(code, GuestAddress(holder, replacement)) % TWO_32
  {
    MovedCallIff(env, code, replacement, instr, holder);
  }

  /** The same target exactly, when moreover it is within reach of the new place. */
  lemma MovedCallExact(env: Env, code: seq<byte>, replacement: int, instr: int, holder: Section)
    requires IsCall(code) && InSection(holder, replacement) && Skew(holder, env.text) == Correction(env, replacement)
    ensures CallTarget(Moved(env, code, replacement, instr), GuestAddress(env.text, instr))
         == CallTarget(code, GuestAddress(holder, replacement))
      <==> (var distance := CallTarget(code, GuestAddress(holder, replacement)) - (GuestAddress(env.text, instr) + 5);
            -0x8000_0000 <= distance < 0x8000_0000)
  {
    MovedBytes(env, code, replacement, instr);
    assert Int32(Load(code[1..5])) - Correction(env, replacement) + (replacement - instr)
      == CallTarget(code, GuestAddress(holder, replacement)) - (GuestAddress(env.text, instr) + 5);
  }

  lemma MovedBytes(env: Env, code: seq<byte>, replacement: int, instr: int)
    requires IsCall(code)
    ensures var d := MovedDisplacement(env, Int32(Load(code[1..5])), replacement, instr);
      Int32(Load(Moved(env, code, replacement, instr)[1..5])) == d
  {
    var d := MovedDisplacement(env, Int32(Load(code[1..5])), replacement, instr);
    assert Moved(env, code, replacement, instr)[1..5] == Store(d, 4);
    LoadStore32(d);
  }

  /** Truncating a summand does not change the low 32 bits of a sum. */
  lemma LowBits(x: int, y: int)
    ensures (Int32(x) + y) % TWO_32 == (x + y) % TWO_32
    ensures Int32(Int32(x) + y) == Int32(x + y)
  {
    var k := x / TWO_32 - Int32(x) / TWO_32;
    assert x == Int32(x) + k * TWO_32;
    RemainderShift(Int32(x) + y, k);
    SameLow32((x + y) % TWO_32, x + y);
    SameLow32((x + y) % TWO_32, Int32(x) + y);
  }

  lemma RemainderShift(x: int, k: int)
    ensures (x + k * TWO_32) % TWO_32 == x % TWO_32
  {}

  lemma SameUpTo(x: int, y: int)
    ensures (x + y) % TWO_32 == x % TWO_32 <==> y % TWO_32 == 0
  {}

  // ---- One entry, and the whole table ---------------------------------------------

  /** Behind the moved replacement the instruction is filled with whole NOPs. */
  lemma TailIsNops(env: Env, img: seq<byte>, a: int)
    requires EntryInBounds(env, img, a) && Enabled(env, img, a) && Genuine(env.nops)
    ensures var w := AltWrite(env, img, a);
      && w.data[..ReplacementLen(img, a)]
           == Moved(env, ReplacementCode(env, img, a), Replacement(img, a), Instr(env, img, a))
      && AllNops(w.data[ReplacementLen(img, a)..])
  {
    var len, pad := ReplacementLen(img, a), InstrLen(img, a) - ReplacementLen(img, a);
    var moved := Moved(env, ReplacementCode(env, img, a), Replacement(img, a), Instr(env, img, a));
    PaddedParts(env.nops, moved, pad, AltWrite(env, img, a).data, len);
  }

  lemma PaddedParts(nops: Ideal, code: seq<byte>, pad: nat, padded: seq<byte>, n: nat)
    requires Genuine(nops) && padded == code + Fill(nops, pad) && n == |code|
    ensures padded[..n] == code && AllNops(padded[n..])
  {
    FillIsNops(nops, pad);
    assert padded[n..] == Fill(nops, pad);
  }

  predicate AllInBounds(env: Env, img: seq<byte>, a: int)
    decreases TableEnd(env) - a
  {
    a >= TableEnd(env) || (EntryInBounds(env, img, a) && AllInBounds(env, img, a + ENTRY_SIZE))
  }

  /** The writes of the enabled entries from `a` on, all computed from the unpatched file. */
  function AltWrites(env: Env, img: seq<byte>, a: int): seq<Write>
    requires AllInBounds(env, img, a)
    decreases TableEnd(env) - a
  {
    if a >= TableEnd(env) then []
    else (if Enabled(env, img, a) then [AltWrite(env, img, a)] else []) + AltWrites(env, img, a + ENTRY_SIZE)
  }

  /** Byte `k` belongs to an entry of the table or to the replacement of an enabled one. */
  predicate IsSource(env: Env, img: seq<byte>, a: int, k: int)
    requires AllInBounds(env, img, a)
    decreases TableEnd(env) - a
  {
    && a < TableEnd(env)
    && (|| a <= k < a + ENTRY_SIZE
        || (Enabled(env, img, a) && Replacement(img, a) <= k < Replacement(img, a) + ReplacementLen(img, a))
        || IsSource(env, img, a + ENTRY_SIZE, k))
  }

  /** No instruction to be replaced is itself a table entry or a replacement. */
  ghost predicate SourcesUntouched(env: Env, img: seq<byte>, a: int)
    requires AllInBounds(env, img, a)
  {
    forall w, k | w in AltWrites(env, img, a) && Covers(w, k) :: !IsSource(env, img, a, k)
  }

  ghost predicate SameSources(env: Env, img: seq<byte>, img': seq<byte>, a: int)
    requires AllInBounds(env, img, a)
  {
    |img'| == |img| && forall k | 0 <= k < |img| && IsSource(env, img, a, k) :: img'[k] == img[k]
  }

  lemma SameEntry(env: Env, img: seq<byte>, img': seq<byte>, a: int)
    requires AllInBounds(env, img, a) && a < TableEnd(env) && SameSources(env, img, img', a)
    ensures EntryInBounds(env, img', a) && Enabled(env, img', a) == Enabled(env, img, a)
    ensures Enabled(env, img, a) ==> AltWrite(env, img', a) == AltWrite(env, img, a)
  {
    SameFields(img, img', a);
    if Enabled(env, img, a) {
      SameReplacement(env, img, img', a);
    }
  }

  lemma SameReplacement(env: Env, img: seq<byte>, img': seq<byte>, a: int)
    requires EntryInBounds(env, img, a) && EntryInBounds(env, img', a) && Enabled(env, img, a) && Enabled(env, img', a)
    requires Instr(env, img', a) == Instr(env, img, a) && Replacement(img', a) == Replacement(img, a)
    requires InstrLen(img', a) == InstrLen(img, a) && ReplacementLen(img', a) == ReplacementLen(img, a)
    requires forall k | Replacement(img, a) <= k < Replacement(img, a) + ReplacementLen(img, a) :: img'[k] == img[k]
    ensures AltWrite(env, img', a) == AltWrite(env, img, a)
  {
    assert ReplacementCode(env, img', a) == ReplacementCode(env, img, a);
  }

  lemma SameFields(img: seq<byte>, img': seq<byte>, a: int)
    requires EntryInFile(img, a) && |img'| == |img|
    requires forall k | a <= k < a + ENTRY_SIZE :: img'[k] == img[k]
    ensures img'[a..a + 4] == img[a..a + 4] && img'[a + 4..a + 8] == img[a + 4..a + 8]
    ensures img'[a + 8..a + 10] == img[a + 8..a + 10]
    ensures img'[a + 10] == img[a + 10] && img'[a + 11] == img[a + 11]
  {}

  /** The loop writes what each entry asks for in the unpatched file. */
  lemma {:induction false} AltsAreWrites(env: Env, img: seq<byte>, img': seq<byte>, a: int)
    requires AllInBounds(env, img, a) && SourcesUntouched(env, img, a) && SameSources(env, img, img', a)
    ensures Runs(env, img', a) && AltFrom(env, img', a) == PutAll(img', AltWrites(env, img, a))
    decreases TableEnd(env) - a
  {
    if a < TableEnd(env) {
      SameEntry(env, img, img', a);
      var rest := AltWrites(env, img, a + ENTRY_SIZE);
      forall w | w in rest ensures w in AltWrites(env, img, a) {}
      if Enabled(env, img, a) {
        var w := AltWrite(env, img, a);
        assert w in AltWrites(env, img, a);
        PutEverywhere(img', w);
        AltsAreWrites(env, img, Put(img', w), a + ENTRY_SIZE);
        PutAllCons(img', w, rest);
      } else {
        AltsAreWrites(env, img, img', a + ENTRY_SIZE);
        assert AltWrites(env, img, a) == rest;
      }
    }
  }

  /** `b` is the offset of an entry at or behind `a`. */
  predicate IsEntry(env: Env, a: int, b: int) {
    a <= b < TableEnd(env) && (b - a) % ENTRY_SIZE == 0
  }

  lemma {:induction false} EntryOfTable(env: Env, img: seq<byte>, a: int, b: int)
    requires AllInBounds(env, img, a) && IsEntry(env, a, b)
    ensures EntryInBounds(env, img, b)
    ensures Enabled(env, img, b) ==> AltWrite(env, img, b) in AltWrites(env, img, a)
    decreases TableEnd(env) - a
  {
    if a < b {
      EntryOfTable(env, img, a + ENTRY_SIZE, b);
    }
  }

  lemma {:induction false} AltWritesFit(env: Env, img: seq<byte>, a: int)
    requires AllInBounds(env, img, a)
    ensures AllFit(|img|, AltWrites(env, img, a))
    decreases TableEnd(env) - a
  {
    if a < TableEnd(env) {
      AltWritesFit(env, img, a + ENTRY_SIZE);
    }
  }

  predicate HoldsAt(img: seq<byte>, w: Write) {
    Fits(|img|, w) && img[w.off..w.off + |w.data|] == w.data
  }

  /**
   After the pass every enabled instruction holds its replacement, computed from the unpatched
   file, when instructions do not overlap each other, the table or the replacements.
   */
  lemma AltApplied(env: Env, img: seq<byte>, b: int)
    requires AllInBounds(env, img, env.table.index) && SourcesUntouched(env, img, env.table.index)
    requires Coherent(AltWrites(env, img, env.table.index))
    requires IsEntry(env, env.table.index, b)
    ensures Runs(env, img, env.table.index) && EntryInBounds(env, img, b)
    ensures Enabled(env, img, b) ==>
      HoldsAt(AltFrom(env, img, env.table.index), AltWrite(env, img, b))
  {
    AltsAreWrites(env, img, img, env.table.index);
    AltWritesFit(env, img, env.table.index);
    EntryOfTable(env, img, env.table.index, b);
    if Enabled(env, img, b) {
      var w := AltWrite(env, img, b);
      PutAllField(img, AltWrites(env, img, env.table.index), w, w.off + |w.data|);
    }
  }

  /** Bytes outside the enabled instructions are unchanged. */
  lemma AltFrame(env: Env, img: seq<byte>, k: nat)
    requires AllInBounds(env, img, env.table.index) && SourcesUntouched(env, img, env.table.index) && k < |img|
    requires forall w | w in AltWrites(env, img, env.table.index) :: !Covers(w, k)
    ensures Runs(env, img, env.table.index) && AltFrom(env, img, env.table.index)[k] == img[k]
  {
    AltsAreWrites(env, img, img, env.table.index);
    PutAllFrame(img, AltWrites(env, img, env.table.index), k);
  }
}
