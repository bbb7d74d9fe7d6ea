/**
 The NOP tables of the guest kernel, the padding routine that draws on them, and
 a decoder for the NOP encodings of the Intel SDM (volume 2, NOP: opcodes 90 and
 0F 1F /0 with ModRM, SIB and displacement) against which the padding is judged.
 */
module Nops {
  import opened Bytes
  import opened Patching

  const ASM_NOP_MAX: nat := 8

  /** Which of the two tables the guest's `ideal_nops` points to. */
  datatype Table = P6 | K8

  /** Size of entry `n`; entry 9 is the atomic 5-byte NOP. */
  function Size(n: nat): nat { if n == 9 then 5 else n }

  /** The byte string each table entry is built from. */
  function Macro(t: Table, n: nat): (r: seq<byte>)
    requires 1 <= n <= 9
    ensures |r| == Size(n)
  {
    match t
    case P6 => (
      match n
      case 1 => [0x90]
      case 2 => [0x66, 0x90]
      case 3 => [0x0f, 0x1f, 0x00]
      case 4 => [0x0f, 0x1f, 0x40, 0]
      case 5 => [0x0f, 0x1f, 0x44, 0x00, 0]
      case 6 => [0x66, 0x0f, 0x1f, 0x44, 0x00, 0]
      case 7 => [0x0f, 0x1f, 0x80, 0, 0, 0, 0]
      case 8 => [0x0f, 0x1f, 0x84, 0x00, 0, 0, 0, 0]
      case _ => [0x0f, 0x1f, 0x44, 0x00, 0])
    case K8 => (
      match n
      case 1 => [0x90]
      case 2 => [0x66, 0x90]
      case 3 => [0x66, 0x66, 0x90]
      case 4 => [0x66, 0x66, 0x66, 0x90]
      case 5 => [0x66, 0x66, 0x90] + [0x66, 0x90]
      case 6 => [0x66, 0x66, 0x90] + [0x66, 0x66, 0x90]
      case 7 => [0x66, 0x66, 0x66, 0x90] + [0x66, 0x66, 0x90]
      case 8 => [0x66, 0x66, 0x66, 0x90] + [0x66, 0x66, 0x66, 0x90]
      case _ => [0x66] + [0x66, 0x66, 0x66, 0x90])
  }

  /** Byte strings one after the other, as the byte tables hold their entries. */
  function Packed(parts: seq<seq<byte>>): seq<byte> {
    if parts == [] then [] else Packed(parts[..|parts| - 1]) + parts[|parts| - 1]
  }

  /** Where entry `n` of the index tables points. */
  const INDEX: seq<nat> := [
    0,
    0,
    1,
    1 + 2,
    1 + 2 + 3,
    1 + 2 + 3 + 4,
    1 + 2 + 3 + 4 + 5,
    1 + 2 + 3 + 4 + 5 + 6,
    1 + 2 + 3 + 4 + 5 + 6 + 7,
    1 + 2 + 3 + 4 + 5 + 6 + 7 + 8]

  lemma {:induction false} IndexIsLength(parts: seq<seq<byte>>, n: nat)
    requires |parts| == 9 && n < 9
    requires forall i | 0 <= i < 9 :: |parts[i]| == Size(i + 1)
    ensures |Packed(parts[..n])| == INDEX[n + 1]
  {
    if n > 0 {
      IndexIsLength(parts, n - 1);
      assert parts[..n][..n - 1] == parts[..n - 1];
    }
  }

  lemma {:induction false} PackedEntry(parts: seq<seq<byte>>, n: nat, m: nat)
    requires n < m <= |parts|
    ensures var at := |Packed(parts[..n])|;
      at + |parts[n]| <= |Packed(parts[..m])| && Packed(parts[..m])[at..at + |parts[n]|] == parts[n]
    decreases m
  {
    assert parts[..m][..m - 1] == parts[..m - 1];
    if n < m - 1 {
      PackedEntry(parts, n, m - 1);
    }
  }

  /** What `ideal_nops` points to: for each index the bytes behind its pointer. */
  type Ideal = nops: seq<seq<byte>> | |nops| == 10 && forall n | 1 <= n <= 9 :: |nops[n]| == Size(n)
    witness [[]] + seq(9, i requires 0 <= i < 9 => seq(Size(i + 1), j => 0))

  function Entries(t: Table): (parts: seq<seq<byte>>)
    ensures |parts| == 9 && forall i | 0 <= i < 9 :: parts[i] == Macro(t, i + 1)
  {
    seq(9, i requires 0 <= i < 9 => Macro(t, i + 1))
  }

  /** The bytes behind pointer `n` of the index table. */
  function Behind(parts: seq<seq<byte>>, n: nat): (r: seq<byte>)
    requires |parts| == 9 && 1 <= n <= 9
    requires forall i | 0 <= i < 9 :: |parts[i]| == Size(i + 1)
    ensures r == parts[n - 1]
  {
    IndexIsLength(parts, n - 1);
    PackedEntry(parts, n - 1, 9);
    assert parts[..9] == parts;
    Packed(parts)[INDEX[n]..INDEX[n] + Size(n)]
  }

  function IdealNops(t: Table): (nops: Ideal)
    ensures forall n | 1 <= n <= 9 :: nops[n] == Macro(t, n)
  {
    var parts := Entries(t);
    [[]] + seq(9, i requires 0 <= i < 9 => Behind(parts, i + 1))
  }

  /** The `len` bytes of padding, in table chunks of at most eight bytes. */
  function Fill(nops: Ideal, len: nat): (r: seq<byte>)
    ensures |r| == len
  {
    if len == 0 then [] else
      var chunk := if len > ASM_NOP_MAX then ASM_NOP_MAX else len;
      nops[chunk] + Fill(nops, len - chunk)
  }

  /** The next table entry of the padding. */
  function Chunk(nops: Ideal, len: nat): (r: seq<byte>)
    requires len > 0
    ensures 0 < |r| <= len && Fill(nops, len) == r + Fill(nops, len - |r|)
  {
    nops[if len > ASM_NOP_MAX then ASM_NOP_MAX else len]
  }

  /** One turn of the loop: `done` is written, `chunk` follows it. */
  lemma AddChunk(was: seq<byte>, start: nat, at: nat, done: seq<byte>, left: seq<byte>, chunk: seq<byte>,
    rest: seq<byte>, fill: seq<byte>)
    requires at == start + |done| && at + |chunk| <= |was| && left == chunk + rest && done + left == fill
    ensures Put(Put(was, Write(start, done)), Write(at, chunk)) == Put(was, Write(start, done + chunk))
    ensures (done + chunk) + rest == fill
  {
    PutAdjacent(was, start, at, done, chunk);
    assert (done + chunk) + rest == done + (chunk + rest);
  }

  method AddNops(nops: Ideal, buf: array<byte>, start: nat, len: nat)
    requires len < 256 && start + len <= buf.Length
    modifies buf
    ensures buf[..] == Put(old(buf[..]), Write(start, Fill(nops, len)))
  {
    var at, rest := start, len;
    ghost var was, done: seq<byte> := buf[..], [];
    PutNothing(was, start);
    while rest > 0
      invariant 0 <= rest && at + rest == start + len && at == start + |done|
      invariant done + Fill(nops, rest) == Fill(nops, len)
      invariant buf[..] == Put(was, Write(start, done))
    {
      var chunk := Chunk(nops, rest);
      AddChunk(was, start, at, done, Fill(nops, rest), chunk, Fill(nops, rest - |chunk|), Fill(nops, len));
      Copy(buf, at, chunk);
      at, rest, done := at + |chunk|, rest - |chunk|, done + chunk;
    }
    assert done + [] == done;
  }

  // ---- Decoding ---------------------------------------------------------------

  /** Bytes taken by ModRM `m`, the SIB byte and the displacement (64-bit addressing). */
  function ModRmLength(m: byte): nat {
    var mode, rm := m / 64, m % 8;
    if mode == 3 then 1
    else
      var sib := if rm == 4 then 1 else 0;
      var disp := if mode == 1 then 1 else if mode == 2 then 4 else if rm == 5 then 4 else 0;
      1 + sib + disp
  }

  /** Length of the NOP instruction `s` begins with; zero when there is none. */
  function NopLength(s: seq<byte>): (n: nat)
    ensures n <= |s|
  {
    if s == [] then 0
    else if s[0] == 0x90 then 1
    else if s[0] == 0x66 then
      var rest := NopLength(s[1..]);
      if rest == 0 then 0 else 1 + rest
    else if |s| >= 3 && s[0] == 0x0f && s[1] == 0x1f && (s[2] / 8) % 8 == 0 then
      var len := 2 + ModRmLength(s[2]);
      if len <= |s| then len else 0
    else 0
  }

  /** `s` is nothing but whole NOP instructions. */
  predicate AllNops(s: seq<byte>)
    decreases |s|
  {
    s == [] || (NopLength(s) > 0 && AllNops(s[NopLength(s)..]))
  }

  lemma NopLengthPrefix(s: seq<byte>, t: seq<byte>)
    requires NopLength(s) > 0
    ensures NopLength(s + t) == NopLength(s)
  {
    if s[0] == 0x66 {
      NopLengthPrefix(s[1..], t);
      assert (s + t)[1..] == s[1..] + t;
    }
  }

  lemma {:induction false} AllNopsAppend(s: seq<byte>, t: seq<byte>)
    requires AllNops(s) && AllNops(t)
    ensures AllNops(s + t)
    decreases |s|
  {
    if s == [] {
      assert s + t == t;
    } else {
      var n, st := NopLength(s), s + t;
      NopLengthPrefix(s, t);
      AllNopsAppend(s[n..], t);
      assert st != [] && NopLength(st) == n && st[n..] == s[n..] + t;
    }
  }

  lemma OneNop(s: seq<byte>)
    requires s != [] && NopLength(s) == |s|
    ensures AllNops(s)
  {
    assert s[NopLength(s)..] == [];
  }

  /** Every entry of both tables is a run of whole NOP instructions. */
  lemma TableNops(t: Table, n: nat)
    requires 1 <= n <= 9
    ensures AllNops(Macro(t, n))
  {
    if t.K8? && 5 <= n <= 8 {
      var first := if n >= 7 then 4 else 3;
      TableNops(t, first);
      TableNops(t, n - first);
      AllNopsAppend(Macro(t, first), Macro(t, n - first));
    } else {
      SingleNop(t, n);
      OneNop(Macro(t, n));
    }
  }

  lemma SingleNop(t: Table, n: nat)
    requires 1 <= n <= 9 && (t.K8? ==> n <= 4 || n == 9)
    ensures NopLength(Macro(t, n)) == Size(n)
  {
    if t.K8? && n > 1 {
      var m := if n == 9 then 4 else n - 1;
      SingleNop(t, m);
      assert Macro(t, n)[1..] == Macro(t, m);
    }
  }

  /** The atomic NOP is a single instruction; the plain one of the K8 table is two. */
  lemma AtomicIsOneInstruction(t: Table)
    ensures NopLength(IdealNops(t)[9]) == 5
    ensures NopLength(IdealNops(t)[5]) == 5 <==> t.P6?
    ensures IdealNops(t)[5] == IdealNops(t)[9] <==> t.P6?
  {
    SingleNop(t, 9);
    assert Macro(K8, 5)[2] != Macro(K8, 9)[2];
  }

  /**
   From three bytes on the P6 table holds the sequences the SDM recommends: 0f 1f, one of five ModRM bytes, zeros,
   for six bytes behind a prefix. The length says which ModRM byte it is.
   */
  lemma RecommendedForm(n: nat)
    requires 3 <= n <= 9
    ensures var s, k := IdealNops(P6)[n], if n == 6 then 1 else 0;
      && NopLength(s) == |s|
      && (k == 1 ==> s[0] == 0x66)
      && s[k] == 0x0f && s[k + 1] == 0x1f && s[k + 2] in {0x00, 0x40, 0x44, 0x80, 0x84}
      && forall j | k + 2 < j < |s| :: s[j] == 0
  {
    SingleNop(P6, n);
  }

  /** A NOP behind operand size prefixes. */
  function Prefixed(m: nat): (s: seq<byte>)
    requires m > 0
    ensures |s| == m
  {
    seq(m - 1, i => 0x66) + [0x90]
  }

  /**
   The K8 table holds prefixed NOPs: one up to four bytes and for the atomic entry, else two, the longer first.
   The shortest two of the P6 table are the same.
   */
  lemma PrefixedForm(n: nat)
    requires 1 <= n <= 8
    ensures IdealNops(K8)[n] == if n <= 4 then Prefixed(n) else Prefixed((n + 1) / 2) + Prefixed(n / 2)
    ensures IdealNops(K8)[9] == Prefixed(5)
    ensures n <= 2 ==> IdealNops(P6)[n] == Prefixed(n)
  {
  }

  ghost predicate Genuine(nops: Ideal) {
    forall n | 1 <= n <= 9 :: AllNops(nops[n])
  }

  lemma IdealNopsGenuine(t: Table)
    ensures Genuine(IdealNops(t))
  {
    forall n | 1 <= n <= 9 ensures AllNops(Macro(t, n)) {
      TableNops(t, n);
    }
  }

  /** Padding of any length is whole NOP instructions. */
  lemma {:induction false} FillIsNops(nops: Ideal, len: nat)
    requires Genuine(nops)
    ensures AllNops(Fill(nops, len))
  {
    if len > 0 {
      var chunk := if len > ASM_NOP_MAX then ASM_NOP_MAX else len;
      FillIsNops(nops, len - chunk);
      AllNopsAppend(nops[chunk], Fill(nops, len - chunk));
    }
  }

  /** The chunks the padding is made of: all of eight bytes but the last. */
  function Chunks(len: nat): (cs: seq<nat>) {
    if len == 0 then [] else if len > ASM_NOP_MAX then [ASM_NOP_MAX] + Chunks(len - ASM_NOP_MAX) else [len]
  }

  function Join(nops: Ideal, chunks: seq<nat>): seq<byte>
    requires forall i | 0 <= i < |chunks| :: 1 <= chunks[i] <= 8
  {
    if chunks == [] then [] else
      nops[chunks[0]] + Join(nops, chunks[1..])
  }

  /** Padding uses the fewest table entries: one for every eight bytes begun. */
  lemma {:induction false} FillChunks(nops: Ideal, len: nat)
    ensures |Chunks(len)| == (len + 7) / 8
    ensures forall i | 0 <= i < |Chunks(len)| :: 1 <= Chunks(len)[i] <= 8
    ensures Fill(nops, len) == Join(nops, Chunks(len))
  {
    if len > ASM_NOP_MAX {
      FillChunks(nops, len - ASM_NOP_MAX);
      assert Chunks(len)[1..] == Chunks(len - ASM_NOP_MAX);
    } else if len > 0 {
      assert Chunks(len)[1..] == [];
      assert Join(nops, []) == [];
      assert Fill(nops, 0) == [];
    }
  }
}
