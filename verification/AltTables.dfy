/**
 What the alternatives pass does, said of the entries of the table and of the features of the guest's CPUs: the
 instructions whose feature is there are replaced, all others stay.
 */
module AltTables {
  import opened Bytes
  import opened Patching
  import opened Nops
  import opened Sections
  import opened Alternatives

  /** An entry by its meaning: places in the file, a feature of the CPU, two lengths. */
  datatype Entry = Entry(instr: int, replacement: int, feature: nat, instrLen: byte, replacementLen: byte)

  /** In the kernel image the pointer to the instruction is ahead by the place of the text in the file. */
  function Ahead(env: Env): int {
    if env.isKernel then env.text.index else 0
  }

  /** An entry at place `a`: two self-relative pointers of four bytes, the feature in two, the lengths. */
  function Printed(env: Env, e: Entry, a: int): (r: seq<byte>)
    ensures |r| == 12
  {
    Store(e.instr + Ahead(env) - a, 4) + Store(e.replacement - (a + 4), 4) + Store(e.feature, 2)
    + [e.instrLen, e.replacementLen]
  }

  function EntryPlace(env: Env, k: nat): int {
    env.table.index + 12 * k
  }

  /** The table in the file is that of these entries. */
  ghost predicate HoldsTable(env: Env, img: seq<byte>, es: seq<Entry>) {
    && env.table.size == 12 * |es| && 0 <= env.table.index && env.table.index + env.table.size <= |img|
    && forall k | 0 <= k < |es| ::
         img[EntryPlace(env, k)..EntryPlace(env, k) + 12] == Printed(env, es[k], EntryPlace(env, k))
  }

  predicate Fits32(x: int) {
    -0x8000_0000 <= x < 0x8000_0000
  }

  /** The entry can be printed at `a`, and its ranges lie in the file. */
  predicate Sensible(env: Env, size: nat, e: Entry, a: int) {
    && Fits32(e.instr + Ahead(env) - a) && Fits32(e.replacement - (a + 4)) && e.feature < 0x1_0000
    && 0 <= e.instr && e.instr + e.instrLen <= size
    && 0 <= e.replacement && e.replacement + e.replacementLen <= size
    && e.replacementLen <= e.instrLen <= 254
  }

  predicate IsOn(env: Env, e: Entry) {
    e.feature in env.features
  }

  predicate RangesApart(a: int, m: int, b: int, n: int) {
    a + m <= b || b + n <= a
  }

  /**
   A file with such a table: the instructions to be replaced overlap neither each other nor the table nor
   the replacements.
   */
  ghost predicate Replaceable(env: Env, img: seq<byte>, es: seq<Entry>) {
    && HoldsTable(env, img, es)
    && (forall k | 0 <= k < |es| :: Sensible(env, |img|, es[k], EntryPlace(env, k)))
    && (forall e, f {:trigger RangesApart(e.instr, e.instrLen, f.instr, f.instrLen)} |
          e in es && f in es && IsOn(env, e) && IsOn(env, f) ::
         e == f || RangesApart(e.instr, e.instrLen, f.instr, f.instrLen))
    && (forall e | e in es && IsOn(env, e) :: RangesApart(e.instr, e.instrLen, env.table.index, env.table.size))
    && (forall e, f {:trigger RangesApart(e.instr, e.instrLen, f.replacement, f.replacementLen)} |
          e in es && f in es && IsOn(env, e) && IsOn(env, f) ::
         RangesApart(e.instr, e.instrLen, f.replacement, f.replacementLen))
  }

  // ---- Reading what is printed ------------------------------------------------------

  lemma PrintedFields(env: Env, e: Entry, a: int, r: seq<byte>)
    requires r == Printed(env, e, a)
    ensures r[0..4] == Store(e.instr + Ahead(env) - a, 4) && r[4..8] == Store(e.replacement - (a + 4), 4)
    ensures r[8..10] == Store(e.feature, 2) && r[10] == e.instrLen && r[11] == e.replacementLen
  {
  }

  lemma FieldInFile(img: seq<byte>, a: int, r: seq<byte>, from: nat, to: nat, at: int, end: int)
    requires 0 <= a && a + 12 <= |img| && r == img[a..a + 12] && from <= to <= 12 && at == a + from && end == a + to
    ensures img[at..end] == r[from..to]
  {
    forall i | 0 <= i < to - from ensures img[at..end][i] == r[from..to][i] {
      assert r[from + i] == img[a + (from + i)];
    }
  }

  lemma LoadTwo(x: nat)
    requires x < 0x1_0000
    ensures Load(Store(x, 2)) == x
  {
    Widths();
    LoadStore(x, 2);
  }

  /** Every field is read back. */
  lemma EntryIsRead(env: Env, img: seq<byte>, es: seq<Entry>, k: nat)
    requires Replaceable(env, img, es) && k < |es|
    ensures var a := EntryPlace(env, k);
      && EntryInFile(img, a) && CpuId(img, a) == es[k].feature
      && Instr(env, img, a) == es[k].instr && Replacement(img, a) == es[k].replacement
      && InstrLen(img, a) == es[k].instrLen && ReplacementLen(img, a) == es[k].replacementLen
  {
    var a, e := EntryPlace(env, k), es[k];
    var r := img[a..a + 12];
    PrintedFields(env, e, a, r);
    FieldInFile(img, a, r, 0, 4, a, a + 4);
    FieldInFile(img, a, r, 4, 8, a + 4, a + 8);
    FieldInFile(img, a, r, 8, 10, a + 8, a + 10);
    LoadStore32(e.instr + Ahead(env) - a);
    LoadStore32(e.replacement - (a + 4));
    LoadTwo(e.feature);
  }

  lemma OnIsEnabled(env: Env, img: seq<byte>, es: seq<Entry>, k: nat)
    requires Replaceable(env, img, es) && k < |es|
    ensures EntryInBounds(env, img, EntryPlace(env, k))
    ensures Enabled(env, img, EntryPlace(env, k)) <==> IsOn(env, es[k])
  {
    EntryIsRead(env, img, es, k);
  }

  lemma {:induction false} TableInBounds(env: Env, img: seq<byte>, es: seq<Entry>, k: nat)
    requires Replaceable(env, img, es) && k <= |es|
    ensures AllInBounds(env, img, EntryPlace(env, k))
    decreases |es| - k
  {
    if k < |es| {
      OnIsEnabled(env, img, es, k);
      TableInBounds(env, img, es, k + 1);
    }
  }

  /** The write of an entry that is on. */
  function OnWrite(env: Env, img: seq<byte>, e: Entry): Write
    requires 0 <= e.replacement && e.replacement + e.replacementLen <= |img| && e.replacementLen <= e.instrLen
  {
    Write(e.instr, Moved(env, img[e.replacement..e.replacement + e.replacementLen], e.replacement, e.instr)
      + Fill(env.nops, e.instrLen - e.replacementLen))
  }

  lemma OnWriteIs(env: Env, img: seq<byte>, es: seq<Entry>, k: nat)
    requires Replaceable(env, img, es) && k < |es| && IsOn(env, es[k])
    ensures EntryInBounds(env, img, EntryPlace(env, k)) && Enabled(env, img, EntryPlace(env, k))
    ensures Sensible(env, |img|, es[k], EntryPlace(env, k))
    ensures AltWrite(env, img, EntryPlace(env, k)) == OnWrite(env, img, es[k])
  {
    EntryIsRead(env, img, es, k);
    OnIsEnabled(env, img, es, k);
  }

  /** What the pass writes comes from an entry that is on. */
  lemma {:induction false} WriteHasEntry(env: Env, img: seq<byte>, es: seq<Entry>, k: nat, w: Write) returns (j: nat)
    requires Replaceable(env, img, es) && k <= |es| && AllInBounds(env, img, EntryPlace(env, k))
    requires w in AltWrites(env, img, EntryPlace(env, k))
    ensures j < |es| && IsOn(env, es[j]) && Sensible(env, |img|, es[j], EntryPlace(env, j))
    ensures w == OnWrite(env, img, es[j])
    decreases |es| - k
  {
    var a := EntryPlace(env, k);
    OnIsEnabled(env, img, es, k);
    if IsOn(env, es[k]) && w == AltWrite(env, img, a) {
      OnWriteIs(env, img, es, k);
      j := k;
    } else {
      j := WriteHasEntry(env, img, es, k + 1, w);
    }
  }

  lemma {:induction false} EntryHasWrite(env: Env, img: seq<byte>, es: seq<Entry>, k: nat, j: nat)
    requires Replaceable(env, img, es) && k <= j < |es| && AllInBounds(env, img, EntryPlace(env, k))
    requires IsOn(env, es[j]) && Sensible(env, |img|, es[j], EntryPlace(env, j))
    ensures OnWrite(env, img, es[j]) in AltWrites(env, img, EntryPlace(env, k))
    decreases |es| - k
  {
    OnIsEnabled(env, img, es, k);
    if k == j {
      OnWriteIs(env, img, es, k);
    } else {
      EntryHasWrite(env, img, es, k + 1, j);
    }
  }

  /** A byte the pass reads lies in the table or in the replacement of an entry that is on. */
  lemma {:induction false} SourceHasEntry(env: Env, img: seq<byte>, es: seq<Entry>, k: nat, b: int)
    requires Replaceable(env, img, es) && k <= |es| && AllInBounds(env, img, EntryPlace(env, k))
    requires IsSource(env, img, EntryPlace(env, k), b)
    ensures || env.table.index <= b < env.table.index + env.table.size
            || exists j :: 0 <= j < |es| && IsOn(env, es[j])
                           && es[j].replacement <= b < es[j].replacement + es[j].replacementLen
    decreases |es| - k
  {
    var a := EntryPlace(env, k);
    OnIsEnabled(env, img, es, k);
    EntryIsRead(env, img, es, k);
    if !(a <= b < a + 12)
      && !(IsOn(env, es[k]) && es[k].replacement <= b < es[k].replacement + es[k].replacementLen)
    {
      SourceHasEntry(env, img, es, k + 1, b);
    }
  }

  lemma SourcesStay(env: Env, img: seq<byte>, es: seq<Entry>)
    requires Replaceable(env, img, es) && AllInBounds(env, img, EntryPlace(env, 0))
    ensures SourcesUntouched(env, img, EntryPlace(env, 0))
  {
    forall w, b | w in AltWrites(env, img, EntryPlace(env, 0)) && Covers(w, b)
      ensures !IsSource(env, img, EntryPlace(env, 0), b)
    {
      var i := WriteHasEntry(env, img, es, 0, w);
      if IsSource(env, img, EntryPlace(env, 0), b) {
        SourceHasEntry(env, img, es, 0, b);
        EntryIsNoSource(env, img, es, i, b);
      }
    }
  }

  lemma EntryIsNoSource(env: Env, img: seq<byte>, es: seq<Entry>, i: nat, b: int)
    requires Replaceable(env, img, es) && i < |es| && IsOn(env, es[i])
    requires es[i].instr <= b < es[i].instr + es[i].instrLen
    ensures !(env.table.index <= b < env.table.index + env.table.size)
    ensures forall j | 0 <= j < |es| && IsOn(env, es[j]) ::
              !(es[j].replacement <= b < es[j].replacement + es[j].replacementLen)
  {
    forall j | 0 <= j < |es| && IsOn(env, es[j])
      ensures !(es[j].replacement <= b < es[j].replacement + es[j].replacementLen)
    {
      assert RangesApart(es[i].instr, es[i].instrLen, es[j].replacement, es[j].replacementLen);
    }
  }

  lemma WritesAreCoherent(env: Env, img: seq<byte>, es: seq<Entry>)
    requires Replaceable(env, img, es) && AllInBounds(env, img, EntryPlace(env, 0))
    ensures Coherent(AltWrites(env, img, EntryPlace(env, 0)))
  {
    var ws := AltWrites(env, img, EntryPlace(env, 0));
    forall v, w | v in ws && w in ws ensures v == w || Disjoint(v, w) {
      var i := WriteHasEntry(env, img, es, 0, v);
      var j := WriteHasEntry(env, img, es, 0, w);
      assert es[i] == es[j] || RangesApart(es[i].instr, es[i].instrLen, es[j].instr, es[j].instrLen);
    }
  }

  // ---- What the pass leaves ----------------------------------------------------------

  lemma PassRuns(env: Env, img: seq<byte>, es: seq<Entry>)
    requires Replaceable(env, img, es)
    ensures EntryPlace(env, 0) == env.table.index && AllInBounds(env, img, env.table.index)
    ensures SourcesUntouched(env, img, env.table.index) && Coherent(AltWrites(env, img, env.table.index))
    ensures Runs(env, img, env.table.index)
  {
    TableInBounds(env, img, es, 0);
    SourcesStay(env, img, es);
    WritesAreCoherent(env, img, es);
    AltsAreWrites(env, img, img, env.table.index);
  }

  lemma {:induction false} OnWriteHolds(env: Env, img: seq<byte>, es: seq<Entry>, k: nat, e: Entry, w: Write, end: int)
    requires Replaceable(env, img, es) && k < |es| && e == es[k] && IsOn(env, e)
    requires Sensible(env, |img|, e, EntryPlace(env, k)) && w == OnWrite(env, img, e) && end == e.instr + e.instrLen
    ensures Runs(env, img, env.table.index)
    ensures 0 <= w.off && w.off <= end <= |img| && AltFrom(env, img, env.table.index)[w.off..end] == w.data
  {
    PassRuns(env, img, es);
    EntryHasWrite(env, img, es, 0, k);
    AltsAreWrites(env, img, img, env.table.index);
    AltWritesFit(env, img, env.table.index);
    PutAllHolds(img, AltWrites(env, img, env.table.index), w.off, end, w.data);
  }

  /** `now` holds the moved replacement of `e`, taken from `img`, and then whole NOPs. */
  predicate IsReplaced(env: Env, img: seq<byte>, now: seq<byte>, e: Entry) {
    && 0 <= e.instr && e.instr + e.instrLen <= |now| && e.replacementLen <= e.instrLen
    && 0 <= e.replacement && e.replacement + e.replacementLen <= |img|
    && now[e.instr..e.instr + e.instrLen][..e.replacementLen]
         == Moved(env, img[e.replacement..e.replacement + e.replacementLen], e.replacement, e.instr)
    && AllNops(now[e.instr..e.instr + e.instrLen][e.replacementLen..])
  }

  lemma HoldsPadded(env: Env, img: seq<byte>, now: seq<byte>, e: Entry)
    requires 0 <= e.replacement && e.replacement + e.replacementLen <= |img| && e.replacementLen <= e.instrLen
    requires 0 <= e.instr && e.instr + e.instrLen <= |now| && Genuine(env.nops)
    requires now[e.instr..e.instr + e.instrLen] == OnWrite(env, img, e).data
    ensures IsReplaced(env, img, now, e)
  {
    var code := Moved(env, img[e.replacement..e.replacement + e.replacementLen], e.replacement, e.instr);
    PaddedParts(env.nops, code, e.instrLen - e.replacementLen, OnWrite(env, img, e).data, e.replacementLen);
  }

  /** An instruction whose feature the guest has is replaced. */
  lemma {:induction false} OnIsReplaced(env: Env, img: seq<byte>, es: seq<Entry>, e: Entry)
    requires Replaceable(env, img, es) && Genuine(env.nops) && e in es && e.feature in env.features
    ensures Runs(env, img, env.table.index)
    ensures IsReplaced(env, img, AltFrom(env, img, env.table.index), e)
  {
    var k :| 0 <= k < |es| && es[k] == e;
    assert Sensible(env, |img|, es[k], EntryPlace(env, k));
    OnWriteHolds(env, img, es, k, e, OnWrite(env, img, e), e.instr + e.instrLen);
    HoldsPadded(env, img, AltFrom(env, img, env.table.index), e);
  }

  /** Code that is no 5-byte call is moved as it is. */
  lemma PlainIsKept(env: Env, code: seq<byte>, replacement: int, instr: int)
    requires !(|code| == 5 && code[0] == 0xe8)
    ensures Moved(env, code, replacement, instr) == code
  {
  }

  /** A 5-byte call is one at its new place, and leads where it led if its section has the skew that is corrected. */
  lemma CallStaysCall(env: Env, code: seq<byte>, replacement: int, instr: int, holder: Section)
    requires |code| == 5 && code[0] == 0xe8 && holder.index <= replacement < holder.index + holder.size
    ensures var now := Moved(env, code, replacement, instr);
      var at, was := env.text.mem + (instr - env.text.index), holder.mem + (replacement - holder.index);
      var corrected := if env.replacements.index <= replacement < env.replacements.index + env.replacements.size
        then (env.replacements.index - env.text.index) - (env.replacements.mem - env.text.mem) else 0;
      && |now| == 5 && now[0] == 0xe8
      && ((at + 5 + Int32(Load(now[1..5]))) % TWO_32 == (was + 5 + Int32(Load(code[1..5]))) % TWO_32 <==>
          ((holder.index - env.text.index) - (holder.mem - env.text.mem) - corrected) % TWO_32 == 0)
  {
    MovedCallIff(env, code, replacement, instr, holder);
  }

  /** A byte that belongs to no instruction whose feature the guest has stays. */
  lemma {:induction false} OffStays(env: Env, img: seq<byte>, es: seq<Entry>, k: nat)
    requires Replaceable(env, img, es) && k < |img|
    requires forall e | e in es && e.feature in env.features :: !(e.instr <= k < e.instr + e.instrLen)
    ensures Runs(env, img, env.table.index) && AltFrom(env, img, env.table.index)[k] == img[k]
  {
    PassRuns(env, img, es);
    forall w | w in AltWrites(env, img, env.table.index) ensures !Covers(w, k) {
      var j := WriteHasEntry(env, img, es, 0, w);
      assert es[j] in es;
    }
    AltFrame(env, img, k);
  }
}
