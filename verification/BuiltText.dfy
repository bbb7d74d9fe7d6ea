/**
 Every byte of the reference text, said of the file, the tables and the guest: labels, call sites and locks
 hold what the guest's state asks for, everything else is the file's. And which flips of a lock prefix the
 scan lets pass: those of the bytes that lock records name.
 */
module BuiltText {
  import opened Bytes
  import opened Nops
  import opened PageScan
  import opened KernelText
  import opened LegalPages
  import opened Integrity
  import opened Detection
  import SmpLocks
  import Patching

  /** The records of the table that the guest knows, up to the end of `.text`. */
  ghost predicate Visited(src: Source, g: Guest, e: JumpEntry, enabled: bool) {
    e in src.table && GuestEntry(e.code, enabled) in g.keys && e.code <= src.text.mem + src.text.size
  }

  /** A lock record names this byte of `.text`. */
  ghost predicate LockNamed(src: Source, k: int)
    requires WellFormed(src)
  {
    SmpLocks.Named(src.file, src.locks, src.text, src.locks.index, src.text.index + k)
  }

  /** An enabled label is the jump to its target if that is in reach, any other is whole NOPs. */
  lemma BuiltLabelMeans(src: Source, g: Guest, t: Table, e: JumpEntry, enabled: bool)
    requires Sound(src, g) && Visited(src, g, e, enabled)
    ensures var built, at := Build(src, g, IdealNops(t)).img, e.code - src.text.mem;
      && 0 <= at && at + 5 <= |built|
      && (enabled ==> (IsJumpTo(built[at..at + 5], e.code, e.target) <==> InRange(e)))
      && (!enabled ==> AllNops(built[at..at + 5]))
  {
    var l, at := Label(e, enabled), e.code - src.text.mem;
    LabelsIff(g.keys, src.table, src.text.mem + src.text.size, l);
    BuiltLabel(src, g, IdealNops(t), l);
    IdealNopsGenuine(t);
    SiteMeans(l, IdealNops(t), Build(src, g, IdealNops(t)).img[at..at + 5]);
  }

  /** Every recorded ftrace call site is whole NOPs in the finished text. */
  lemma BuiltCallSite(src: Source, g: Guest, t: Table, a: int)
    requires Sound(src, g) && CallSitesApart(src.mcount) && a in src.mcount
    ensures var built, at := Build(src, g, IdealNops(t)).img, a - src.text.mem;
      0 <= at && at + 5 <= |built| && AllNops(built[at..at + 5])
  {
    var nops, at := IdealNops(t), a - src.text.mem;
    IdealNopsGenuine(t);
    CallSiteFits(src, g, a);
    McountApplied(Assembled(src, g), src.mcount, src.text.mem, nops, a);
    forall k: nat | at <= k < at + 5 ensures Build(src, g, nops).img[k] == TextOf(src, g, nops)[k] {
      assert !InSite(SitesOf(src, g), k);
      OutsideLabels(src, g, nops, k);
    }
    assert Build(src, g, nops).img[at..at + 5] == TextOf(src, g, nops)[at..at + 5];
  }

  lemma CallSiteFits(src: Source, g: Guest, a: int)
    requires WellFormed(src) && a in src.mcount
    ensures CallSitesFit(|Assembled(src, g)|, src.mcount, src.text.mem)
    ensures 0 <= a - src.text.mem && a - src.text.mem + 5 <= |Assembled(src, g)|
  {
  }

  /** A byte of `.text` that a lock record names is the prefix for the guest's CPUs. */
  lemma BuiltLockByte(src: Source, g: Guest, t: Table, o: nat)
    requires Sound(src, g) && o < src.text.size && LockNamed(src, o)
    ensures Build(src, g, IdealNops(t)).img[o] == if g.featureUp then 0xf0 else 0x3e
  {
    LockOffsetIff(src, g, o);
    BuiltLock(src, g, IdealNops(t), o);
  }

  ghost predicate Untouched(src: Source, g: Guest, k: nat)
    requires WellFormed(src)
  {
    && (forall e, enabled | Visited(src, g, e, enabled) :: !(e.code <= src.text.mem + k < e.code + 5))
    && (forall a | a in src.mcount :: !(a <= src.text.mem + k < a + 5))
    && (k < src.text.size ==> !LockNamed(src, k))
  }

  /** Everything else is as the file has it. */
  lemma BuiltRest(src: Source, g: Guest, t: Table, k: nat)
    requires Sound(src, g) && k < src.text.size + |src.rest| && Untouched(src, g, k)
    ensures Build(src, g, IdealNops(t)).img[k]
         == if k < src.text.size then src.file[src.text.index + k] else src.rest[k - src.text.size]
  {
    var nops := IdealNops(t);
    NoLabelAround(src, g, k);
    OutsideLabels(src, g, nops, k);
    OutsideCallSites(src, g, nops, k);
    LockOffsetIff(src, g, k);
  }

  lemma NoLabelAround(src: Source, g: Guest, k: nat)
    requires WellFormed(src) && Untouched(src, g, k)
    ensures !InSite(SitesOf(src, g), k)
  {
    forall l | l in LabelsIn(src, g) ensures !(l.entry.code - src.text.mem <= k < l.entry.code - src.text.mem + 5) {
      LabelsIff(g.keys, src.table, src.text.mem + src.text.size, l);
      assert Visited(src, g, l.entry, l.enabled);
    }
  }

  lemma {:induction false} OutsideCallSites(src: Source, g: Guest, nops: Ideal, k: nat)
    requires WellFormed(src) && k < src.text.size + |src.rest|
    requires forall a | a in src.mcount :: !(a <= src.text.mem + k < a + 5)
    ensures TextOf(src, g, nops)[k] == Assembled(src, g)[k]
  {
    var ws := Mcount(src, nops);
    forall w | w in ws ensures !Patching.Covers(w, k) {
      var a := LocationOfWrite(src.mcount, src.text.mem, nops, w);
    }
    Patching.PutAllFrame(Assembled(src, g), ws, k);
  }

  // ---- Lock prefixes that flip ------------------------------------------------------

  /** Guest memory is the built text but for one byte of the page. */
  ghost predicate ChangedAt(built: seq<byte>, mem: seq<byte>, at: nat) {
    |mem| == |built| && at < |mem| && forall k | 0 <= k < |mem| :: built[k] != mem[k] <==> k == at
  }

  /** The byte at `i` of the page is one lock prefix instead of the other. */
  ghost predicate Flipped(src: Source, g: Guest, t: Table, mem: seq<byte>, offset: nat, size: nat, i: nat) {
    && WellFormed(src) && Consistent(src, g) && 0 <= src.text.mem && src.text.mem + |mem| <= TWO_64
    && i < size && offset + size <= |mem| == src.text.size + |src.rest| && size < 0x8000_0000 - 6
    && ChangedAt(Build(src, g, IdealNops(t)).img, mem, offset + i)
    && {Build(src, g, IdealNops(t)).img[offset + i], mem[offset + i]} == {0x3e, 0xf0}
  }

  /** A lock record names the byte, it lies in the ignored page, or the call rule takes it for an operand. */
  ghost predicate FlipPasses(src: Source, g: Guest, built: seq<byte>, offset: nat, owner: Owner, i: nat)
    requires WellFormed(src)
  {
    || LockNamed(src, offset + i)
    || (src.text.mem + offset + i) / 0x1000 == IGNORED_PAGE
    || CallRule(built, src.text.mem + offset, owner, i)
  }

  /**
   Let memory be the text as built, but for one byte that is one lock prefix instead of the other. The scan
   lets that pass exactly at bytes that lock records name, in the ignored page, and at the operand of a call
   that the call rule takes for one of its routine; everywhere else it reports this byte.
   */
  lemma {:induction false} LoneFlipIff(src: Source, g: Guest, t: Table, mem: seq<byte>, offset: nat, size: nat,
    owner: Owner, i: nat)
    requires Flipped(src, g, t, mem, offset, size, i)
    ensures Scan(Compared(src, g, t, mem, offset, size, owner))
         == if FlipPasses(src, g, Build(src, g, IdealNops(t)).img[offset..offset + size], offset, owner, i)
            then Intact else Changed(i)
  {
    var built, p := Build(src, g, IdealNops(t)), Compared(src, g, t, mem, offset, size, owner);
    BuiltRecords(src, g, t);
    FlippedPage(src, g, t, mem, offset, size, owner, i, built, p);
    PassesIff(src, g, p, offset, owner, i);
    LoneFlipOnPage(p, t, i);
  }

  lemma {:induction false} PassesIff(src: Source, g: Guest, p: Page, offset: nat, owner: Owner, i: nat)
    requires WellFormed(src) && 0 <= src.text.mem && p.owner == owner && p.smpOffsets == LockPass(src, g).smpOffsets
    requires p.pageOffset == offset && p.base == src.text.mem + offset
    ensures FlipPasses(src, g, p.loaded, offset, owner, i) <==>
      || p.pageOffset + i in p.smpOffsets
      || (p.base + i) / 0x1000 == IGNORED_PAGE
      || CallRule(p.loaded, p.base, p.owner, i)
  {
    RecordedIff(src, g, offset + i);
  }

  lemma {:induction false} FlippedPage(src: Source, g: Guest, t: Table, mem: seq<byte>, offset: nat, size: nat,
    owner: Owner, i: nat, built: Text, p: Page)
    requires Flipped(src, g, t, mem, offset, size, i) && built == Build(src, g, IdealNops(t))
    requires p == Compared(src, g, t, mem, offset, size, owner)
    ensures p.loaded == built.img[offset..offset + size] && Valid(p) && Lone(p, i)
    ensures {p.loaded[i], p.inMem[i]} == {0x3e, 0xf0} && p.base + |p.loaded| <= TWO_64
    ensures p.nops == IdealNops(t) && p.jumpEntries == built.jumpEntries && p.owner == owner
    ensures p.initialised == |mem| - offset
    ensures p.smpOffsets == LockPass(src, g).smpOffsets && p.pageOffset == offset && p.base == src.text.mem + offset
  {
  }

  lemma {:induction false} LoneFlipOnPage(p: Page, t: Table, i: nat)
    requires Valid(p) && p.nops == IdealNops(t) && Recorded32(p) && Lone(p, i) && p.base + |p.loaded| <= TWO_64
    requires {p.loaded[i], p.inMem[i]} == {0x3e, 0xf0} && i < p.initialised
    ensures Scan(p) ==
      if || p.pageOffset + i in p.smpOffsets
         || (p.base + i) / 0x1000 == IGNORED_PAGE
         || CallRule(p.loaded, p.base, p.owner, i)
      then Intact else Changed(i)
  {
    LoneChangeIff(p, t, i);
    FlipIsNoSite(p, t, i);
    assert (p.base + i) % TWO_64 == p.base + i;
  }

  lemma FlipIsNoSite(p: Page, t: Table, i: nat)
    requires Valid(p) && p.nops == IdealNops(t) && i < |p.loaded| && {p.loaded[i], p.inMem[i]} == {0x3e, 0xf0}
    ensures !LabelHolds(p, i) && !(Reads(p.loaded, i - 2, p.nops[5]) && Reads(p.inMem, i - 2, p.nops[9]))
  {
    NopBytes(t);
    if i + 5 <= |p.inMem| {
      assert p.inMem[i..i + 5][0] == p.inMem[i];
    }
    if i >= 2 && i + 3 <= |p.loaded| {
      assert p.loaded[i - 2..i + 3][2] == p.loaded[i];
    }
  }

  lemma RecordedIff(src: Source, g: Guest, k: nat)
    requires WellFormed(src)
    ensures k in LockPass(src, g).smpOffsets <==> LockNamed(src, k)
  {
    SmpLocks.LocksApplied(SmpLocks.Locks(src.file, {}), src.locks, src.text, src.locks.index,
      SmpLocks.LockPrefix(g.featureUp), true, src.text.index + k);
  }

  /** The recorded displacements are 32 signed bits. */
  lemma BuiltRecords(src: Source, g: Guest, t: Table)
    requires WellFormed(src) && Consistent(src, g)
    ensures var m := Build(src, g, IdealNops(t)).jumpEntries;
      forall c | c in m :: -0x8000_0000 <= m[c] < 0x8000_0000
  {
    var start, m := Text(TextOf(src, g, IdealNops(t)), map[], {}), Build(src, g, IdealNops(t)).jumpEntries;
    forall c | c in m ensures -0x8000_0000 <= m[c] < 0x8000_0000 {
      SiteRecorded(start, g.keys, src.table, src.text.mem, src.text.size, IdealNops(t), c);
      var l :| l in LabelsIn(src, g) && l.entry.code == c;
    }
  }
}
