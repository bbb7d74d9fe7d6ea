/**
 No false alarm: a page whose reference was built under one state of the static keys and of
 the SMP locks is accepted when guest memory is in any other legal state. This joins the
 passes that build the reference text with the scan that compares it.
 */
module Integrity {
  import opened Bytes
  import opened Patching
  import opened Nops
  import opened PageScan
  import opened LegalPages
  import opened KernelText
  import SmpLocks
  import opened Sections

  // ---- A page of a whole text -------------------------------------------------------

  /** Where the labels and the locks of a text are. */
  datatype Sites = Sites(base: int, labels: seq<Label>, locks: set<int>)

  function At(sites: Sites, l: Label): int {
    l.entry.code - sites.base
  }

  ghost predicate InSite(sites: Sites, k: int) {
    exists l :: l in sites.labels && At(sites, l) <= k < At(sites, l) + 5
  }

  /** No lock lies inside a label. */
  ghost predicate LocksOutside(sites: Sites) {
    forall l, o | l in sites.labels && o in sites.locks :: o < At(sites, l) || At(sites, l) + 5 <= o
  }

  /** `mem` is the text `built` in any legal state: labels and locks in one of their forms, the rest as built. */
  ghost predicate LegalMemory(sites: Sites, nops: Ideal, built: seq<byte>, mem: seq<byte>) {
    && |mem| == |built|
    && (forall l | l in sites.labels :: HasForm(nops, Displacement(l.entry), mem, At(sites, l)))
    && (forall o | o in sites.locks && 0 <= o < |mem| :: LockForm(mem[o]))
    && (forall k | 0 <= k < |mem| && !InSite(sites, k) && k !in sites.locks :: mem[k] == built[k])
  }

  ghost predicate HasForm(nops: Ideal, d: int, mem: seq<byte>, at: int) {
    0 <= at && at + 5 <= |mem| && LabelForm(nops, d, mem[at..at + 5])
  }

  ghost predicate LabelBuilt(sites: Sites, nops: Ideal, built: Text, l: Label) {
    && 0 <= At(sites, l) && At(sites, l) + 5 <= |built.img|
    && BuiltForm(nops, Displacement(l.entry), built.img[At(sites, l)..At(sites, l) + 5])
    && l.entry.code in built.jumpEntries && built.jumpEntries[l.entry.code] == Displacement(l.entry)
  }

  /** What the loader promises about the text it built. */
  ghost predicate WellBuilt(sites: Sites, nops: Ideal, built: Text) {
    && (forall l | l in sites.labels :: LabelBuilt(sites, nops, built, l))
    && (forall o | o in sites.locks :: 0 <= o < |built.img| && LockForm(built.img[o]))
  }

  /** No label straddles the page's borders. */
  ghost predicate WholeSites(sites: Sites, offset: nat, size: nat) {
    forall l | l in sites.labels ::
      || At(sites, l) + 5 <= offset
      || offset + size <= At(sites, l)
      || (offset <= At(sites, l) && At(sites, l) + 5 <= offset + size)
  }

  /** The page of `size` bytes at `offset`, as `validateCodePage` meets it. */
  function PageOf(base: nat, nops: Ideal, built: Text, smpOffsets: set<int>, mem: seq<byte>,
    offset: nat, size: nat, owner: Owner): Page
    requires |mem| == |built.img| && offset + size <= |mem|
  {
    Page(built.img[offset..offset + size], mem[offset..offset + size], base + offset, offset,
      |mem| - offset, owner, nops, built.jumpEntries, smpOffsets)
  }

  ghost predicate LabelInPage(sites: Sites, offset: nat, s: nat) {
    exists l :: l in sites.labels && At(sites, l) == offset + s
  }

  predicate LockInPage(sites: Sites, offset: nat, o: nat) {
    offset + o in sites.locks
  }

  /** The labels and locks of one page, by their offsets in it. */
  ghost function PageLabels(sites: Sites, offset: nat, size: nat): set<nat> {
    set s: nat | s < size && LabelInPage(sites, offset, s)
  }

  ghost function PageLocks(sites: Sites, offset: nat, size: nat): set<nat> {
    set o: nat | o < size && LockInPage(sites, offset, o)
  }

  lemma LabelIsLegal(sites: Sites, nops: Ideal, built: Text, smpOffsets: set<int>, mem: seq<byte>,
    offset: nat, size: nat, owner: Owner, s: nat)
    requires WellBuilt(sites, nops, built) && LegalMemory(sites, nops, built.img, mem)
    requires 0 <= sites.base && sites.base + |mem| <= TWO_64
    requires offset + size <= |mem| && size < 0x8000_0000 - 6 && s < size
    requires WholeSites(sites, offset, size) && LabelInPage(sites, offset, s)
    ensures LegalLabel(PageOf(sites.base, nops, built, smpOffsets, mem, offset, size, owner), s)
  {
    var p := PageOf(sites.base, nops, built, smpOffsets, mem, offset, size, owner);
    var l := LabelOf(sites, nops, built, mem, offset, size, s);
    var d, at := Displacement(l.entry), offset + s;
    BuiltInPage(nops, d, built.img, p.loaded, offset, size, at, s);
    FormInPage(nops, d, mem, p.inMem, offset, size, at, s);
    FormsAreLegal(p, s, l.entry.code, d);
  }

  /** The label at an offset of the page, what it is in text and memory, and that it ends in the page. */
  lemma LabelOf(sites: Sites, nops: Ideal, built: Text, mem: seq<byte>, offset: nat, size: nat, s: nat)
    returns (l: Label)
    requires WellBuilt(sites, nops, built) && LegalMemory(sites, nops, built.img, mem)
    requires WholeSites(sites, offset, size) && LabelInPage(sites, offset, s) && s < size
    ensures At(sites, l) == offset + s && s + 5 <= size
    ensures HasForm(nops, Displacement(l.entry), mem, offset + s) && LabelBuilt(sites, nops, built, l)
  {
    l :| l in sites.labels && At(sites, l) == offset + s;
    assert HasForm(nops, Displacement(l.entry), mem, At(sites, l)) && LabelBuilt(sites, nops, built, l);
  }

  lemma FormsAreLegal(p: Page, s: nat, code: int, d: int)
    requires Valid(p) && s + 5 <= |p.loaded| && code == p.base + s && code + 5 <= TWO_64
    requires code in p.jumpEntries && p.jumpEntries[code] == d && -0x8000_0000 <= d < 0x8000_0000
    requires BuiltForm(p.nops, d, p.loaded[s..s + 5]) && LabelForm(p.nops, d, p.inMem[s..s + 5])
    ensures LegalLabel(p, s)
  {
    assert Address(p, s) == code;
  }

  lemma SliceOfSlice(img: seq<byte>, page: seq<byte>, offset: nat, size: nat, at: int, s: nat)
    requires offset + size <= |img| && s + 5 <= size && at == offset + s && page == img[offset..offset + size]
    ensures page[s..s + 5] == img[at..at + 5]
  {
    assert page[s..s + 5] == img[at..offset + size][..5];
  }

  lemma BuiltInPage(nops: Ideal, d: int, img: seq<byte>, page: seq<byte>, offset: nat, size: nat, at: int, s: nat)
    requires offset + size <= |img| && s + 5 <= size && at == offset + s && page == img[offset..offset + size]
    requires BuiltForm(nops, d, img[at..at + 5])
    ensures BuiltForm(nops, d, page[s..s + 5])
  {
    SliceOfSlice(img, page, offset, size, at, s);
  }

  lemma FormInPage(nops: Ideal, d: int, img: seq<byte>, page: seq<byte>, offset: nat, size: nat, at: int, s: nat)
    requires offset + size <= |img| && s + 5 <= size && at == offset + s && page == img[offset..offset + size]
    requires LabelForm(nops, d, img[at..at + 5])
    ensures LabelForm(nops, d, page[s..s + 5])
  {
    SliceOfSlice(img, page, offset, size, at, s);
  }

  lemma DifferenceInSite(sites: Sites, nops: Ideal, built: Text, mem: seq<byte>, offset: nat, size: nat, k: nat)
    requires LegalMemory(sites, nops, built.img, mem)
    requires offset + size <= |mem| && k < size && mem[offset + k] != built.img[offset + k]
    requires WholeSites(sites, offset, size) && !LockInPage(sites, offset, k)
    ensures exists s: nat :: s < size && LabelInPage(sites, offset, s) && s <= k < s + 5
  {
    assert InSite(sites, offset + k);
    var l :| l in sites.labels && At(sites, l) <= offset + k < At(sites, l) + 5;
    assert LabelInPage(sites, offset, At(sites, l) - offset);
  }

  lemma DifferenceInPage(sites: Sites, nops: Ideal, built: Text, mem: seq<byte>, offset: nat, size: nat, k: nat)
    requires LegalMemory(sites, nops, built.img, mem)
    requires offset + size <= |mem| && k < size && mem[offset + k] != built.img[offset + k]
    requires WholeSites(sites, offset, size)
    ensures k in PageLocks(sites, offset, size)
         || exists s :: s in PageLabels(sites, offset, size) && s <= k < s + 5
  {
    if !LockInPage(sites, offset, k) {
      DifferenceInSite(sites, nops, built, mem, offset, size, k);
      var s: nat :| s < size && LabelInPage(sites, offset, s) && s <= k < s + 5;
      assert s in PageLabels(sites, offset, size);
    }
  }

  /** What makes a page of built text and memory comparable. */
  ghost predicate Comparable(sites: Sites, nops: Ideal, built: Text, smpOffsets: set<int>, mem: seq<byte>,
    offset: nat, size: nat)
  {
    && LabelsApart(sites) && LocksOutside(sites) && sites.locks <= smpOffsets
    && WellBuilt(sites, nops, built) && LegalMemory(sites, nops, built.img, mem)
    && 0 <= sites.base && sites.base + |mem| <= TWO_64
    && offset + size <= |mem| && size < 0x8000_0000 - 6
    && WholeSites(sites, offset, size)
  }

  lemma {:induction false} LabelsAreLegal(sites: Sites, nops: Ideal, built: Text, smpOffsets: set<int>, mem: seq<byte>,
    offset: nat, size: nat, owner: Owner, p: Page)
    requires Comparable(sites, nops, built, smpOffsets, mem, offset, size)
    requires p == PageOf(sites.base, nops, built, smpOffsets, mem, offset, size, owner)
    ensures forall s | s in PageLabels(sites, offset, size) :: LegalLabel(p, s)
  {
    forall s | s in PageLabels(sites, offset, size) ensures LegalLabel(p, s) {
      LabelIsLegal(sites, nops, built, smpOffsets, mem, offset, size, owner, s);
    }
  }

  lemma {:induction false} LocksAreLegal(sites: Sites, nops: Ideal, built: Text, smpOffsets: set<int>, mem: seq<byte>,
    offset: nat, size: nat, owner: Owner, p: Page)
    requires Comparable(sites, nops, built, smpOffsets, mem, offset, size)
    requires p == PageOf(sites.base, nops, built, smpOffsets, mem, offset, size, owner)
    ensures forall o | o in PageLocks(sites, offset, size) :: LegalLock(p, o)
  {
  }

  lemma {:induction false} DifferencesInSites(sites: Sites, nops: Ideal, built: Text, smpOffsets: set<int>,
    mem: seq<byte>, offset: nat, size: nat, owner: Owner, p: Page)
    requires Comparable(sites, nops, built, smpOffsets, mem, offset, size)
    requires p == PageOf(sites.base, nops, built, smpOffsets, mem, offset, size, owner)
    ensures forall k: nat | k < |p.loaded| && Differs(p, k) :: k in PageLocks(sites, offset, size)
              || exists s :: s in PageLabels(sites, offset, size) && s <= k < s + 5
  {
    forall k: nat | k < |p.loaded| && Differs(p, k) ensures k in PageLocks(sites, offset, size)
      || exists s :: s in PageLabels(sites, offset, size) && s <= k < s + 5
    {
      DifferenceInPage(sites, nops, built, mem, offset, size, k);
    }
  }

  /** The compared page is a legal page. */
  lemma {:induction false} PageIsLegal(sites: Sites, nops: Ideal, built: Text, smpOffsets: set<int>, mem: seq<byte>,
    offset: nat, size: nat, owner: Owner)
    requires Comparable(sites, nops, built, smpOffsets, mem, offset, size)
    ensures Legal(PageOf(sites.base, nops, built, smpOffsets, mem, offset, size, owner),
              PageLabels(sites, offset, size), PageLocks(sites, offset, size))
  {
    var p := PageOf(sites.base, nops, built, smpOffsets, mem, offset, size, owner);
    LabelsAreLegal(sites, nops, built, smpOffsets, mem, offset, size, owner, p);
    LocksAreLegal(sites, nops, built, smpOffsets, mem, offset, size, owner, p);
    DifferencesInSites(sites, nops, built, smpOffsets, mem, offset, size, owner, p);
    PageGeometry(sites, offset, size);
  }

  /** What is asked of one page of the reference; guest memory has no part in it. */
  ghost predicate SpacedPage(sites: Sites, t: Table, built: seq<byte>, offset: nat, size: nat, owner: Owner)
    requires offset + size <= |built|
  {
    var labels, locks, base := PageLabels(sites, offset, size), PageLocks(sites, offset, size), sites.base + offset;
    Spaced(t, base, labels, locks, Calls(built[offset..offset + size], base, owner, locks))
  }

  lemma SpacedPageIs(sites: Sites, t: Table, built: Text, smpOffsets: set<int>, mem: seq<byte>,
    offset: nat, size: nat, owner: Owner)
    requires 0 <= sites.base && |mem| == |built.img| && offset + size <= |mem|
    ensures var p := PageOf(sites.base, IdealNops(t), built, smpOffsets, mem, offset, size, owner);
      SpacedPage(sites, t, built.img, offset, size, owner) <==>
      SpacedAsBuilt(p, t, PageLabels(sites, offset, size), PageLocks(sites, offset, size))
  {
  }

  lemma IntactPage(sites: Sites, t: Table, built: Text, smpOffsets: set<int>, mem: seq<byte>,
    offset: nat, size: nat, owner: Owner)
    requires LabelsApart(sites) && LocksOutside(sites) && sites.locks <= smpOffsets
    requires WellBuilt(sites, IdealNops(t), built) && LegalMemory(sites, IdealNops(t), built.img, mem)
    requires 0 <= sites.base && sites.base + |mem| <= TWO_64
    requires offset + size <= |mem| && size < 0x8000_0000 - 6 && WholeSites(sites, offset, size)
    ensures var p := PageOf(sites.base, IdealNops(t), built, smpOffsets, mem, offset, size, owner);
      SpacedAsBuilt(p, t, PageLabels(sites, offset, size), PageLocks(sites, offset, size)) ==> Scan(p) == Intact
  {
    PageIsLegal(sites, IdealNops(t), built, smpOffsets, mem, offset, size, owner);
    IntactIfSpaced(PageOf(sites.base, IdealNops(t), built, smpOffsets, mem, offset, size, owner), t,
      PageLabels(sites, offset, size), PageLocks(sites, offset, size));
  }

  lemma IntactIfSpaced(p: Page, t: Table, labels: set<nat>, locks: set<nat>)
    requires Valid(p) && p.nops == IdealNops(t)
    ensures Legal(p, labels, locks) && SpacedAsBuilt(p, t, labels, locks) ==> Scan(p) == Intact
  {
    if Legal(p, labels, locks) && SpacedAsBuilt(p, t, labels, locks) {
      LegalPageIntact(p, t, labels, locks);
    }
  }

  ghost predicate LabelsApart(sites: Sites) {
    forall k, l | k in sites.labels && l in sites.labels && k.entry.code < l.entry.code ::
      k.entry.code + 5 <= l.entry.code
  }

  lemma PageGeometry(sites: Sites, offset: nat, size: nat)
    requires LabelsApart(sites) && LocksOutside(sites) && WholeSites(sites, offset, size)
    ensures Geometry(PageLabels(sites, offset, size), PageLocks(sites, offset, size), size)
  {
    var labels, locks := PageLabels(sites, offset, size), PageLocks(sites, offset, size);
    forall s | s in labels ensures s + 5 <= size {
      var l :| l in sites.labels && At(sites, l) == offset + s;
    }
    forall a, b | a in labels && b in labels && a < b ensures a + 5 <= b {
      var k :| k in sites.labels && At(sites, k) == offset + a;
      var l :| l in sites.labels && At(sites, l) == offset + b;
      assert k.entry.code < l.entry.code;
    }
    forall s, o | s in labels && o in locks ensures o < s || s + 5 <= o {
      var l :| l in sites.labels && At(sites, l) == offset + s;
      assert offset + o in sites.locks;
    }
  }

  // ---- The build ----------------------------------------------------------------------

  /** The state of the guest that decides which legal form each site has. */
  datatype Guest = Guest(keys: seq<GuestEntry>, featureUp: bool)

  /**
   What the loader is given: the mapped file, its sections, the sections after `.text`, the ftrace call
   sites, the jump table.
   */
  datatype Source = Source(
    file: seq<byte>,
    text: Section,
    locks: Section,
    rest: seq<byte>,
    mcount: seq<int>,
    table: seq<JumpEntry>)

  predicate WellFormed(src: Source) {
    && 0 <= src.text.index && src.text.index + src.text.size < |src.file|
    && 0 <= src.locks.index && src.locks.index + src.locks.size + 3 <= |src.file|
    && SmpLocks.Apart(src.locks, src.text)
    && forall a | a in src.mcount :: 0 <= a - src.text.mem && a - src.text.mem + 5 <= src.text.size + |src.rest|
  }

  function LockPass(src: Source, g: Guest): (r: SmpLocks.Locks)
    requires WellFormed(src)
    ensures |r.img| == |src.file|
  {
    SmpLocks.LocksFrom(SmpLocks.Locks(src.file, {}), src.locks, src.text, src.locks.index,
      SmpLocks.LockPrefix(g.featureUp), true)
  }

  /** The text segment content as it is put together: patched `.text`, then the other sections. */
  function Assembled(src: Source, g: Guest): (r: seq<byte>)
    requires WellFormed(src)
    ensures |r| == src.text.size + |src.rest|
  {
    LockPass(src, g).img[src.text.index..src.text.index + src.text.size] + src.rest
  }

  function Mcount(src: Source, nops: Ideal): seq<Write> {
    McountWrites(src.mcount, src.text.mem, nops)
  }

  /** The text segment content before the jump labels: with its ftrace call sites as NOPs. */
  function TextOf(src: Source, g: Guest, nops: Ideal): (r: seq<byte>)
    requires WellFormed(src)
    ensures |r| == src.text.size + |src.rest|
  {
    PutAll(Assembled(src, g), Mcount(src, nops))
  }

  function LabelsIn(src: Source, g: Guest): seq<Label> {
    Labels(g.keys, src.table, src.text.mem + src.text.size)
  }

  /** The reference text with the maps the validator consults. */
  function Build(src: Source, g: Guest, nops: Ideal): (r: Text)
    requires WellFormed(src)
    ensures |r.img| == src.text.size + |src.rest|
  {
    VisitAll(Text(TextOf(src, g, nops), map[], {}), LabelsIn(src, g), src.text.mem, nops, true)
  }

  /** The labels the loader visits and the locks it finds in `.text` itself. */
  function SitesOf(src: Source, g: Guest): Sites
    requires WellFormed(src)
  {
    Sites(src.text.mem, LabelsIn(src, g), set o | o in LockPass(src, g).smpOffsets && 0 <= o < src.text.size)
  }

  /** No ftrace call site touches a label or a lock. */
  ghost predicate McountApart(src: Source, sites: Sites) {
    forall a | a in src.mcount ::
      && (forall l | l in sites.labels :: a + 5 <= l.entry.code || l.entry.code + 5 <= a)
      && (forall o | o in sites.locks :: o < a - src.text.mem || a - src.text.mem + 5 <= o)
  }

  /** The tables have no duplicate or overlapping records, and every visited label fits the text. */
  ghost predicate Consistent(src: Source, g: Guest) {
    && SitesApart(src.table) && DistinctCodes(g.keys)
    && forall l | l in LabelsIn(src, g) ::
         0 <= l.entry.code - src.text.mem && l.entry.code - src.text.mem + 5 <= src.text.size + |src.rest|
  }

  lemma WritesFit(src: Source, g: Guest, nops: Ideal)
    requires WellFormed(src) && Consistent(src, g)
    ensures AllFit(src.text.size + |src.rest|, LabelWrites(LabelsIn(src, g), src.text.mem, nops))
  {
    var ls := LabelsIn(src, g);
    var ws := LabelWrites(ls, src.text.mem, nops);
    forall w | w in ws ensures Fits(src.text.size + |src.rest|, w) {
      var l := LabelOfWrite(ls, src.text.mem, nops, w);
    }
  }

  lemma {:induction false} BuiltLabel(src: Source, g: Guest, nops: Ideal, l: Label)
    requires WellFormed(src) && Consistent(src, g) && l in LabelsIn(src, g)
    ensures var built, at := Build(src, g, nops), l.entry.code - src.text.mem;
      && built.img[at..at + 5] == SiteBytes(l, nops)
      && l.entry.code in built.jumpEntries && built.jumpEntries[l.entry.code] == Displacement(l.entry)
  {
    var start := Text(TextOf(src, g, nops), map[], {});
    WritesFit(src, g, nops);
    var ls, at := LabelsIn(src, g), l.entry.code - src.text.mem;
    LabelsCoherent(g.keys, src.table, src.text.mem + src.text.size, src.text.mem, nops);
    SiteFits(|start.img|, ls, src.text.mem, nops, l);
    SiteHolds(start, ls, src.text.mem, nops, true, l, at, SiteBytes(l, nops));
    StartRecorded(start, src, g, nops, l);
  }

  lemma {:induction false} StartRecorded(start: Text, src: Source, g: Guest, nops: Ideal, l: Label)
    requires SitesApart(src.table) && start.jumpEntries == map[] && l in LabelsIn(src, g)
    ensures var m := VisitAll(start, LabelsIn(src, g), src.text.mem, nops, true).jumpEntries;
      l.entry.code in m && m[l.entry.code] == Displacement(l.entry)
  {
    SiteRecorded(start, g.keys, src.table, src.text.mem, src.text.size, nops, l.entry.code);
  }

  lemma SiteBytesForm(l: Label, nops: Ideal)
    ensures BuiltForm(nops, Displacement(l.entry), SiteBytes(l, nops))
  {
    assert Fill(nops, 5) == nops[5] + Fill(nops, 0) == nops[5];
  }

  lemma LockOffsetIff(src: Source, g: Guest, o: int)
    requires WellFormed(src)
    ensures o in SitesOf(src, g).locks <==>
      (0 <= o < src.text.size && SmpLocks.Named(src.file, src.locks, src.text, src.locks.index, src.text.index + o))
    ensures 0 <= o < src.text.size ==> (Assembled(src, g)[o] ==
      if o in SitesOf(src, g).locks then SmpLocks.LockPrefix(g.featureUp) else src.file[src.text.index + o])
  {
    SmpLocks.LocksApplied(SmpLocks.Locks(src.file, {}), src.locks, src.text, src.locks.index,
      SmpLocks.LockPrefix(g.featureUp), true, src.text.index + o);
  }

  /** Away from labels the build is the text the passes before left. */
  lemma {:induction false} OutsideLabels(src: Source, g: Guest, nops: Ideal, k: nat)
    requires WellFormed(src) && k < src.text.size + |src.rest| && !InSite(SitesOf(src, g), k)
    ensures Build(src, g, nops).img[k] == TextOf(src, g, nops)[k]
  {
    var sites := SitesOf(src, g);
    forall l | l in LabelsIn(src, g) ensures !(l.entry.code - src.text.mem <= k < l.entry.code - src.text.mem + 5) {
      assert l in sites.labels && !(At(sites, l) <= k < At(sites, l) + 5);
    }
    var text := Text(TextOf(src, g, nops), map[], {});
    JumpLabelsFrame(text, g.keys, src.table, src.text.mem, src.text.size, nops, true, k);
  }

  lemma {:induction false} OutsideMcount(src: Source, g: Guest, nops: Ideal, sites: Sites, o: nat)
    requires WellFormed(src) && McountApart(src, sites) && o in sites.locks && o < src.text.size + |src.rest|
    ensures TextOf(src, g, nops)[o] == Assembled(src, g)[o]
  {
    var ws := Mcount(src, nops);
    forall w | w in ws ensures !Covers(w, o) {
      var a := LocationOfWrite(src.mcount, src.text.mem, nops, w);
    }
    PutAllFrame(Assembled(src, g), ws, o);
  }

  lemma BuiltLock(src: Source, g: Guest, nops: Ideal, o: int)
    requires WellFormed(src) && LocksOutside(SitesOf(src, g)) && McountApart(src, SitesOf(src, g))
    requires o in SitesOf(src, g).locks
    ensures 0 <= o < src.text.size && Build(src, g, nops).img[o] == SmpLocks.LockPrefix(g.featureUp)
  {
    LockOffsetIff(src, g, o);
    OutsideLabels(src, g, nops, o);
    OutsideMcount(src, g, nops, SitesOf(src, g), o);
  }

  /** What the theorems ask of the source and of the sites the guest knows. */
  ghost predicate Sound(src: Source, g: Guest) {
    WellFormed(src) && Consistent(src, g) && LocksOutside(SitesOf(src, g)) && McountApart(src, SitesOf(src, g))
  }

  lemma BuildIsWellBuilt(src: Source, g: Guest, nops: Ideal)
    requires Sound(src, g)
    ensures WellBuilt(SitesOf(src, g), nops, Build(src, g, nops))
  {
    forall l | l in SitesOf(src, g).labels ensures LabelBuilt(SitesOf(src, g), nops, Build(src, g, nops), l) {
      BuiltLabel(src, g, nops, l);
      SiteBytesForm(l, nops);
    }
    forall o | o in SitesOf(src, g).locks
      ensures 0 <= o < |Build(src, g, nops).img| && LockForm(Build(src, g, nops).img[o])
    {
      BuiltLock(src, g, nops, o);
    }
  }

  lemma SitesAreApart(src: Source, g: Guest)
    requires Sound(src, g)
    ensures LabelsApart(SitesOf(src, g))
  {
    var ls := LabelsIn(src, g);
    forall k, l | k in ls && l in ls && k.entry.code < l.entry.code ensures k.entry.code + 5 <= l.entry.code {
      LabelsIff(g.keys, src.table, src.text.mem + src.text.size, k);
      LabelsIff(g.keys, src.table, src.text.mem + src.text.size, l);
      assert k.entry == l.entry || FiveApart(k.entry.code, l.entry.code);
    }
  }

  /** The page as built under one guest state, compared with memory in another legal state. */
  function Compared(src: Source, g: Guest, t: Table, mem: seq<byte>, offset: nat, size: nat, owner: Owner): Page
    requires WellFormed(src) && 0 <= src.text.mem
    requires |mem| == src.text.size + |src.rest| && offset + size <= |mem|
  {
    var nops := IdealNops(t);
    PageOf(src.text.mem, nops, Build(src, g, nops), LockPass(src, g).smpOffsets, mem, offset, size, owner)
  }

  /**
   No false alarm. Build the reference under the guest state `g`; let guest memory hold the text in any
   other legal state. If no label straddles the page's borders and the page's sites are spaced, given where
   the call rule fires on the built bytes, `validateCodePage` reports nothing.
   */
  lemma NoFalseAlarm(src: Source, g: Guest, t: Table, mem: seq<byte>, offset: nat, size: nat, owner: Owner)
    requires Sound(src, g) && LegalMemory(SitesOf(src, g), IdealNops(t), Build(src, g, IdealNops(t)).img, mem)
    requires 0 <= src.text.mem && src.text.mem + |mem| <= TWO_64
    requires offset + size <= |mem| && size < 0x8000_0000 - 6 && WholeSites(SitesOf(src, g), offset, size)
    requires SpacedPage(SitesOf(src, g), t, Build(src, g, IdealNops(t)).img, offset, size, owner)
    ensures Scan(Compared(src, g, t, mem, offset, size, owner)) == Intact
  {
    var sites, built := SitesOf(src, g), Build(src, g, IdealNops(t));
    BuildIsWellBuilt(src, g, IdealNops(t));
    SitesAreApart(src, g);
    SpacedPageIs(sites, t, built, LockPass(src, g).smpOffsets, mem, offset, size, owner);
    IntactPage(sites, t, built, LockPass(src, g).smpOffsets, mem, offset, size, owner);
  }

  predicate Knows(g: Guest, c: int) {
    GuestEntry(c, true) in g.keys || GuestEntry(c, false) in g.keys
  }

  /** In particular the text as built under any other guest state is legal memory. */
  lemma OtherBuildIsLegal(src: Source, g: Guest, h: Guest, nops: Ideal)
    requires Sound(src, g) && DistinctCodes(h.keys) && forall c :: Knows(g, c) <==> Knows(h, c)
    ensures LegalMemory(SitesOf(src, g), nops, Build(src, g, nops).img, Build(src, h, nops).img)
  {
    var mem, built, sites := Build(src, h, nops).img, Build(src, g, nops).img, SitesOf(src, g);
    OtherSound(src, g, h);
    forall l | l in sites.labels ensures HasForm(nops, Displacement(l.entry), mem, At(sites, l)) {
      OtherForm(src, g, h, nops, l);
    }
    forall o | o in sites.locks ensures 0 <= o < |mem| && LockForm(mem[o]) {
      SameLocks(src, g, h, o);
      BuiltLock(src, h, nops, o);
    }
    forall k | 0 <= k < |mem| && !InSite(sites, k) && k !in sites.locks ensures mem[k] == built[k] {
      OtherRest(src, g, h, nops, k);
    }
  }

  lemma OtherForm(src: Source, g: Guest, h: Guest, nops: Ideal, l: Label)
    requires Sound(src, h) && (forall c :: Knows(g, c) <==> Knows(h, c)) && l in LabelsIn(src, g)
    ensures 0 <= l.entry.code - src.text.mem
    ensures HasForm(nops, Displacement(l.entry), Build(src, h, nops).img, l.entry.code - src.text.mem)
  {
    var k := OtherLabel(src, g, h, l);
    BuiltLabel(src, h, nops, k);
    SiteBytesForm(k, nops);
  }

  lemma SameLocks(src: Source, g: Guest, h: Guest, o: int)
    requires WellFormed(src)
    ensures o in SitesOf(src, g).locks <==> o in SitesOf(src, h).locks
  {
    LockOffsetIff(src, g, o);
    LockOffsetIff(src, h, o);
  }

  /** Bytes that are neither label nor lock are built alike. */
  lemma OtherRest(src: Source, g: Guest, h: Guest, nops: Ideal, k: nat)
    requires WellFormed(src) && forall c :: Knows(g, c) <==> Knows(h, c)
    requires k < src.text.size + |src.rest| && !InSite(SitesOf(src, g), k) && k !in SitesOf(src, g).locks
    ensures Build(src, g, nops).img[k] == Build(src, h, nops).img[k]
  {
    SameSites(src, g, h, k);
    OutsideLabels(src, g, nops, k);
    OutsideLabels(src, h, nops, k);
    LockOffsetIff(src, g, k);
    LockOffsetIff(src, h, k);
    PutAllAgrees(Assembled(src, g), Assembled(src, h), Mcount(src, nops), k);
  }

  lemma OtherLabel(src: Source, g: Guest, h: Guest, l: Label) returns (k: Label)
    requires (forall c :: Knows(g, c) <==> Knows(h, c)) && l in LabelsIn(src, g)
    ensures k in LabelsIn(src, h) && k.entry == l.entry
  {
    LabelsIff(g.keys, src.table, src.text.mem + src.text.size, l);
    assert Knows(g, l.entry.code);
    k := Label(l.entry, GuestEntry(l.entry.code, true) in h.keys);
    LabelsIff(h.keys, src.table, src.text.mem + src.text.size, k);
  }

  lemma SameSites(src: Source, g: Guest, h: Guest, k: int)
    requires WellFormed(src) && forall c :: Knows(g, c) <==> Knows(h, c)
    ensures InSite(SitesOf(src, g), k) <==> InSite(SitesOf(src, h), k)
  {
    var a, b := SitesOf(src, g), SitesOf(src, h);
    if l :| l in a.labels && At(a, l) <= k < At(a, l) + 5 {
      var m := OtherLabel(src, g, h, l);
      assert At(b, m) == At(a, l);
    }
    if l :| l in b.labels && At(b, l) <= k < At(b, l) + 5 {
      var m := OtherLabel(src, h, g, l);
      assert At(a, m) == At(b, l);
    }
  }

  lemma OtherSound(src: Source, g: Guest, h: Guest)
    requires Sound(src, g) && DistinctCodes(h.keys) && forall c :: Knows(g, c) <==> Knows(h, c)
    ensures Sound(src, h)
  {
    var a, b := SitesOf(src, g), SitesOf(src, h);
    forall l | l in b.labels ensures exists k :: k in a.labels && k.entry == l.entry {
      var k := OtherLabel(src, h, g, l);
    }
    forall o ensures o in a.locks <==> o in b.locks {
      SameLocks(src, g, h, o);
    }
    forall l, o | l in b.labels && o in b.locks ensures o < At(b, l) || At(b, l) + 5 <= o {
      var k := OtherLabel(src, h, g, l);
      assert At(a, k) == At(b, l);
    }
  }

  /**
   What the validator accepts at a label that the loader recorded: one of the two NOPs, or a jump that
   the processor would take to the recorded target, and nothing else.
   */
  lemma ValidJmpLabelIff(p: Page, t: Text, guest: seq<GuestEntry>, table: seq<JumpEntry>, base: int, size: nat,
    l: Label, i: nat)
    requires Valid(p) && i + 5 <= |p.inMem| && SitesApart(table) && t.jumpEntries == map[]
    requires l in Labels(guest, table, base + size) && InRange(l.entry)
    requires p.jumpEntries == VisitAll(t, Labels(guest, table, base + size), base, p.nops, true).jumpEntries
    ensures var s := p.inMem[i..i + 5];
      ValidJmpLabel(p, l.entry.code, i) <==>
        s == p.nops[5] || s == p.nops[9] || IsJumpTo(s, l.entry.code, l.entry.target)
  {
    SiteRecorded(t, guest, table, base, size, p.nops, l.entry.code);
    assert p.jumpEntries[l.entry.code] == Displacement(l.entry);
    assert p.inMem[i..i + 5][1..5] == p.inMem[i + 1..i + 5];
    JumpAccepted(p, l.entry, i);
  }

  lemma JumpAccepted(p: Page, e: JumpEntry, i: nat)
    requires Valid(p) && i + 5 <= |p.inMem| && InRange(e)
    requires e.code in p.jumpEntries && p.jumpEntries[e.code] == Displacement(e)
    requires p.inMem[i..i + 5][1..5] == p.inMem[i + 1..i + 5]
    ensures var s := p.inMem[i..i + 5];
      ValidJmpLabel(p, e.code, i) <==> s == p.nops[5] || s == p.nops[9] || IsJumpTo(s, e.code, e.target)
  {
  }
}
