/**
 What every paravirtual call site holds after the pass, as the processor reads it: which of the native code,
 the NOPs, the identity function, the jump and the call it gets.
 */
module ParavirtSites {
  import opened Bytes
  import opened Nops
  import opened Sections
  import opened PatchSites
  import opened Paravirt

  /** Where the site's bytes are in the file. */
  function Offset(text: Section, p: Site): int {
    text.index + (p.instr - text.mem)
  }

  /** The byte offset of the operation in the structs of function pointers. */
  function Kind(p: Site): nat {
    8 * p.instrtype
  }

  /** The function the site's operation stands for; zero behind the structs. */
  function Operation(st: State, p: Site): int {
    if Kind(p) < |Flat(st.ops)| then Flat(st.ops)[Kind(p)] else 0
  }

  /** The structs in the order in which they lie in memory. */
  lemma FlatInOrder()
    ensures Flat(Ops([1], [2], [3], [4], [5], [6], [7])) == [1, 2, 3, 4, 5, 6, 7]
  {
  }

  /** A table of records that lie in the file and do not overlap. */
  ghost predicate Table(st: State, text: Section, size: nat, sites: seq<Site>) {
    SitesFit(size, PlaceAll(st, text, sites)) && PatchSites.SitesApart(PlaceAll(st, text, sites)) && Genuine(st.nops)
  }

  /** The bytes of a site before and after the pass. */
  ghost predicate Patched(st: State, text: Section, img: seq<byte>, sites: seq<Site>, p: Site, was: seq<byte>,
    now: seq<byte>)
    requires Table(st, text, |img|, sites)
  {
    var at := Offset(text, p);
    && p in sites && 0 <= at && at + p.len <= |img|
    && was == img[at..at + p.len]
    && now == PatchAll(st.nops, img, PlaceAll(st, text, sites))[at..at + p.len]
  }

  lemma {:induction false} PatchedIsImage(st: State, text: Section, img: seq<byte>, sites: seq<Site>, p: Site,
    was: seq<byte>, now: seq<byte>)
    requires Table(st, text, |img|, sites) && Patched(st, text, img, sites, p, was, now)
    ensures now == SiteImage(st.nops, Place(st, text, p), was)
  {
    var placed, s, at := PlaceAll(st, text, sites), Place(st, text, p), Offset(text, p);
    PlaceIn(st, text, sites, p);
    PlacedIsImage(st.nops, img, placed, s, at, was, now);
  }

  lemma {:induction false} PlaceIn(st: State, text: Section, sites: seq<Site>, p: Site)
    requires p in sites
    ensures Place(st, text, p) in PlaceAll(st, text, sites)
    ensures Place(st, text, p).off == Offset(text, p) && Place(st, text, p).len == p.len
  {
    var i :| 0 <= i < |sites| && sites[i] == p;
    PlaceAllAt(st, text, sites, i);
  }

  lemma {:induction false} PlacedIsImage(nops: Ideal, img: seq<byte>, placed: seq<Placed>, s: Placed, at: int,
    was: seq<byte>, now: seq<byte>)
    requires SitesFit(|img|, placed) && PatchSites.SitesApart(placed) && s in placed && at == s.off
    requires 0 <= at && at + s.len <= |img|
    requires was == img[at..at + s.len] && now == PatchAll(nops, img, placed)[at..at + s.len]
    ensures now == SiteImage(nops, s, was)
  {
    SiteAppliedAt(nops, img, placed, s, at + s.len, SiteImage(nops, s, was));
  }

  // ---- What a site can hold ---------------------------------------------------------

  /** Code at the start of the site and whole NOPs behind it. */
  predicate Holds(now: seq<byte>, code: seq<byte>) {
    |code| <= |now| && now[..|code|] == code && AllNops(now[|code|..])
  }

  /** A call or jump of five bytes that leads there, modulo 2^32, and whole NOPs behind it. */
  predicate Branches(now: seq<byte>, opcode: byte, at: int, target: int) {
    && 5 <= |now| && now[0] == opcode
    && (at + 5 + Int32(Load(now[1..5]))) % TWO_32 == target % TWO_32
    && AllNops(now[5..])
  }

  /** No native code is known for the operation. */
  predicate NotNative(st: State, p: Site) {
    forall j | 0 <= j < |st.native| :: st.native[j].0 != Kind(p)
  }

  predicate Ordinary(st: State, p: Site) {
    Operation(st, p) !in {0, st.nopFunc, st.ident32, st.ident64}
  }

  lemma NativeIs(st: State, p: Site)
    requires NotNative(st, p)
    ensures NativePatch(st, p.instrtype * 8, p.clobbers, p.instr, p.len)
         == PatchDefault(st, p.instrtype * 8, p.clobbers, p.instr, p.len)
  {
    FindNativeFirst(st.native, p.instrtype * 8);
  }

  lemma CodeIsHeld(st: State, p: Site, code: seq<byte>, s: Placed, was: seq<byte>)
    requires Genuine(st.nops) && |code| < 256 && |was| == s.len == p.len && s.patch == PatchInsns(code, p.len)
    ensures var now := SiteImage(st.nops, s, was); if |code| <= p.len then Holds(now, code) else now == was
  {
    SiteDecodes(st.nops, s, was);
    assert code[..|code|] == code;
    if s.patch == Keep(s.len) && |code| <= p.len {
      assert code == [] == was;
    }
  }

  /** An operation with native code gets the first that is listed for it, if it fits. */
  lemma NativeSite(st: State, text: Section, img: seq<byte>, sites: seq<Site>, p: Site, was: seq<byte>, now: seq<byte>,
    i: nat)
    requires Table(st, text, |img|, sites) && Patched(st, text, img, sites, p, was, now)
    requires i < |st.native| && st.native[i].0 == Kind(p) && forall j | 0 <= j < i :: st.native[j].0 != Kind(p)
    requires |st.native[i].1| < 256
    ensures if |st.native[i].1| <= p.len then Holds(now, st.native[i].1) else now == was
  {
    PatchedIsImage(st, text, img, sites, p, was, now);
    FindNativeFirst(st.native, p.instrtype * 8);
    CodeIsHeld(st, p, st.native[i].1, Place(st, text, p), was);
  }

  /** An operation without a function, or with the empty one, becomes NOPs. */
  lemma EmptySite(st: State, text: Section, img: seq<byte>, sites: seq<Site>, p: Site, was: seq<byte>, now: seq<byte>)
    requires Table(st, text, |img|, sites) && Patched(st, text, img, sites, p, was, now)
    requires NotNative(st, p) && (Operation(st, p) == 0 || Operation(st, p) == st.nopFunc)
    ensures AllNops(now)
  {
    PatchedIsImage(st, text, img, sites, p, was, now);
    NativeIs(st, p);
    DestinationIsFlat(st.ops, p.instrtype * 8);
    SiteDecodes(st.nops, Place(st, text, p), was);
    assert now[0..] == now;
  }

  /** An identity function becomes its move, if it fits. */
  lemma IdentitySite(st: State, text: Section, img: seq<byte>, sites: seq<Site>, p: Site, was: seq<byte>,
    now: seq<byte>)
    requires Table(st, text, |img|, sites) && Patched(st, text, img, sites, p, was, now) && NotNative(st, p)
    requires Operation(st, p) !in {0, st.nopFunc} && |st.mov32| < 256 && |st.mov64| < 256
    ensures Operation(st, p) == st.ident32 ==> if |st.mov32| <= p.len then Holds(now, st.mov32) else now == was
    ensures Operation(st, p) == st.ident64 != st.ident32 ==>
              if |st.mov64| <= p.len then Holds(now, st.mov64) else now == was
  {
    PatchedIsImage(st, text, img, sites, p, was, now);
    NativeIs(st, p);
    DestinationIsFlat(st.ops, p.instrtype * 8);
    if Operation(st, p) == st.ident32 {
      CodeIsHeld(st, p, st.mov32, Place(st, text, p), was);
    } else if Operation(st, p) == st.ident64 {
      CodeIsHeld(st, p, st.mov64, Place(st, text, p), was);
    }
  }

  lemma BranchIsHeld(st: State, p: Site, opcode: byte, target: int, s: Placed, was: seq<byte>)
    requires Genuine(st.nops) && |was| == s.len == p.len && s.patch == PatchBranch(opcode, target, p.instr, p.len)
    ensures var now := SiteImage(st.nops, s, was);
      if 5 <= p.len then Branches(now, opcode, p.instr, target) else now == was
  {
    SiteDecodes(st.nops, s, was);
    if 5 <= p.len {
      var now, code := SiteImage(st.nops, s, was), Branch(opcode, target, p.instr);
      BranchTarget(opcode, target, p.instr);
      assert now[..5] == code && now[0] == now[..5][0] && now[1..5] == now[..5][1..5];
    }
  }

  /** The operations that never return are jumped to. */
  lemma JumpSite(st: State, text: Section, img: seq<byte>, sites: seq<Site>, p: Site, was: seq<byte>, now: seq<byte>)
    requires Table(st, text, |img|, sites) && Patched(st, text, img, sites, p, was, now)
    requires NotNative(st, p) && Ordinary(st, p) && Kind(p) in st.jumps
    ensures if 5 <= p.len then Branches(now, 0xe9, p.instr, Operation(st, p)) else now == was
  {
    PatchedIsImage(st, text, img, sites, p, was, now);
    NativeIs(st, p);
    DestinationIsFlat(st.ops, p.instrtype * 8);
    BranchIsHeld(st, p, 0xe9, Operation(st, p), Place(st, text, p), was);
  }

  /** Any other function is called, exactly if the site may clobber all that it may and has room for the call. */
  lemma CallSite(st: State, text: Section, img: seq<byte>, sites: seq<Site>, p: Site, was: seq<byte>, now: seq<byte>)
    requires Table(st, text, |img|, sites) && Patched(st, text, img, sites, p, was, now)
    requires NotNative(st, p) && Ordinary(st, p) && Kind(p) !in st.jumps
    ensures if p.clobbers & 15 == 15 && 5 <= p.len
            then Branches(now, 0xe8, p.instr, Operation(st, p)) else now == was
  {
    PatchedIsImage(st, text, img, sites, p, was, now);
    NativeIs(st, p);
    DestinationIsFlat(st.ops, p.instrtype * 8);
    ClobbersAll(p.clobbers);
    if p.clobbers & 15 == 15 {
      BranchIsHeld(st, p, 0xe8, Operation(st, p), Place(st, text, p), was);
    } else {
      SiteDecodes(st.nops, Place(st, text, p), was);
    }
  }

  lemma ClobbersAll(c: bv16)
    ensures CLBR_ANY & !c == 0 <==> c & 15 == 15
  {
  }

  /** Bytes outside all sites stay. */
  lemma RestStays(st: State, text: Section, img: seq<byte>, sites: seq<Site>, k: nat)
    requires Table(st, text, |img|, sites) && k < |img|
    requires forall p | p in sites :: !(Offset(text, p) <= k < Offset(text, p) + p.len)
    ensures PatchAll(st.nops, img, PlaceAll(st, text, sites))[k] == img[k]
  {
    var placed := PlaceAll(st, text, sites);
    forall s | s in placed ensures !(s.off <= k < s.off + s.len) {
      var i :| 0 <= i < |placed| && placed[i] == s;
      PlaceAllAt(st, text, sites, i);
    }
    PatchAllFrame(st.nops, img, placed, k);
  }
}
