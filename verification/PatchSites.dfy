/**
 A table of call sites, each with what is to be put there: code at the start of the site, how
 many bytes count as used, whole NOPs behind them. When the order and repetition of the table
 do not matter, and what every site holds in the end.
 */
module PatchSites {
  import opened Bytes
  import opened Patching
  import opened Nops

  /** What a patch leaves: code at the start of the buffer, and how many bytes count as used. */
  datatype Patch = Patch(code: seq<byte>, used: nat)

  /** Nothing written; the whole site counts as used, so the original instructions stay. */
  function Keep(len: nat): Patch { Patch([], len) }

  predicate FitsSite(p: Patch, len: nat) {
    p.used <= len && (p.used == |p.code| || p == Keep(len))
  }

  datatype PlacedSite = Placed(off: int, len: nat, patch: Patch)

  type Placed = s: PlacedSite | FitsSite(s.patch, s.len) witness Placed(0, 0, Keep(0))

  /** The bytes of a site after patching and padding, given the bytes it had. */
  function SiteImage(nops: Ideal, s: Placed, original: seq<byte>): (r: seq<byte>)
    requires |original| == s.len
    ensures |r| == s.len
  {
    s.patch.code + original[|s.patch.code|..s.patch.used] + Fill(nops, s.len - s.patch.used)
  }

  /** A patched site is its code followed by whole NOPs; a site kept is unchanged. */
  lemma SiteDecodes(nops: Ideal, s: Placed, original: seq<byte>)
    requires |original| == s.len && Genuine(nops)
    ensures var r, used := SiteImage(nops, s, original), s.patch.used;
      if s.patch == Keep(s.len) then r == original
      else used == |s.patch.code| && r[..used] == s.patch.code && AllNops(r[used..])
  {
    FillIsNops(nops, s.len - s.patch.used);
    if s.patch == Keep(s.len) {
      assert Fill(nops, 0) == [];
    } else {
      assert SiteImage(nops, s, original)[s.patch.used..] == Fill(nops, s.len - s.patch.used);
    }
  }

  /** Patching a patched site changes nothing. */
  lemma SiteTwice(nops: Ideal, s: Placed, original: seq<byte>)
    requires |original| == s.len
    ensures SiteImage(nops, s, SiteImage(nops, s, original)) == SiteImage(nops, s, original)
  {}

  /** The buffer a site is prepared in: original bytes, code over them, padding behind. */
  lemma BufferHolds(nops: Ideal, buf: seq<byte>, copied: seq<byte>, patched: seq<byte>, padded: seq<byte>,
    original: seq<byte>, s: Placed)
    requires |original| == s.len <= |buf|
    requires copied == Put(buf, Write(0, original)) && patched == Put(copied, Write(0, s.patch.code))
    requires padded == Put(patched, Write(s.patch.used, Fill(nops, s.len - s.patch.used)))
    ensures padded[..s.len] == SiteImage(nops, s, original)
  {
    var r, pad := SiteImage(nops, s, original), Fill(nops, s.len - s.patch.used);
    forall k | 0 <= k < |original| ensures padded[k] == r[k] {
      PutAt(buf, Write(0, original), k);
      PutAt(copied, Write(0, s.patch.code), k);
      PutAt(patched, Write(s.patch.used, pad), k);
    }
  }

  predicate SiteFits(size: nat, s: Placed) {
    0 <= s.off && s.off + s.len <= size
  }

  ghost predicate SitesFit(size: nat, sites: seq<Placed>) {
    forall i | 0 <= i < |sites| :: SiteFits(size, sites[i])
  }

  function SiteWrite(nops: Ideal, img: seq<byte>, s: Placed): (w: Write)
    requires SiteFits(|img|, s)
    ensures w.off == s.off && |w.data| == s.len
  {
    Write(s.off, SiteImage(nops, s, img[s.off..s.off + s.len]))
  }

  function PatchOne(nops: Ideal, img: seq<byte>, s: Placed): (r: seq<byte>)
    requires SiteFits(|img|, s)
    ensures |r| == |img|
  {
    Put(img, SiteWrite(nops, img, s))
  }

  /** The image after the sites of the table, first to last, each patched as it is found. */
  function PatchAll(nops: Ideal, img: seq<byte>, sites: seq<Placed>): (r: seq<byte>)
    requires SitesFit(|img|, sites)
    ensures |r| == |img|
  {
    if sites == [] then img
    else PatchOne(nops, PatchAll(nops, img, sites[..|sites| - 1]), sites[|sites| - 1])
  }

  lemma PatchAllSnoc(nops: Ideal, img: seq<byte>, sites: seq<Placed>, n: nat)
    requires SitesFit(|img|, sites) && n < |sites|
    ensures PatchAll(nops, img, sites[..n + 1]) == PatchOne(nops, PatchAll(nops, img, sites[..n]), sites[n])
  {
    assert sites[..n + 1][..n] == sites[..n];
  }

  predicate Apart(r: Placed, s: Placed) {
    r.off + r.len <= s.off || s.off + s.len <= r.off
  }

  /** Two records of the table are the same record or describe disjoint ranges. */
  ghost predicate SitesApart(sites: seq<Placed>) {
    forall r, s {:trigger Apart(r, s)} | r in sites && s in sites :: r == s || Apart(r, s)
  }

  function SiteWrites(nops: Ideal, img: seq<byte>, sites: seq<Placed>): (ws: seq<Write>)
    requires SitesFit(|img|, sites)
    ensures |ws| == |sites|
  {
    if sites == [] then []
    else SiteWrites(nops, img, sites[..|sites| - 1]) + [SiteWrite(nops, img, sites[|sites| - 1])]
  }

  lemma {:induction false} SiteWritesAt(nops: Ideal, img: seq<byte>, sites: seq<Placed>, i: nat)
    requires SitesFit(|img|, sites) && i < |sites|
    ensures SiteWrites(nops, img, sites)[i] == SiteWrite(nops, img, sites[i])
  {
    if i < |sites| - 1 {
      SiteWritesAt(nops, img, sites[..|sites| - 1], i);
    }
  }

  lemma SiteOfWrite(nops: Ideal, img: seq<byte>, sites: seq<Placed>, w: Write) returns (s: Placed)
    requires SitesFit(|img|, sites) && w in SiteWrites(nops, img, sites)
    ensures s in sites && SiteFits(|img|, s) && w == SiteWrite(nops, img, s)
  {
    var i :| 0 <= i < |sites| && w == SiteWrites(nops, img, sites)[i];
    SiteWritesAt(nops, img, sites, i);
    s := sites[i];
  }

  lemma SiteWriteIn(nops: Ideal, img: seq<byte>, sites: seq<Placed>, s: Placed)
    requires SitesFit(|img|, sites) && s in sites
    ensures SiteFits(|img|, s) && SiteWrite(nops, img, s) in SiteWrites(nops, img, sites)
  {
    var i :| 0 <= i < |sites| && s == sites[i];
    SiteWritesAt(nops, img, sites, i);
  }

  lemma SitesCoherent(nops: Ideal, img: seq<byte>, sites: seq<Placed>)
    requires SitesFit(|img|, sites) && SitesApart(sites)
    ensures Coherent(SiteWrites(nops, img, sites)) && AllFit(|img|, SiteWrites(nops, img, sites))
  {
    var ws := SiteWrites(nops, img, sites);
    forall v, w | v in ws && w in ws ensures v == w || Disjoint(v, w) {
      var r := SiteOfWrite(nops, img, sites, v);
      var s := SiteOfWrite(nops, img, sites, w);
      assert r == s || Apart(r, s);
    }
    forall w | w in ws ensures Fits(|img|, w) {
      var s := SiteOfWrite(nops, img, sites, w);
    }
  }

  /** Over disjoint sites the loop writes what each site asks for in the unpatched file. */
  lemma {:induction false} PatchAllIsWrites(nops: Ideal, img: seq<byte>, sites: seq<Placed>)
    requires SitesFit(|img|, sites) && SitesApart(sites)
    ensures PatchAll(nops, img, sites) == PutAll(img, SiteWrites(nops, img, sites))
  {
    if sites != [] {
      var front, last := sites[..|sites| - 1], sites[|sites| - 1];
      assert last in sites && forall s | s in front :: s in sites;
      PatchAllIsWrites(nops, img, front);
      SiteSeenLater(nops, img, front, last);
    }
  }

  /** What a later record finds at its site: the original bytes, or its own image. */
  lemma {:induction false} SiteSeenLater(nops: Ideal, img: seq<byte>, front: seq<Placed>, last: Placed)
    requires SitesFit(|img|, front) && SiteFits(|img|, last) && SitesApart(front)
    requires forall s | s in front :: s == last || Apart(s, last)
    ensures SiteWrite(nops, PutAll(img, SiteWrites(nops, img, front)), last) == SiteWrite(nops, img, last)
  {
    var patched := PutAll(img, SiteWrites(nops, img, front));
    if last in front {
      var end := last.off + last.len;
      SiteFoundPatched(nops, img, front, last, end, SiteImage(nops, last, img[last.off..end]));
    } else {
      SiteFoundOriginal(nops, img, front, last, patched);
    }
    SameOrPatched(nops, img, patched, last);
  }

  lemma {:induction false} SiteFoundPatched(nops: Ideal, img: seq<byte>, front: seq<Placed>, s: Placed, end: int,
    data: seq<byte>)
    requires SitesFit(|img|, front) && SitesApart(front) && s in front && SiteFits(|img|, s)
    requires end == s.off + s.len && data == SiteImage(nops, s, img[s.off..end])
    ensures PutAll(img, SiteWrites(nops, img, front))[s.off..end] == data
  {
    SiteDataIn(nops, img, front, s, end, data);
    WrittenSurvives(nops, img, front, s.off, end, data);
  }

  lemma {:induction false} SiteDataIn(nops: Ideal, img: seq<byte>, front: seq<Placed>, s: Placed, end: int,
    data: seq<byte>)
    requires SitesFit(|img|, front) && s in front && SiteFits(|img|, s)
    requires end == s.off + s.len && data == SiteImage(nops, s, img[s.off..end])
    ensures Write(s.off, data) in SiteWrites(nops, img, front) && end == s.off + |data|
  {
    SiteWriteIn(nops, img, front, s);
  }

  lemma {:induction false} WrittenSurvives(nops: Ideal, img: seq<byte>, front: seq<Placed>, off: int, end: int,
    data: seq<byte>)
    requires SitesFit(|img|, front) && SitesApart(front)
    requires Write(off, data) in SiteWrites(nops, img, front) && end == off + |data|
    ensures 0 <= off && end <= |img| && PutAll(img, SiteWrites(nops, img, front))[off..end] == data
  {
    SitesCoherent(nops, img, front);
    PutAllHolds(img, SiteWrites(nops, img, front), off, end, data);
  }

  lemma WritesApart(nops: Ideal, img: seq<byte>, front: seq<Placed>, s: Placed, ws: seq<Write>)
    requires SitesFit(|img|, front) && forall r | r in front :: Apart(r, s)
    requires ws == SiteWrites(nops, img, front)
    ensures forall w | w in ws :: w.off + |w.data| <= s.off || s.off + s.len <= w.off
  {
    forall w | w in ws ensures w.off + |w.data| <= s.off || s.off + s.len <= w.off {
      var r := SiteOfWrite(nops, img, front, w);
      assert Apart(r, s);
    }
  }

  lemma SiteFoundOriginal(nops: Ideal, img: seq<byte>, front: seq<Placed>, s: Placed, patched: seq<byte>)
    requires SitesFit(|img|, front) && SiteFits(|img|, s) && forall r | r in front :: Apart(r, s)
    requires patched == PutAll(img, SiteWrites(nops, img, front))
    ensures patched[s.off..s.off + s.len] == img[s.off..s.off + s.len]
  {
    forall k | s.off <= k < s.off + s.len ensures patched[k] == img[k] {
      ByteFoundOriginal(nops, img, front, s, k);
    }
  }

  lemma ByteFoundOriginal(nops: Ideal, img: seq<byte>, front: seq<Placed>, s: Placed, k: int)
    requires SitesFit(|img|, front) && SiteFits(|img|, s) && forall r | r in front :: Apart(r, s)
    requires s.off <= k < s.off + s.len
    ensures PutAll(img, SiteWrites(nops, img, front))[k] == img[k]
  {
    var ws := SiteWrites(nops, img, front);
    WritesApart(nops, img, front, s, ws);
    PutAllFrame(img, ws, k);
  }

  /** A site that is untouched or already patched asks for the same write. */
  lemma SameOrPatched(nops: Ideal, img: seq<byte>, img': seq<byte>, s: Placed)
    requires |img| == |img'| && SiteFits(|img|, s)
    requires var original, now := img[s.off..s.off + s.len], img'[s.off..s.off + s.len];
      now == original || now == SiteImage(nops, s, original)
    ensures SiteWrite(nops, img', s) == SiteWrite(nops, img, s)
  {
    SiteTwice(nops, s, img[s.off..s.off + s.len]);
  }

  /** Only bytes inside sites change. */
  lemma {:induction false} PatchAllFrame(nops: Ideal, img: seq<byte>, sites: seq<Placed>, k: nat)
    requires SitesFit(|img|, sites) && SitesApart(sites) && k < |img|
    requires forall s | s in sites :: !(s.off <= k < s.off + s.len)
    ensures PatchAll(nops, img, sites)[k] == img[k]
  {
    PatchAllIsWrites(nops, img, sites);
    forall w | w in SiteWrites(nops, img, sites) ensures !Covers(w, k) {
      var s := SiteOfWrite(nops, img, sites, w);
    }
    PutAllFrame(img, SiteWrites(nops, img, sites), k);
  }

  /** Every site of the table holds its own image, computed from the unpatched file. */
  lemma {:induction false} SiteApplied(nops: Ideal, img: seq<byte>, sites: seq<Placed>, s: Placed)
    requires SitesFit(|img|, sites) && SitesApart(sites) && s in sites
    ensures SiteFits(|img|, s)
    ensures PatchAll(nops, img, sites)[s.off..s.off + s.len] == SiteImage(nops, s, img[s.off..s.off + s.len])
  {
    SiteWriteIn(nops, img, sites, s);
    var end := s.off + s.len;
    SiteAppliedAt(nops, img, sites, s, end, SiteImage(nops, s, img[s.off..end]));
  }

  lemma {:induction false} SiteAppliedAt(nops: Ideal, img: seq<byte>, sites: seq<Placed>, s: Placed, end: int,
    data: seq<byte>)
    requires SitesFit(|img|, sites) && SitesApart(sites) && s in sites && SiteFits(|img|, s)
    requires end == s.off + s.len && data == SiteImage(nops, s, img[s.off..end])
    ensures PatchAll(nops, img, sites)[s.off..end] == data
  {
    PatchAllIsWrites(nops, img, sites);
    SiteFoundPatched(nops, img, sites, s, end, data);
  }

  lemma {:induction false} SameSiteWrites(nops: Ideal, img: seq<byte>, img': seq<byte>, sites: seq<Placed>)
    requires |img| == |img'| && SitesFit(|img|, sites)
    requires forall s | s in sites :: SiteFits(|img|, s) ==> SiteWrite(nops, img', s) == SiteWrite(nops, img, s)
    ensures SiteWrites(nops, img', sites) == SiteWrites(nops, img, sites)
  {
    if sites != [] {
      SameSiteWrites(nops, img, img', sites[..|sites| - 1]);
    }
  }

  /** A site of the patched file asks for the write it asked for before. */
  lemma SiteAsksAgain(nops: Ideal, img: seq<byte>, sites: seq<Placed>, once: seq<byte>, s: Placed)
    requires SitesFit(|img|, sites) && SitesApart(sites) && s in sites && once == PatchAll(nops, img, sites)
    ensures SiteFits(|img|, s) && SiteWrite(nops, once, s) == SiteWrite(nops, img, s)
  {
    SiteApplied(nops, img, sites, s);
    SameOrPatched(nops, img, once, s);
  }

  /** A second pass over the table changes nothing. */
  lemma PatchAllTwice(nops: Ideal, img: seq<byte>, sites: seq<Placed>)
    requires SitesFit(|img|, sites) && SitesApart(sites)
    ensures PatchAll(nops, PatchAll(nops, img, sites), sites) == PatchAll(nops, img, sites)
  {
    var once := PatchAll(nops, img, sites);
    forall s | s in sites ensures SiteFits(|img|, s) && SiteWrite(nops, once, s) == SiteWrite(nops, img, s) {
      SiteAsksAgain(nops, img, sites, once, s);
    }
    SameSiteWrites(nops, img, once, sites);
    PatchAllIsWrites(nops, img, sites);
    PatchAllIsWrites(nops, once, sites);
    SitesCoherent(nops, img, sites);
    PutAllTwice(img, SiteWrites(nops, img, sites));
  }

  /** The order of the table does not matter, nor do repeated records. */
  lemma PatchAllOrder(nops: Ideal, img: seq<byte>, sites: seq<Placed>, sites': seq<Placed>)
    requires SitesFit(|img|, sites) && SitesApart(sites)
    requires forall s :: s in sites <==> s in sites'
    ensures SitesFit(|img|, sites') && PatchAll(nops, img, sites) == PatchAll(nops, img, sites')
  {
    forall i | 0 <= i < |sites'| ensures SiteFits(|img|, sites'[i]) {
      assert sites'[i] in sites;
    }
    PatchAllIsWrites(nops, img, sites);
    PatchAllIsWrites(nops, img, sites');
    SitesCoherent(nops, img, sites);
    forall w ensures w in SiteWrites(nops, img, sites) <==> w in SiteWrites(nops, img, sites') {
      if w in SiteWrites(nops, img, sites) {
        var s := SiteOfWrite(nops, img, sites, w);
        SiteWriteIn(nops, img, sites', s);
      }
      if w in SiteWrites(nops, img, sites') {
        var s := SiteOfWrite(nops, img, sites', w);
        SiteWriteIn(nops, img, sites, s);
      }
    }
    SameWritesSameImage(img, SiteWrites(nops, img, sites), SiteWrites(nops, img, sites'));
  }
}
