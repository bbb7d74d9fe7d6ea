/**
 Overwriting byte ranges of an image. Every loader pass is a list of such writes;
 the lemmas say when the order and the repetition of the writes do not matter.
 */
module Patching {
  import opened Bytes

  datatype Write = Write(off: int, data: seq<byte>)

  predicate Covers(w: Write, k: int) {
    w.off <= k < w.off + |w.data|
  }

  predicate Disjoint(v: Write, w: Write) {
    v.off + |v.data| <= w.off || w.off + |w.data| <= v.off
  }

  predicate Fits(size: nat, w: Write) {
    0 <= w.off && w.off + |w.data| <= size
  }

  ghost predicate AllFit(size: nat, ws: seq<Write>) {
    forall w | w in ws :: Fits(size, w)
  }

  /** Any two writes of the list are the same write or touch different bytes. */
  ghost predicate Coherent(ws: seq<Write>) {
    forall v, w {:trigger Disjoint(v, w)} | v in ws && w in ws :: v == w || Disjoint(v, w)
  }

  /** The byte at `k` after one write; a write that does not fit changes nothing. */
  function ByteAfter(img: seq<byte>, w: Write, k: nat): byte
    requires k < |img|
  {
    if Fits(|img|, w) && Covers(w, k) then w.data[k - w.off] else img[k]
  }

  function BytesAfter(img: seq<byte>, w: Write, n: nat): (r: seq<byte>)
    requires n <= |img|
    ensures |r| == n
  {
    if n == 0 then [] else BytesAfter(img, w, n - 1) + [ByteAfter(img, w, n - 1)]
  }

  /** The image after one write. */
  function Put(img: seq<byte>, w: Write): (r: seq<byte>)
    ensures |r| == |img|
  {
    BytesAfter(img, w, |img|)
  }

  lemma {:induction false} ByteOf(img: seq<byte>, w: Write, n: nat, k: nat)
    requires k < n <= |img|
    ensures BytesAfter(img, w, n)[k] == ByteAfter(img, w, k)
  {
    if k < n - 1 {
      ByteOf(img, w, n - 1, k);
    }
  }

  lemma PutAt(img: seq<byte>, w: Write, k: nat)
    requires k < |img|
    ensures Put(img, w)[k] == if Fits(|img|, w) && Covers(w, k) then w.data[k - w.off] else img[k]
  {
    ByteOf(img, w, |img|, k);
  }

  lemma PutEverywhere(img: seq<byte>, w: Write)
    ensures forall k | 0 <= k < |img| ::
              Put(img, w)[k] == if Fits(|img|, w) && Covers(w, k) then w.data[k - w.off] else img[k]
  {
    forall k | 0 <= k < |img| ensures Put(img, w)[k] == ByteAfter(img, w, k) {
      ByteOf(img, w, |img|, k);
    }
  }

  lemma PutNothing(img: seq<byte>, off: int)
    ensures Put(img, Write(off, [])) == img
  {
    PutEverywhere(img, Write(off, []));
  }

  /** What was written can be read there. */
  lemma PutField(img: seq<byte>, off: nat, data: seq<byte>)
    requires off + |data| <= |img|
    ensures Put(img, Write(off, data))[off..off + |data|] == data
  {
    PutEverywhere(img, Write(off, data));
  }

  /** The image after the writes of `ws`, first to last. */
  function PutAll(img: seq<byte>, ws: seq<Write>): (r: seq<byte>)
    ensures |r| == |img|
  {
    if ws == [] then img else Put(PutAll(img, ws[..|ws| - 1]), ws[|ws| - 1])
  }

  lemma PutAllStep(img: seq<byte>, ws: seq<Write>, w: Write)
    ensures PutAll(img, ws + [w]) == Put(PutAll(img, ws), w)
  {
    assert (ws + [w])[..|ws|] == ws;
  }

  /** Bytes no write covers keep their value. */
  lemma {:induction false} PutAllFrame(img: seq<byte>, ws: seq<Write>, k: nat)
    requires k < |img|
    requires forall w | w in ws :: !Covers(w, k)
    ensures PutAll(img, ws)[k] == img[k]
  {
    if ws != [] {
      PutAllFrame(img, ws[..|ws| - 1], k);
      PutAt(PutAll(img, ws[..|ws| - 1]), ws[|ws| - 1], k);
    }
  }

  /** Images that agree somewhere still do after the same writes. */
  lemma {:induction false} PutAllAgrees(img: seq<byte>, img': seq<byte>, ws: seq<Write>, k: nat)
    requires k < |img| == |img'| && img[k] == img'[k]
    ensures PutAll(img, ws)[k] == PutAll(img', ws)[k]
  {
    if ws != [] {
      PutAllAgrees(img, img', ws[..|ws| - 1], k);
      PutAt(PutAll(img, ws[..|ws| - 1]), ws[|ws| - 1], k);
      PutAt(PutAll(img', ws[..|ws| - 1]), ws[|ws| - 1], k);
    }
  }

  /** In a coherent list every write survives. */
  lemma {:induction false} PutAllAt(img: seq<byte>, ws: seq<Write>, w: Write, k: nat)
    requires AllFit(|img|, ws) && Coherent(ws) && w in ws && Covers(w, k)
    ensures PutAll(img, ws)[k] == w.data[k - w.off]
  {
    var last := ws[|ws| - 1];
    PutAt(PutAll(img, ws[..|ws| - 1]), last, k);
    if Covers(last, k) {
      assert last == w || Disjoint(last, w);
    } else {
      assert w in ws[..|ws| - 1];
      PutAllAt(img, ws[..|ws| - 1], w, k);
    }
  }

  lemma FieldOf(img: seq<byte>, off: int, end: int, data: seq<byte>)
    requires 0 <= off && end == off + |data| <= |img|
    requires forall k | off <= k < end :: img[k] == data[k - off]
    ensures img[off..end] == data
  {
  }

  lemma PutAllBytes(img: seq<byte>, ws: seq<Write>, w: Write, end: int)
    requires AllFit(|img|, ws) && Coherent(ws) && w in ws && end == w.off + |w.data|
    ensures 0 <= w.off && end <= |img|
    ensures forall k | w.off <= k < end :: PutAll(img, ws)[k] == w.data[k - w.off]
  {
    forall k | w.off <= k < end ensures PutAll(img, ws)[k] == w.data[k - w.off] {
      PutAllAt(img, ws, w, k);
    }
  }

  lemma PutAllField(img: seq<byte>, ws: seq<Write>, w: Write, end: int)
    requires AllFit(|img|, ws) && Coherent(ws) && w in ws && end == w.off + |w.data|
    ensures 0 <= w.off && end <= |img| && PutAll(img, ws)[w.off..end] == w.data
  {
    PutAllBytes(img, ws, w, end);
    FieldOf(PutAll(img, ws), w.off, end, w.data);
  }

  lemma PutAllHolds(img: seq<byte>, ws: seq<Write>, off: int, end: int, data: seq<byte>)
    ensures AllFit(|img|, ws) && Coherent(ws) && Write(off, data) in ws && end == off + |data| ==>
              0 <= off && end <= |img| && PutAll(img, ws)[off..end] == data
  {
    if AllFit(|img|, ws) && Coherent(ws) && Write(off, data) in ws && end == off + |data| {
      PutAllField(img, ws, Write(off, data), end);
    }
  }

  /** A coherent list is a set of writes: order and repetition do not change the image. */
  lemma SameWritesSameImage(img: seq<byte>, vs: seq<Write>, ws: seq<Write>)
    requires Coherent(vs) && AllFit(|img|, vs)
    requires forall w :: w in vs <==> w in ws
    ensures AllFit(|img|, ws) && PutAll(img, vs) == PutAll(img, ws)
  {
    forall k | 0 <= k < |img| ensures PutAll(img, vs)[k] == PutAll(img, ws)[k] {
      if w :| w in vs && Covers(w, k) {
        PutAllAt(img, vs, w, k);
        PutAllAt(img, ws, w, k);
      } else {
        PutAllFrame(img, vs, k);
        PutAllFrame(img, ws, k);
      }
    }
  }

  lemma PutAllTwice(img: seq<byte>, ws: seq<Write>)
    requires Coherent(ws) && AllFit(|img|, ws)
    ensures PutAll(PutAll(img, ws), ws) == PutAll(img, ws)
  {
    var r := PutAll(img, ws);
    forall k | 0 <= k < |img| ensures PutAll(r, ws)[k] == r[k] {
      if w :| w in ws && Covers(w, k) {
        PutAllAt(img, ws, w, k);
        PutAllAt(r, ws, w, k);
      } else {
        PutAllFrame(r, ws, k);
      }
    }
  }

  lemma {:induction false} PutAllAppend(img: seq<byte>, vs: seq<Write>, ws: seq<Write>)
    ensures PutAll(img, vs + ws) == PutAll(PutAll(img, vs), ws)
  {
    if ws == [] {
      assert vs + ws == vs;
    } else {
      PutAllAppend(img, vs, ws[..|ws| - 1]);
      assert (vs + ws)[..|vs + ws| - 1] == vs + ws[..|ws| - 1];
    }
  }

  lemma PutAllCons(img: seq<byte>, w: Write, ws: seq<Write>)
    ensures PutAll(img, [w] + ws) == PutAll(Put(img, w), ws)
  {
    PutAllAppend(img, [w], ws);
    assert [w][..0] == [];
    assert PutAll(img, [w]) == Put(PutAll(img, []), w);
  }

  /** Two adjacent writes are one. */
  lemma PutAdjacent(img: seq<byte>, off: int, next: int, a: seq<byte>, b: seq<byte>)
    requires 0 <= off && next == off + |a| && next + |b| <= |img|
    ensures Put(Put(img, Write(off, a)), Write(next, b)) == Put(img, Write(off, a + b))
  {
    PutEverywhere(img, Write(off, a));
    PutEverywhere(Put(img, Write(off, a)), Write(next, b));
    PutEverywhere(img, Write(off, a + b));
  }

  /** `memcpy` into a buffer. */
  method Copy(buf: array<byte>, at: int, data: seq<byte>)
    requires Fits(buf.Length, Write(at, data))
    modifies buf
    ensures buf[..] == Put(old(buf[..]), Write(at, data))
  {
    PutEverywhere(buf[..], Write(at, data));
    forall k | 0 <= k < |data| {
      buf[at + k] := data[k];
    }
  }
}
