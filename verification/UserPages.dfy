/** Comparison of a mapped code segment of a process with the segment of its file, past unmapped pages. */
module UserPages {
  import opened Bytes

  const PAGESIZE: nat := 0x1000

  /** The guest's view of one process: which pages are mapped, and the byte at each address. */
  datatype Guest = Guest(mapped: nat -> bool, at: nat -> byte)

  datatype VMA = VMA(start: nat, end: nat) {
    /** Mappings begin and end on page boundaries. */
    predicate Aligned() {
      start <= end && start % PAGESIZE == 0 && end % PAGESIZE == 0
    }
  }

  /** The size of the longest prefix of whole mapped pages of `pages` pages from the given page on. */
  function MappedPages(g: Guest, page: nat, pages: nat): (n: nat)
    ensures n <= pages
    ensures forall k | page <= k < page + n :: g.mapped(k)
    ensures n < pages ==> !g.mapped(page + n)
    decreases pages
  {
    if pages == 0 || !g.mapped(page) then 0 else 1 + MappedPages(g, page + 1, pages - 1)
  }

  /** A read from a page boundary of a whole number of pages ends before the first page that is not mapped. */
  function ReadVector(g: Guest, page: nat, pages: nat): (r: seq<byte>)
    ensures |r| == MappedPages(g, page, pages) * PAGESIZE
  {
    seq(MappedPages(g, page, pages) * PAGESIZE, i requires i >= 0 => g.at(page * PAGESIZE + i))
  }

  /** An offset where the file has a byte, the mapping has one, and they differ. */
  predicate Differs(g: Guest, vma: VMA, text: seq<byte>, j: nat) {
    && j < |text|
    && vma.start + j < vma.end
    && g.mapped((vma.start + j) / PAGESIZE)
    && g.at(vma.start + j) != text[j]
  }

  /** `ElfUserspaceLoader::initText` takes whole pages, and one more when the segment fills its pages. */
  function TextSize(filesz: nat): nat {
    (filesz + PAGESIZE) / PAGESIZE * PAGESIZE
  }

  lemma TextSizeFits(vma: VMA, filesz: nat)
    requires vma.Aligned() && filesz <= vma.end - vma.start
    ensures filesz < TextSize(filesz) <= vma.end - vma.start + PAGESIZE
    ensures TextSize(filesz) % 0x1000 == 0 && TextSize(filesz) <= filesz + 0x1000
  {
  }

  /** What is kept of a file whose code segment lies at this offset. */
  function InitText(content: seq<byte>, offset: nat, filesz: nat): (text: seq<byte>)
    requires offset + TextSize(filesz) <= |content|
    ensures |text| == TextSize(filesz) > filesz && text <= content[offset..]
  {
    content[offset..offset + TextSize(filesz)]
  }

  datatype Outcome = Silent | Mismatch(offset: nat)

  /** The inner loop: compare what was read with the file from `done` on. */
  method Compare(mem: seq<byte>, text: seq<byte>, done: nat) returns (r: Outcome)
    requires done <= |text|
    ensures r.Silent? ==> forall j | 0 <= j < |mem| && done + j < |text| :: mem[j] == text[done + j]
    ensures r.Mismatch? ==>
              && done <= r.offset < |text| && r.offset - done < |mem| && mem[r.offset - done] != text[r.offset]
              && forall j | 0 <= j < r.offset - done :: mem[j] == text[done + j]
  {
    var j := 0;
    while j < |mem| && j < |text| - done
      invariant j <= |mem| && j <= |text| - done
      invariant forall k | 0 <= k < j :: mem[k] == text[done + k]
    {
      if mem[j] != text[done + j] {
        return Mismatch(done + j);
      }
      j := j + 1;
    }
    return Silent;
  }

  /** Up to `done` no offset differs. */
  ghost predicate SameUpTo(g: Guest, vma: VMA, text: seq<byte>, done: nat) {
    forall j | 0 <= j < done :: !Differs(g, vma, text, j)
  }

  lemma ReadAgrees(g: Guest, vma: VMA, text: seq<byte>, pages: nat, upTo: nat)
    requires vma.Aligned() && vma.start + pages * PAGESIZE <= vma.end
    requires SameUpTo(g, vma, text, pages * PAGESIZE)
    requires var page := vma.start / PAGESIZE + pages;
      var mem := ReadVector(g, page, vma.end / PAGESIZE - page);
      upTo <= |mem| && forall j | 0 <= j < upTo && pages * PAGESIZE + j < |text| :: mem[j] == text[pages * PAGESIZE + j]
    ensures SameUpTo(g, vma, text, pages * PAGESIZE + upTo)
  {
    var page := vma.start / PAGESIZE + pages;
    var mem := ReadVector(g, page, vma.end / PAGESIZE - page);
    forall j | pages * PAGESIZE <= j < pages * PAGESIZE + upTo ensures !Differs(g, vma, text, j) {
      assert mem[j - pages * PAGESIZE] == g.at(vma.start + j);
    }
  }

  lemma ReadDiffers(g: Guest, vma: VMA, text: seq<byte>, pages: nat, i: nat)
    requires vma.Aligned() && vma.start + pages * PAGESIZE <= vma.end && pages * PAGESIZE + i < |text|
    requires var page := vma.start / PAGESIZE + pages;
      var mem := ReadVector(g, page, vma.end / PAGESIZE - page);
      i < |mem| && mem[i] != text[pages * PAGESIZE + i]
    ensures Differs(g, vma, text, pages * PAGESIZE + i)
  {
    var page := vma.start / PAGESIZE + pages;
    var mem := ReadVector(g, page, vma.end / PAGESIZE - page);
    assert mem[i] == g.at(vma.start + pages * PAGESIZE + i);
  }

  /** A page that is not mapped, or lies behind the mapping, has nothing that differs. */
  lemma SkipAgrees(g: Guest, vma: VMA, text: seq<byte>, pages: nat)
    requires vma.Aligned() && SameUpTo(g, vma, text, pages * PAGESIZE)
    requires vma.start + pages * PAGESIZE < vma.end ==> !g.mapped(vma.start / PAGESIZE + pages)
    ensures SameUpTo(g, vma, text, (pages + 1) * PAGESIZE)
  {
    forall j | pages * PAGESIZE <= j < (pages + 1) * PAGESIZE ensures !Differs(g, vma, text, j) {
      assert (vma.start + j) / PAGESIZE == vma.start / PAGESIZE + pages;
    }
  }

  /** One round of the loop up to the advance: read, and compare what could be read. */
  method CheckPrefix(g: Guest, vma: VMA, text: seq<byte>, bytesChecked: nat, ghost pages: nat)
    returns (r: Outcome, size: nat, ghost read: nat)
    requires vma.Aligned() && bytesChecked == pages * PAGESIZE && vma.start + bytesChecked <= vma.end
    requires bytesChecked < |text| && SameUpTo(g, vma, text, bytesChecked)
    ensures r.Silent? ==> SameUpTo(g, vma, text, bytesChecked + size)
    ensures r.Mismatch? ==> Differs(g, vma, text, r.offset) && SameUpTo(g, vma, text, r.offset)
    ensures size == read * PAGESIZE && vma.start + bytesChecked + size <= vma.end
    ensures vma.start + bytesChecked + size < vma.end ==> !g.mapped(vma.start / PAGESIZE + pages + read)
  {
    var page, rest := (vma.start + bytesChecked) / PAGESIZE, (vma.end - vma.start - bytesChecked) / PAGESIZE;
    assert page == vma.start / PAGESIZE + pages && rest == vma.end / PAGESIZE - page;
    var codevma := ReadVector(g, page, rest);
    r := Compare(codevma, text, bytesChecked);
    size, read := |codevma|, MappedPages(g, page, rest);
    if r.Mismatch? {
      ReadDiffers(g, vma, text, pages, r.offset - bytesChecked);
      ReadAgrees(g, vma, text, pages, r.offset - bytesChecked);
    } else {
      ReadAgrees(g, vma, text, pages, |codevma|);
    }
  }

  /**
   The whole check. It ends for every pattern of unmapped pages, it is silent exactly if every byte of
   the file on a mapped page is in memory, and otherwise it reports the first one that is not.
   */
  method ValidateCodePage(g: Guest, vma: VMA, text: seq<byte>) returns (r: Outcome)
    requires vma.Aligned() && |text| <= vma.end - vma.start + PAGESIZE
    ensures r.Silent? <==> forall j :: !Differs(g, vma, text, j)
    ensures r.Mismatch? ==> Differs(g, vma, text, r.offset) && SameUpTo(g, vma, text, r.offset)
  {
    var bytesChecked := 0;
    ghost var pages := 0;
    while bytesChecked < |text|
      invariant bytesChecked < |text| ==> bytesChecked == pages * PAGESIZE
      invariant SameUpTo(g, vma, text, bytesChecked)
      decreases |text| - bytesChecked
    {
      var size;
      ghost var read;
      r, size, read := CheckPrefix(g, vma, text, bytesChecked, pages);
      if r.Mismatch? {
        return;
      }
      bytesChecked, pages := bytesChecked + size, pages + read;
      if bytesChecked < |text| {
        SkipAgrees(g, vma, text, pages);
        bytesChecked, pages := bytesChecked + PAGESIZE, pages + 1;
      }
    }
    return Silent;
  }

  /** A mapped byte in the reach of the segment that is not the file's. */
  predicate SegmentDiffers(g: Guest, vma: VMA, content: seq<byte>, offset: nat, filesz: nat, j: nat)
    requires offset <= |content|
  {
    j < TextSize(filesz) && Differs(g, vma, content[offset..], j)
  }

  /**
   A segment that fits its mapping. The whole pages that are compared end behind the segment: what follows it
   in the file has to be in memory too, as far as the mapping goes.
   */
  method ValidateSegment(g: Guest, vma: VMA, content: seq<byte>, offset: nat, filesz: nat) returns (r: Outcome)
    requires vma.Aligned() && filesz <= vma.end - vma.start && offset + TextSize(filesz) <= |content|
    ensures r.Silent? <==> forall j :: !SegmentDiffers(g, vma, content, offset, filesz, j)
    ensures r.Mismatch? ==> SegmentDiffers(g, vma, content, offset, filesz, r.offset)
    ensures r.Mismatch? ==> forall j | 0 <= j < r.offset :: !SegmentDiffers(g, vma, content, offset, filesz, j)
  {
    TextSizeFits(vma, filesz);
    var text := InitText(content, offset, filesz);
    assert forall j :: SegmentDiffers(g, vma, content, offset, filesz, j) <==> Differs(g, vma, text, j);
    r := ValidateCodePage(g, vma, text);
  }
}
