/**
 The comparison of one kernel code page with its reference (`validateCodePage`):
 an index-driven scan whose tolerance rules skip ahead, the declarative meaning
 of its verdict, and what that meaning says about every differing byte.
 */
module PageScan {
  import opened Bytes
  import opened Nops
  import opened SkipScan

  /** Which loader owns the text: only the kernel's has the two extra rules. */
  datatype Owner = KernelText(genericUnrolled: int) | ModuleText

  /**
   Everything one call looks at. `base` is the guest address of the page, `initialised`
   the number of reference bytes from the page on (`textSegmentContent.size() - pageOffset`).
   */
  datatype Page = Page(
    loaded: seq<byte>,
    inMem: seq<byte>,
    base: nat,
    pageOffset: nat,
    initialised: int,
    owner: Owner,
    nops: Ideal,
    jumpEntries: map<int, int>,
    smpOffsets: set<int>)

  datatype Verdict = Intact | Uninitialised(at: nat) | Changed(at: nat)

  predicate Valid(p: Page) {
    |p.loaded| == |p.inMem| < 0x8000_0000 - 6
  }

  function Address(p: Page, i: nat): int {
    (p.base + i) % TWO_64
  }

  /** The 4 KiB page at 0xffffffff81001000 the scan ignores. */
  predicate Ignored(base: int, i: int) {
    (base + i) % TWO_64 / 0x1000 == 0xffff_ffff_8100_1000 / 0x1000
  }

  predicate InHypercallPage(p: Page, i: nat) {
    Ignored(p.base, i)
  }

  /** The label at `code` stands in memory as a 5-byte NOP, the atomic NOP, or its jump. */
  predicate ValidJmpLabel(p: Page, code: int, i: nat) {
    && code in p.jumpEntries
    && (|| HasAt(p.inMem, i, p.nops[5])
        || HasAt(p.inMem, i, p.nops[9])
        || (&& i + 5 <= |p.inMem|
            && p.inMem[i] == 0xe9
            && Int32(Load(p.inMem[i + 1..i + 5])) == p.jumpEntries[code]))
  }

  predicate Differs(p: Page, i: nat)
    requires Valid(p) && i < |p.loaded|
  {
    p.loaded[i] != p.inMem[i]
  }

  /** The first byte of a run of differing bytes: the only bytes the rules look at. */
  predicate Head(p: Page, i: nat)
    requires Valid(p)
  {
    i < |p.loaded| && Differs(p, i) && (i > 0 ==> !Differs(p, i - 1))
  }

  /** The call the scan sees when the byte before `i` is e8, as the code computes it from the reference alone. */
  predicate CallRule(loaded: seq<byte>, base: int, owner: Owner, i: nat) {
    && 0 < i && i + 5 <= |loaded|
    && loaded[i - 1] == 0xe8
    && owner.KernelText?
    && (base + i + Load(loaded[i + 1..i + 5]) + 5) % TWO_64 == owner.genericUnrolled
  }

  predicate CallsGenericUnrolled(p: Page, i: nat) {
    CallRule(p.loaded, p.base, p.owner, i)
  }

  /**
   How far the scan moves when a rule accepts the difference at `i`; zero when none does.
   The rules are tried in this order. A comparison that would run past the page fails.
   */
  function Tolerated(p: Page, i: nat): (step: nat)
    requires Valid(p) && i < |p.loaded|
    ensures step in {0, 1, 5, 6}
  {
    var l, m := p.loaded[i], p.inMem[i];
    if InHypercallPage(p, i) then 1
    else if i > 1 && HasAt(p.loaded, i - 2, p.nops[5]) && HasAt(p.inMem, i - 2, p.nops[9]) then 6
    else if i <= 1 && ((l == 0x66 && m == 0x90) || (l == 0x90 && m == 0x66)) then 1
    else if HasAt(p.loaded, i, [0x0f, 0x1f, 0x44, 0x00, 0x00])
         && HasAt(p.inMem, i, [0x66, 0x66, 0x66, 0x66, 0x90]) then 6
    else if ValidJmpLabel(p, Address(p, i), i) then 6
    else if CallsGenericUnrolled(p, i) then 5
    else if ((l == 0x3e && m == 0xf0) || (l == 0xf0 && m == 0x3e)) && i + p.pageOffset in p.smpOffsets then 1
    else if HasAt(p.loaded, i, [0xe9, 0, 0, 0, 0]) && HasAt(p.inMem, i, p.nops[9]) then 6
    else 0
  }

  /** The page as the scan sees it: where runs of differences begin, and how far each lets it move. */
  function Marks(p: Page): (marks: seq<Mark>)
    requires Valid(p)
    ensures |marks| == |p.loaded|
  {
    seq(|p.loaded|, i requires 0 <= i < |p.loaded| => MarkAt(p, i))
  }

  function MarkAt(p: Page, i: nat): Mark
    requires Valid(p)
  {
    if Head(p, i) then Run(Tolerated(p, i)) else Quiet
  }

  function VerdictAt(p: Page, at: nat): Verdict {
    if at >= |p.loaded| then Intact
    else if p.owner.KernelText? && at >= p.initialised then Uninitialised(at)
    else Changed(at)
  }

  function Scan(p: Page): Verdict
    requires Valid(p)
  {
    VerdictAt(p, Stop(Marks(p), 0))
  }

  /** One turn of the scan from a place where it goes on. */
  lemma MarkMoves(p: Page, i: nat, next: nat)
    requires Valid(p) && i < |p.loaded| && i < next
    requires MarkAt(p, i) == if Head(p, i) then Run(next - i) else Quiet
    requires !Head(p, i) ==> next == i + 1
    ensures Stop(Marks(p), i) == Stop(Marks(p), next)
  {
    var marks := Marks(p);
    assert marks[i] == MarkAt(p, i);
    StopMoves(marks, i, next);
  }

  /** A run that no rule accepts ends the scan. */
  lemma MarkStops(p: Page, i: nat)
    requires Valid(p) && Head(p, i) && Tolerated(p, i) == 0
    ensures Stop(Marks(p), i) == i
  {
    assert Marks(p)[i] == MarkAt(p, i) == Run(0);
  }

  method ValidateCodePage(p: Page) returns (verdict: Verdict)
    requires Valid(p)
    ensures verdict == Scan(p)
  {
    var i := 0;
    ghost var stop := Stop(Marks(p), 0);
    while i < |p.loaded|
      invariant Stop(Marks(p), i) == stop
    {
      ghost var at := i;
      if p.loaded[i] == p.inMem[i] {
        i := i + 1;
        MarkMoves(p, at, i);
        continue;
      }
      if i > 0 && p.loaded[i - 1] != p.inMem[i - 1] {
        i := i + 1;
        MarkMoves(p, at, i);
        continue;
      }
      var step := Tolerated(p, i);
      if step > 0 {
        i := i + step;
        MarkMoves(p, at, i);
        continue;
      }
      MarkStops(p, i);
      if p.owner.KernelText? && i >= p.initialised {
        return Uninitialised(i);
      }
      return Changed(i);
    }
    return Intact;
  }

  // ---- The meaning of a verdict ---------------------------------------------------

  /** Offset `k` lies in the bytes passed over when the run head `h` is accepted. */
  ghost predicate PassedOver(p: Page, h: nat, k: nat)
    requires Valid(p)
  {
    InWindow(Marks(p), h, k)
  }

  lemma PassedOverMeaning(p: Page, h: nat, k: nat)
    requires Valid(p)
    ensures PassedOver(p, h, k) <==> Head(p, h) && h <= k < h + Tolerated(p, h)
  {}

  /**
   `cover` accounts for the page up to `to`: it holds accepted run heads that do not lie in
   each other's windows, and every run head before `to` lies in the window of one of them.
   */
  ghost predicate Accounts(p: Page, cover: set<nat>, to: nat)
    requires Valid(p)
  {
    && (forall h | h in cover :: h < to && PassedOver(p, h, h))
    && (forall g, h | g in cover && h in cover && g < h :: !PassedOver(p, g, h))
    && (forall k: nat | k < to && Head(p, k) :: exists h :: h in cover && PassedOver(p, h, k))
  }

  /** `at` is a run head no rule accepts and no window of `cover` contains. */
  ghost predicate Unaccounted(p: Page, cover: set<nat>, at: nat)
    requires Valid(p)
  {
    Head(p, at) && Tolerated(p, at) == 0 && forall h | h in cover :: !PassedOver(p, h, at)
  }

  lemma AccountsIsJustified(p: Page, cover: set<nat>, at: nat)
    requires Valid(p) && at <= |p.loaded|
    ensures Justified(Marks(p), 0, cover, at)
      <==> Accounts(p, cover, at) && (at < |p.loaded| ==> Unaccounted(p, cover, at))
  {
    var marks := Marks(p);
    forall k: nat ensures IsRun(marks, k) <==> Head(p, k) {}
    if Justified(marks, 0, cover, at) {
      forall h | h in cover ensures PassedOver(p, h, h) {}
      forall k: nat | k < at && Head(p, k) ensures exists h :: h in cover && PassedOver(p, h, k) {
        assert IsRun(marks, k);
        var h :| h in cover && InWindow(marks, h, k);
        assert PassedOver(p, h, k);
      }
    }
    if Accounts(p, cover, at) {
      forall h | h in cover ensures Step(marks, h) > 0 {
        assert PassedOver(p, h, h);
      }
      forall g, h | g in cover && h in cover && g < h ensures g + Step(marks, g) <= h {
        assert !PassedOver(p, g, h);
      }
      forall k: nat | k < at && IsRun(marks, k) ensures Covered(marks, cover, k) {
        var h :| h in cover && PassedOver(p, h, k);
      }
    }
  }

  /** The exact acceptance relation: when the scan reports nothing at all. */
  lemma IntactIff(p: Page)
    requires Valid(p)
    ensures Scan(p) == Intact <==> exists cover :: Accounts(p, cover, |p.loaded|)
  {
    StopIff(Marks(p), |p.loaded|);
    StopIsLater(Marks(p), 0);
    if cover :| Accounts(p, cover, |p.loaded|) {
      AccountsIsJustified(p, cover, |p.loaded|);
    }
    if cover :| Justified(Marks(p), 0, cover, |p.loaded|) {
      AccountsIsJustified(p, cover, |p.loaded|);
    }
  }

  /** And when it reports, exactly which offset. */
  lemma ReportIff(p: Page, at: nat)
    requires Valid(p) && at < |p.loaded|
    ensures Scan(p) == VerdictAt(p, at)
      <==> exists cover :: Accounts(p, cover, at) && Unaccounted(p, cover, at)
  {
    StopIff(Marks(p), at);
    StopIsLater(Marks(p), 0);
    if cover :| Accounts(p, cover, at) && Unaccounted(p, cover, at) {
      AccountsIsJustified(p, cover, at);
    }
    if cover :| Justified(Marks(p), 0, cover, at) {
      AccountsIsJustified(p, cover, at);
    }
  }

  // ---- Consequences for single bytes ----------------------------------------------

  /** The start of the run of differing bytes that contains `k`. */
  ghost function RunStart(p: Page, k: nat): (h: nat)
    requires Valid(p) && k < |p.loaded| && Differs(p, k)
    ensures h <= k && Head(p, h)
    ensures forall i | h <= i <= k :: Differs(p, i)
  {
    if k == 0 || !Differs(p, k - 1) then k else RunStart(p, k - 1)
  }

  /** Where the scan ends: at the offset it reports, or behind the page. */
  function ScanEnd(p: Page): nat
    requires Valid(p)
  {
    Stop(Marks(p), 0)
  }

  /** `h` is a run head the scan examines and accepts: it belongs to the heads that account for the scan. */
  ghost predicate Visited(p: Page, h: nat)
    requires Valid(p)
  {
    exists cover :: Accounts(p, cover, ScanEnd(p)) && h in cover
  }

  /**
   Why a differing byte of a page without report was let pass: it follows another differing
   byte, lies in the window of a head the scan visited, or lies behind the initialised content.
   */
  lemma EveryDifferenceExplained(p: Page, k: nat)
    requires Valid(p) && k < |p.loaded| && Differs(p, k) && !Scan(p).Changed?
    ensures || (k > 0 && Differs(p, k - 1))
            || (exists h: nat :: Visited(p, h) && h <= k < h + Tolerated(p, h))
            || (p.owner.KernelText? && k >= p.initialised)
  {
    if Head(p, k) && !(p.owner.KernelText? && k >= p.initialised) {
      var h := ScannedRunExplained(p, k);
    }
  }

  /** A run of differences before the stop of the scan begins in the window of a visited head. */
  lemma ScannedRunExplained(p: Page, k: nat) returns (h: nat)
    requires Valid(p) && k < |p.loaded| && Head(p, k)
    requires Scan(p).Intact? || k < Scan(p).at || (Scan(p).Uninitialised? && k < p.initialised)
    ensures Visited(p, h) && Head(p, h) && h <= k < h + Tolerated(p, h)
  {
    StopIsLater(Marks(p), 0);
    var cover := StopIsJustified(Marks(p), 0);
    AccountsIsJustified(p, cover, ScanEnd(p));
    h :| h in cover && PassedOver(p, h, k);
    PassedOverMeaning(p, h, k);
  }

  /** The lowest differing byte is always examined, and reported there when no rule accepts it. */
  lemma LowestDifferenceDecides(p: Page, d: nat)
    requires Valid(p) && d < |p.loaded| && Differs(p, d)
    requires forall k | 0 <= k < d :: !Differs(p, k)
    ensures Scan(p) == VerdictAt(p, d) <==> Tolerated(p, d) == 0
  {
    var marks, landing := Marks(p), d + Tolerated(p, d);
    assert marks[d] == Run(Tolerated(p, d));
    StopSkipsQuiet(marks, 0, d);
    StopIsLater(marks, landing);
  }

  /** An unmodified page is intact; where no rule applies, only an unmodified page is. */
  lemma IdenticalPageIntact(p: Page)
    requires Valid(p)
    ensures p.loaded == p.inMem ==> Scan(p) == Intact
    ensures (forall i | 0 <= i < |p.loaded| :: Tolerated(p, i) == 0)
      ==> (Scan(p) == Intact <==> p.loaded == p.inMem)
  {
    if p.loaded == p.inMem {
      StopSkipsQuiet(Marks(p), 0, |p.loaded|);
    } else if forall i | 0 <= i < |p.loaded| :: Tolerated(p, i) == 0 {
      var k :| 0 <= k < |p.loaded| && p.loaded[k] != p.inMem[k];
      if Scan(p) == Intact {
        var h := ScannedRunExplained(p, RunStart(p, k));
      }
    }
  }

  // ---- The call rule --------------------------------------------------------------------

  /** Where the call whose operand begins at `i` leads: behind its five bytes, by a signed displacement. */
  function CallLeadsTo(p: Page, i: nat): int
    requires i + 4 <= |p.loaded|
  {
    (p.base + i + 4 + Int32(Load(p.loaded[i..i + 4]))) % TWO_64
  }

  /**
   The rule reads the displacement one byte late and without its sign. So for a call that really leads to
   `copy_user_generic_unrolled` it holds exactly if the misread displacement is one less.
   */
  lemma CallRuleIff(p: Page, i: nat)
    requires Valid(p) && p.owner.KernelText? && 0 < i && i + 5 <= |p.loaded| && p.loaded[i - 1] == 0xe8
    requires CallLeadsTo(p, i) == p.owner.genericUnrolled
    ensures CallsGenericUnrolled(p, i)
      <==> (Load(p.loaded[i + 1..i + 5]) + 1) % TWO_64 == Int32(Load(p.loaded[i..i + 4])) % TWO_64
  {
    var misread, meant := Load(p.loaded[i + 1..i + 5]), Int32(Load(p.loaded[i..i + 4]));
    SameShift(misread + 1, meant, p.base + i + 4);
  }

  lemma SameShift(x: int, y: int, k: int)
    ensures (x + k) % TWO_64 == (y + k) % TWO_64 <==> x % TWO_64 == y % TWO_64
  {
    var a, b := (x + k) / TWO_64 - x / TWO_64, (y + k) / TWO_64 - y / TWO_64;
    assert (x + k) % TWO_64 - x % TWO_64 == k - a * TWO_64;
    assert (y + k) % TWO_64 - y % TWO_64 == k - b * TWO_64;
  }

  /** Where the rule holds, the byte behind the opcode is let pass whatever memory holds. */
  lemma CallRuleIsBlind(p: Page, i: nat, mem: seq<byte>)
    requires Valid(p) && |mem| == |p.loaded| && CallsGenericUnrolled(p, i)
    ensures CallsGenericUnrolled(p.(inMem := mem), i) && Tolerated(p.(inMem := mem), i) > 0
  {
  }

  function GenuineCall(): Page {
    Page([0xe8, 0x10, 0, 0, 0, 0x90], [0xe8, 0x11, 0, 0, 0, 0x90], 0, 0, 6, KernelText(0x15), IdealNops(P6), map[], {})
  }

  /** A call to the routine with a small displacement is not recognised: a change of its operand is reported. */
  lemma GenuineCallMissed()
    ensures CallLeadsTo(GenuineCall(), 1) == 0x15 && Scan(GenuineCall()) == Changed(1)
  {
    GenuineCallIsNot();
    GenuineCallRejected();
    LowestDifferenceDecides(GenuineCall(), 1);
  }

  lemma GenuineCallIsNot()
    ensures CallLeadsTo(GenuineCall(), 1) == 0x15
    ensures !CallsGenericUnrolled(GenuineCall(), 1)
  {
    var p := GenuineCall();
    LoadSmall(0x10);
    assert p.loaded[1..5] == [0x10, 0, 0, 0] && p.loaded[2..6] == [0, 0, 0, 0x90];
    assert Load([0, 0, 0, 0x90]) % 256 == 0 by {
      assert Load([0, 0, 0, 0x90]) == 0 + 256 * Load([0, 0, 0, 0x90][1..]);
    }
    CallRuleIff(p, 1);
  }

  lemma GenuineCallRejected()
    requires !CallsGenericUnrolled(GenuineCall(), 1)
    ensures Tolerated(GenuineCall(), 1) == 0
  {
  }
}
