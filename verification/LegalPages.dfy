/**
 Two legal states of one page: jump labels as a NOP, the atomic NOP or their jump, lock prefixes on or
 off. When sites are far enough apart the scan reports nothing.
 */
module LegalPages {
  import opened Bytes
  import opened Nops
  import opened SkipScan
  import opened PageScan
  import opened KernelText

  /** The forms of a jump label site: NOP, atomic NOP, or the jump with displacement `d`. */
  predicate LabelForm(nops: Ideal, d: int, s: seq<byte>) {
    s == nops[5] || s == nops[9] || s == JumpBytes(d)
  }

  /** The forms the loader itself writes. */
  predicate BuiltForm(nops: Ideal, d: int, s: seq<byte>) {
    s == nops[5] || s == JumpBytes(d)
  }

  predicate LockForm(b: byte) {
    b == 0x3e || b == 0xf0
  }

  /** A label of the page, its five bytes inside the page, legal on both sides. */
  ghost predicate LegalLabel(p: Page, s: nat)
    requires Valid(p)
  {
    && s + 5 <= |p.loaded|
    && Address(p, s) in p.jumpEntries
    && -0x8000_0000 <= p.jumpEntries[Address(p, s)] < 0x8000_0000
    && BuiltForm(p.nops, p.jumpEntries[Address(p, s)], p.loaded[s..s + 5])
    && LabelForm(p.nops, p.jumpEntries[Address(p, s)], p.inMem[s..s + 5])
  }

  ghost predicate LegalLock(p: Page, o: nat)
    requires Valid(p)
  {
    o < |p.loaded| && LockForm(p.loaded[o]) && LockForm(p.inMem[o]) && o + p.pageOffset in p.smpOffsets
  }

  /** Labels lie inside the page and do not overlap, and no lock lies inside a label. */
  predicate Geometry(labels: set<nat>, locks: set<nat>, size: nat) {
    && (forall s | s in labels :: s + 5 <= size)
    && (forall a, b | a in labels && b in labels && a < b :: a + 5 <= b)
    && (forall o | o in locks :: o < size)
    && (forall s, o | s in labels && o in locks :: o < s || s + 5 <= o)
  }

  /** How far a skip that begins in a label can reach, from the label's start. */
  function Gap(t: Table): nat {
    if t.P6? then 6 else 8
  }

  /** The byte before a lock may be the opcode of a call: it exists and is no lock itself. */
  predicate MayFollowOpcode(locks: set<nat>, o: nat) {
    o > 0 && o - 1 !in locks
  }

  /** The locks where it may. */
  function MayCall(locks: set<nat>): set<nat> {
    set o | o in locks && MayFollowOpcode(locks, o)
  }

  /** The locks of a reference page where the call rule fires. */
  function Calls(loaded: seq<byte>, base: int, owner: Owner, locks: set<nat>): set<nat> {
    set o | o in locks && CallRule(loaded, base, owner, o)
  }

  /** A scan that comes upon a changed label at `i`, past its first byte, can meet a byte that it does not ignore. */
  predicate Exposed(base: int, s: nat, i: nat) {
    !Ignored(base, s) && !Ignored(base, if i < s + 2 then s + 2 else i)
  }

  /**
   No label runs out of the page the scan ignores. And unless that page shields them, labels are as far apart
   as skips reach, no lock stands directly before a label, and no label begins inside the five bytes the call
   rule skips from a lock.
   */
  predicate Spaced(t: Table, base: int, labels: set<nat>, locks: set<nat>, calls: set<nat>) {
    && (forall s | s in labels && Ignored(base, s) :: Ignored(base, s + 4))
    && (forall a, b | a in labels && b in labels && a < b < a + Gap(t) && Exposed(base, b, b + 1) ::
         Ignored(base, a) && a + 5 < b)
    && (forall s, o | s in labels && o in locks && Exposed(base, s, s + 1) :: o + 1 != s)
    && (forall s, o | s in labels && o in calls && o < s < o + 5 && Exposed(base, s, o + 5) :: Ignored(base, o))
  }

  /** Reference and memory are two legal states of the same page. */
  ghost predicate Legal(p: Page, labels: set<nat>, locks: set<nat>)
    requires Valid(p)
  {
    && Geometry(labels, locks, |p.loaded|)
    && (forall s | s in labels :: LegalLabel(p, s))
    && (forall o | o in locks :: LegalLock(p, o))
    && (forall k: nat | k < |p.loaded| && Differs(p, k) :: k in locks || exists s :: s in labels && s <= k < s + 5)
  }

  /** The page's sites are spaced, given where the call rule fires on the reference. */
  predicate SpacedAsBuilt(p: Page, t: Table, labels: set<nat>, locks: set<nat>) {
    Spaced(t, p.base, labels, locks, Calls(p.loaded, p.base, p.owner, locks))
  }

  ghost predicate LegalAndSpaced(p: Page, t: Table, labels: set<nat>, locks: set<nat>)
    requires Valid(p)
  {
    p.nops == IdealNops(t) && Legal(p, labels, locks) && SpacedAsBuilt(p, t, labels, locks)
  }

  // ---- One site -------------------------------------------------------------------

  lemma NopFacts(t: Table)
    ensures var nops := IdealNops(t);
      && (nops[5][0] == 0x66 || nops[5][0] == 0x0f) && nops[9][0] == nops[5][0]
      && nops[5][2] != 0x3e && nops[5][2] != 0xf0
      && (forall j | 0 <= j < 5 && j != 2 :: nops[5][j] == nops[9][j])
      && (t.P6? ==> nops[5] == nops[9])
  {
    assert IdealNops(t)[5] == Macro(t, 5);
    assert IdealNops(t)[9] == Macro(t, 9);
  }

  lemma NopBytes(t: Table)
    ensures var n, m := IdealNops(t)[5], IdealNops(t)[9];
      && m[0] == n[0] && n[0] in {0x0f, 0x66} && n[1] in {0x1f, 0x66} && n[2] in {0x44, 0x90} && n[3] in {0x00, 0x66}
      && !(n[1] == n[0] && n[2] == n[1])
  {
    assert IdealNops(t)[5] == Macro(t, 5) && IdealNops(t)[9] == Macro(t, 9);
  }

  lemma FirstBytes(s: seq<byte>, i: nat, pattern: seq<byte>)
    requires |pattern| == 5
    ensures HasAt(s, i, pattern) ==> s[i] == pattern[0] && s[i + 1] == pattern[1] && s[i + 2] == pattern[2]
  {
    if HasAt(s, i, pattern) {
      assert s[i] == s[i..i + 5][0] && s[i + 1] == s[i..i + 5][1] && s[i + 2] == s[i..i + 5][2];
    }
  }

  /** Either the first byte of a site differs, or at most its third, and then it is NOP against atomic NOP. */
  lemma SiteCases(p: Page, t: Table, s: nat)
    requires Valid(p) && p.nops == IdealNops(t) && LegalLabel(p, s)
    ensures !Differs(p, s) ==> forall k | s <= k < s + 5 && k != s + 2 :: !Differs(p, k)
    ensures !Differs(p, s) && Differs(p, s + 2) ==> p.loaded[s..s + 5] == p.nops[5] && p.inMem[s..s + 5] == p.nops[9]
    ensures Differs(p, s) ==> p.loaded[s] != 0x90 && p.inMem[s] != 0x90
  {
    NopFacts(t);
    var d := p.jumpEntries[Address(p, s)];
    var l, m := p.loaded[s..s + 5], p.inMem[s..s + 5];
    assert forall j | 0 <= j < 5 :: l[j] == p.loaded[s + j] && m[j] == p.inMem[s + j];
    assert JumpBytes(d)[0] == 0xe9;
    assert l[0] == p.loaded[s] && m[0] == p.inMem[s];
    assert l[2] == p.loaded[s + 2] && m[2] == p.inMem[s + 2];
    forall k | s <= k < s + 5 ensures p.loaded[k] == l[k - s] && p.inMem[k] == m[k - s] {}
  }

  /** Memory at a legal label is what the label rule looks for. */
  lemma LabelIsValidJmpLabel(p: Page, s: nat)
    requires Valid(p) && LegalLabel(p, s)
    ensures ValidJmpLabel(p, Address(p, s), s)
  {
    var d := p.jumpEntries[Address(p, s)];
    var m := p.inMem[s..s + 5];
    if m == JumpBytes(d) {
      LoadStore32(d);
      assert m[0] == 0xe9 && m[1..5] == Store(d, 4);
      assert p.inMem[s + 1..s + 5] == m[1..5];
    }
  }

  /** A run head at the start of a label is accepted, and the scan leaves the site. */
  lemma LabelStart(p: Page, t: Table, s: nat)
    requires Valid(p) && p.nops == IdealNops(t) && LegalLabel(p, s) && Differs(p, s)
    ensures InHypercallPage(p, s) || Tolerated(p, s) >= 5
  {
    SiteCases(p, t, s);
    LabelIsValidJmpLabel(p, s);
  }

  /** A run head at the third byte of a NOP that memory holds in its atomic form. */
  lemma LabelThirdByte(p: Page, t: Table, s: nat)
    requires Valid(p) && p.nops == IdealNops(t) && LegalLabel(p, s) && !Differs(p, s) && Differs(p, s + 2)
    ensures t.K8? && (InHypercallPage(p, s + 2) || Tolerated(p, s + 2) == 6)
  {
    SiteCases(p, t, s);
    NopFacts(t);
    assert p.loaded[s..s + 5][2] == p.loaded[s + 2] && p.inMem[s..s + 5][2] == p.inMem[s + 2];
  }

  /** A lock is passed over alone, or with four bytes behind it by the call rule. */
  lemma LockAccepted(p: Page, t: Table, locks: set<nat>, o: nat)
    requires Valid(p) && p.nops == IdealNops(t) && LegalLock(p, o) && Differs(p, o)
    requires o > 0 && o - 1 in locks ==> LegalLock(p, o - 1)
    ensures Tolerated(p, o) == if !InHypercallPage(p, o) && CallsGenericUnrolled(p, o) then 5 else 1
    ensures CallsGenericUnrolled(p, o) ==> MayFollowOpcode(locks, o)
  {
    NopBytes(t);
    if o > 1 {
      FirstBytes(p.loaded, o - 2, p.nops[5]);
    }
    FirstBytes(p.loaded, o, [0x0f, 0x1f, 0x44, 0x00, 0x00]);
    FirstBytes(p.loaded, o, [0xe9, 0, 0, 0, 0]);
    FirstBytes(p.inMem, o, p.nops[5]);
    FirstBytes(p.inMem, o, p.nops[9]);
  }

  // ---- The whole page -------------------------------------------------------------

  /** The ignored page is an interval much longer than a label. */
  lemma IgnoredIsInterval(base: int, i: int, j: int, k: int)
    requires i <= j <= k < i + 0x1000
    ensures Ignored(base, i) && Ignored(base, k) ==> Ignored(base, j)
    ensures !Ignored(base, i) && Ignored(base, j) ==> Ignored(base, k)
  {
    var x := (base + i) % TWO_64;
    ShiftedAddress(base + i, j - i);
    ShiftedAddress(base + i, k - i);
  }

  lemma ShiftedAddress(x: int, d: int)
    requires 0 <= d < 0x1000
    ensures (x + d) % TWO_64 == if x % TWO_64 + d < TWO_64 then x % TWO_64 + d else x % TWO_64 + d - TWO_64
  {
    var q := x / TWO_64;
    if x % TWO_64 + d < TWO_64 {
      RemainderIs(x + d, q, x % TWO_64 + d);
    } else {
      RemainderIs(x + d, q + 1, x % TWO_64 + d - TWO_64);
    }
  }

  lemma RemainderIs(x: int, q: int, r: int)
    requires x == q * TWO_64 + r && 0 <= r < TWO_64
    ensures x % TWO_64 == r
  {
  }

  lemma ExposedEnds(base: int, s: nat, i: nat, j: nat)
    requires s < i <= j < s + 5 && !Exposed(base, s, i)
    ensures !Exposed(base, s, j)
  {
    var from, to := if i < s + 2 then s + 2 else i, if j < s + 2 then s + 2 else j;
    IgnoredIsInterval(base, s, from, to);
  }

  /**
   The scan, standing at `i` inside a label, has nothing left to stumble over: the site's first
   byte agrees, or all it can still meet lies in the ignored page.
   */
  ghost predicate SafeAt(p: Page, labels: set<nat>, i: nat)
    requires Valid(p) && forall s | s in labels :: s + 5 <= |p.loaded|
  {
    forall s | s in labels && s < i < s + 5 :: !Differs(p, s) || !Exposed(p.base, s, i)
  }

  lemma {:induction false} HeadIsAccepted(p: Page, t: Table, labels: set<nat>, locks: set<nat>, i: nat)
    returns (step: nat)
    requires Valid(p) && LegalAndSpaced(p, t, labels, locks)
    requires SafeAt(p, labels, i) && Head(p, i)
    ensures step > 0 && MarkAt(p, i) == Run(step) && SafeAt(p, labels, i + step)
  {
    step := Tolerated(p, i);
    if i in locks {
      LockHeadIsLeft(p, t, labels, locks, i);
    } else {
      var s := LabelAround(p, labels, locks, i);
      LabelHeadIsAccepted(p, t, labels, locks, s, i);
      LabelHeadIsLeft(p, t, labels, locks, s, i, i + step);
    }
  }

  lemma LabelAround(p: Page, labels: set<nat>, locks: set<nat>, i: nat) returns (s: nat)
    requires Valid(p) && Legal(p, labels, locks) && i < |p.loaded| && Differs(p, i) && i !in locks
    ensures s in labels && s <= i < s + 5
  {
    s :| s in labels && s <= i < s + 5;
  }

  lemma {:induction false} LockHeadIsLeft(p: Page, t: Table, labels: set<nat>, locks: set<nat>, i: nat)
    requires Valid(p) && LegalAndSpaced(p, t, labels, locks) && i in locks && Head(p, i)
    ensures Tolerated(p, i) > 0 && SafeAt(p, labels, i + Tolerated(p, i))
  {
    var next := i + Tolerated(p, i);
    LockAccepted(p, t, locks, i);
    forall s | s in labels && s < next < s + 5 ensures !Exposed(p.base, s, next) {
      assert i < s && next == i + 5 && i in Calls(p.loaded, p.base, p.owner, locks);
    }
  }

  /** A run head inside a label the scan stands safely in. */
  lemma {:induction false} LabelHeadIsAccepted(p: Page, t: Table, labels: set<nat>, locks: set<nat>, s: nat, i: nat)
    requires Valid(p) && LegalAndSpaced(p, t, labels, locks)
    requires s in labels && s <= i < s + 5 && Head(p, i) && SafeAt(p, labels, i)
    ensures InHypercallPage(p, i) ==> Tolerated(p, i) == 1
    ensures !InHypercallPage(p, i) ==> Tolerated(p, i) > 0 && s + 5 <= i + Tolerated(p, i) <= s + Gap(t)
    ensures !InHypercallPage(p, i) ==> !Ignored(p.base, s)
  {
    SiteCases(p, t, s);
    ShieldedWhole(p, t, labels, locks, s, i);
    if !InHypercallPage(p, i) {
      if i == s {
        LabelStart(p, t, s);
      } else if !Differs(p, s) {
        LabelThirdByte(p, t, s);
      } else {
        SafeIsShielded(p, labels, s, i);
      }
    }
  }

  lemma ShieldedWhole(p: Page, t: Table, labels: set<nat>, locks: set<nat>, s: nat, i: nat)
    requires Valid(p) && LegalAndSpaced(p, t, labels, locks) && s in labels && s <= i < s + 5
    ensures Ignored(p.base, s) ==> InHypercallPage(p, i)
  {
    IgnoredIsInterval(p.base, s, i, s + 4);
  }

  lemma SafeIsShielded(p: Page, labels: set<nat>, s: nat, i: nat)
    requires Valid(p) && (forall s | s in labels :: s + 5 <= |p.loaded|) && SafeAt(p, labels, i)
    requires s in labels && s < i < s + 5 && Differs(p, s) && Head(p, i)
    ensures Ignored(p.base, s) || InHypercallPage(p, i)
  {
  }

  /** Behind it the scan stands safely again. */
  lemma {:induction false} LabelHeadIsLeft(p: Page, t: Table, labels: set<nat>, locks: set<nat>, s: nat, i: nat,
    next: nat)
    requires Valid(p) && LegalAndSpaced(p, t, labels, locks)
    requires s in labels && s <= i < s + 5 && Head(p, i) && SafeAt(p, labels, i) && next == i + Tolerated(p, i)
    ensures SafeAt(p, labels, next)
  {
    forall b | b in labels && b < next < b + 5 ensures !Differs(p, b) || !Exposed(p.base, b, next) {
      SafeBehind(p, t, labels, locks, s, i, b, next);
    }
  }

  lemma {:induction false} SafeBehind(p: Page, t: Table, labels: set<nat>, locks: set<nat>, s: nat, i: nat, b: nat,
    next: nat)
    requires Valid(p) && LegalAndSpaced(p, t, labels, locks)
    requires s in labels && s <= i < s + 5 && Head(p, i) && SafeAt(p, labels, i)
    requires next == i + Tolerated(p, i) && b in labels && b < next < b + 5
    ensures !Differs(p, b) || !Exposed(p.base, b, next)
  {
    LabelHeadIsAccepted(p, t, labels, locks, s, i);
    if b == s {
      StaysInside(p, labels, s, i, next);
    } else {
      NextIsShielded(p, t, labels, locks, s, i, b);
      ExposedEnds(p.base, b, b + 1, next);
    }
  }

  /** In the same label it can only be in the ignored page. */
  lemma StaysInside(p: Page, labels: set<nat>, s: nat, i: nat, next: nat)
    requires Valid(p) && (forall s | s in labels :: s + 5 <= |p.loaded|) && SafeAt(p, labels, i) && s in labels
    requires s <= i < next < s + 5 && InHypercallPage(p, i)
    ensures !Differs(p, s) || !Exposed(p.base, s, next)
  {
    if i > s {
      StaysSafe(p, s, i, next);
    }
  }

  /** A label the scan would land in. */
  lemma NextIsShielded(p: Page, t: Table, labels: set<nat>, locks: set<nat>, s: nat, i: nat, b: nat)
    requires Valid(p) && LegalAndSpaced(p, t, labels, locks) && s in labels && b in labels && b != s
    requires s <= i < s + 5 && b < i + Tolerated(p, i) < b + 5
    requires InHypercallPage(p, i) ==> Tolerated(p, i) == 1
    requires !InHypercallPage(p, i) ==> i + Tolerated(p, i) <= s + Gap(t) && !Ignored(p.base, s)
    ensures !Exposed(p.base, b, b + 1)
  {
    assert s < b < s + Gap(t);
  }

  lemma StaysSafe(p: Page, s: nat, i: nat, next: nat)
    requires Valid(p) && s < i <= next < s + 5 <= |p.loaded|
    requires !Differs(p, s) || !Exposed(p.base, s, i)
    ensures !Differs(p, s) || !Exposed(p.base, s, next)
  {
    if Differs(p, s) {
      ExposedEnds(p.base, s, i, next);
    }
  }

  lemma BeforeLabelAgrees(p: Page, t: Table, labels: set<nat>, locks: set<nat>, i: nat)
    requires Valid(p) && LegalAndSpaced(p, t, labels, locks)
    requires i in labels && 0 < i < |p.loaded| && Exposed(p.base, i, i + 1)
    ensures !Differs(p, i - 1)
  {}

  lemma QuietIsSafe(p: Page, t: Table, labels: set<nat>, locks: set<nat>, i: nat)
    requires Valid(p) && LegalAndSpaced(p, t, labels, locks)
    requires SafeAt(p, labels, i) && i < |p.loaded| && !Head(p, i)
    ensures SafeAt(p, labels, i + 1)
  {
    var next := i + 1;
    forall s | s in labels && s < next < s + 5 ensures !Differs(p, s) || !Exposed(p.base, s, next) {
      if s < i {
        StaysSafe(p, s, i, next);
      } else if Exposed(p.base, i, next) && i > 0 {
        BeforeLabelAgrees(p, t, labels, locks, i);
      }
    }
  }

  /** Wherever the scan safely stands, it moves on to another such place. */
  lemma ScanMoves(p: Page, t: Table, labels: set<nat>, locks: set<nat>, i: nat) returns (next: nat)
    requires Valid(p) && LegalAndSpaced(p, t, labels, locks)
    requires SafeAt(p, labels, i) && i < |p.loaded|
    ensures next > i && SafeAt(p, labels, next) && Stop(Marks(p), i) == Stop(Marks(p), next)
  {
    if Head(p, i) {
      var step := HeadIsAccepted(p, t, labels, locks, i);
      next := i + step;
    } else {
      QuietIsSafe(p, t, labels, locks, i);
      next := i + 1;
    }
    MarkMoves(p, i, next);
  }

  lemma {:induction false} ScanPasses(p: Page, t: Table, labels: set<nat>, locks: set<nat>, i: nat)
    requires Valid(p) && LegalAndSpaced(p, t, labels, locks)
    requires SafeAt(p, labels, i)
    ensures Stop(Marks(p), i) == |p.loaded|
    decreases |p.loaded| - i
  {
    if i < |p.loaded| {
      var next := ScanMoves(p, t, labels, locks, i);
      ScanPasses(p, t, labels, locks, next);
    }
  }

  /** Two legal states of one page whose sites are spaced are never reported. */
  lemma LegalPageIntact(p: Page, t: Table, labels: set<nat>, locks: set<nat>)
    requires Valid(p) && LegalAndSpaced(p, t, labels, locks)
    ensures Scan(p) == Intact
  {
    ScanPasses(p, t, labels, locks, 0);
  }
}
