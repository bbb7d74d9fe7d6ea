/**
 How far apart sites must be: for every arrangement on a page at any address that is not spaced there is a
 legal page that the scan reports, so being spaced is the exact condition on the arrangement.
 */
module Spacing {
  import opened Bytes
  import opened Nops
  import opened SkipScan
  import opened PageScan
  import opened KernelText
  import opened LegalPages

  // ---- A scan that stumbles ---------------------------------------------------------

  /** The scan accepts the first run, moves on past it, and stops at a later head that no rule accepts. */
  lemma StopsBehind(p: Page, first: nat, landing: nat, h: nat)
    requires Valid(p) && first < landing <= h < |p.loaded|
    requires Head(p, first) && landing == first + Tolerated(p, first)
    requires forall k: nat | k < first :: !Head(p, k)
    requires forall k: nat | landing <= k < h :: !Head(p, k)
    requires Head(p, h) && Tolerated(p, h) == 0
    ensures Stop(Marks(p), 0) == h && Scan(p) == VerdictAt(p, h) && Scan(p) != Intact
  {
    var marks := Marks(p);
    assert marks[first] == Run(landing - first) && marks[h] == Run(0);
    StopsAtSecond(marks, first, landing, h);
  }

  /** The scan moves one by one through heads in the ignored page, and stops behind. */
  lemma StopsBehindIgnored(p: Page, h: nat)
    requires Valid(p) && Head(p, h) && Tolerated(p, h) == 0
    requires forall k: nat | k < h :: Head(p, k) ==> InHypercallPage(p, k)
    ensures Scan(p) == VerdictAt(p, h) && Scan(p) != Intact
  {
    var marks := Marks(p);
    assert marks[h] == Run(0);
    forall k | 0 <= k < h ensures marks[k] == Quiet || marks[k] == Run(1) {
      assert marks[k] == MarkAt(p, k);
    }
    StopOneByOne(marks, 0, h);
  }

  /**
   Inside a label that is a NOP in the reference and a jump in memory, a head behind the second byte is
   accepted by no rule.
   */
  lemma TailIsRejected(p: Page, t: Table, s: nat, h: nat)
    requires Valid(p) && p.nops == IdealNops(t) && s + 5 <= |p.loaded| && s + 2 <= h < s + 5
    requires p.loaded[s..s + 5] == p.nops[5] && p.inMem[s] == 0xe9
    requires !InHypercallPage(p, h) && Address(p, h) !in p.jumpEntries
    ensures Tolerated(p, h) == 0
  {
    var n := p.nops[5];
    NopBytes(t);
    ByteInSite(p.loaded, s, h, n);
    ByteInSite(p.loaded, s, h - 1, n);
    NoAtomicAt(p, t, s, h);
    NoRuleApplies(p, h);
  }

  lemma NoAtomicAt(p: Page, t: Table, s: nat, h: nat)
    requires Valid(p) && p.nops == IdealNops(t) && s + 5 <= |p.loaded| && s + 2 <= h < s + 5
    requires p.loaded[s..s + 5] == p.nops[5] && p.inMem[s] == 0xe9
    ensures !(HasAt(p.loaded, h - 2, p.nops[5]) && HasAt(p.inMem, h - 2, p.nops[9]))
  {
    NopBytes(t);
    if h == s + 2 {
      FirstBytes(p.inMem, s, p.nops[9]);
    } else {
      ByteInSite(p.loaded, s, h - 2, p.nops[5]);
      ByteInSite(p.loaded, s, h - 1, p.nops[5]);
      FirstBytes(p.loaded, h - 2, p.nops[5]);
    }
  }

  lemma NoRuleApplies(p: Page, h: nat)
    requires Valid(p) && 1 < h < |p.loaded| && !InHypercallPage(p, h) && Address(p, h) !in p.jumpEntries
    requires !(HasAt(p.loaded, h - 2, p.nops[5]) && HasAt(p.inMem, h - 2, p.nops[9]))
    requires p.loaded[h - 1] != 0xe8 && p.loaded[h] in {0x44, 0x90, 0x00, 0x66}
    ensures Tolerated(p, h) == 0
  {
    NoPatternAt(p, h);
  }

  lemma ByteInSite(img: seq<byte>, s: nat, k: nat, site: seq<byte>)
    requires s <= k < s + 5 <= |img| && img[s..s + 5] == site
    ensures img[k] == site[k - s]
  {
  }

  lemma NoPatternAt(p: Page, h: nat)
    requires Valid(p) && h < |p.loaded| && p.loaded[h] in {0x44, 0x90, 0x00, 0x66}
    ensures !HasAt(p.loaded, h, [0x0f, 0x1f, 0x44, 0x00, 0x00]) && !HasAt(p.loaded, h, [0xe9, 0, 0, 0, 0])
  {
    FirstBytes(p.loaded, h, [0x0f, 0x1f, 0x44, 0x00, 0x00]);
    FirstBytes(p.loaded, h, [0xe9, 0, 0, 0, 0]);
  }

  // ---- A page for an arrangement ----------------------------------------------------

  /**
   A page for given labels and locks: all labels are jumps in memory and most are in the reference; `plain`
   ones are NOPs in the reference, `atomic` ones moreover atomic NOPs in memory, `flipped` locks differ.
   Everything else is `fill`.
   */
  datatype Plan = Plan(t: Table, target: int, base: nat, labels: set<nat>, locks: set<nat>, size: nat, d: int,
    fill: byte, plain: set<nat>, atomic: set<nat>, flipped: set<nat>)

  ghost predicate PlanOk(q: Plan) {
    && Geometry(q.labels, q.locks, q.size) && q.size < 0x8000_0000 - 6 && q.base + q.size <= TWO_64
    && -0x8000_0000 <= q.d < 0x8000_0000
    && q.plain <= q.labels && q.atomic <= q.plain && q.flipped <= q.locks
  }

  ghost predicate InLabel(labels: set<nat>, k: nat) {
    exists s :: s in labels && s <= k < s + 5
  }

  ghost function LabelAt(labels: set<nat>, k: nat): (s: nat)
    requires InLabel(labels, k)
    ensures s in labels && s <= k < s + 5
  {
    var s :| s in labels && s <= k < s + 5;
    s
  }

  /** The five bytes of a label in the reference and in memory. */
  ghost function LoadedForm(q: Plan, s: nat): (r: seq<byte>)
    ensures |r| == 5
  {
    if s in q.plain then IdealNops(q.t)[5] else JumpBytes(q.d)
  }

  ghost function MemoryForm(q: Plan, s: nat): (r: seq<byte>)
    ensures |r| == 5
  {
    if s in q.atomic then IdealNops(q.t)[9] else JumpBytes(q.d)
  }

  ghost function LoadedByte(q: Plan, k: nat): byte {
    if InLabel(q.labels, k) then LoadedForm(q, LabelAt(q.labels, k))[k - LabelAt(q.labels, k)]
    else if k in q.locks then 0x3e
    else q.fill
  }

  ghost function MemoryByte(q: Plan, k: nat): byte {
    if InLabel(q.labels, k) then MemoryForm(q, LabelAt(q.labels, k))[k - LabelAt(q.labels, k)]
    else if k in q.flipped then 0xf0
    else LoadedByte(q, k)
  }

  ghost function LoadedBytes(q: Plan, n: nat): (r: seq<byte>)
    ensures |r| == n
  {
    if n == 0 then [] else LoadedBytes(q, n - 1) + [LoadedByte(q, n - 1)]
  }

  ghost function MemoryBytes(q: Plan, n: nat): (r: seq<byte>)
    ensures |r| == n
  {
    if n == 0 then [] else MemoryBytes(q, n - 1) + [MemoryByte(q, n - 1)]
  }

  lemma {:induction false} LoadedAt(q: Plan, n: nat, k: nat)
    requires k < n
    ensures LoadedBytes(q, n)[k] == LoadedByte(q, k)
  {
    if k < n - 1 {
      LoadedAt(q, n - 1, k);
    }
  }

  lemma {:induction false} MemoryAt(q: Plan, n: nat, k: nat)
    requires k < n
    ensures MemoryBytes(q, n)[k] == MemoryByte(q, k)
  {
    if k < n - 1 {
      MemoryAt(q, n - 1, k);
    }
  }

  lemma ByteAt(q: Plan, n: nat, k: nat)
    requires k < n
    ensures LoadedBytes(q, n)[k] == LoadedByte(q, k) && MemoryBytes(q, n)[k] == MemoryByte(q, k)
  {
    LoadedAt(q, n, k);
    MemoryAt(q, n, k);
  }

  ghost function PageFor(q: Plan): (p: Page)
    requires PlanOk(q)
    ensures Valid(p) && |p.loaded| == q.size && p.nops == IdealNops(q.t)
    ensures p.owner == KernelText(q.target) && p.base == q.base
  {
    Page(LoadedBytes(q, q.size), MemoryBytes(q, q.size), q.base, 0, q.size, KernelText(q.target), IdealNops(q.t),
      EntriesOf(q.base, q.labels, q.d), q.locks)
  }

  /** The labels by their addresses, all with the same displacement. */
  ghost function EntriesOf(base: int, labels: set<nat>, d: int): (entries: map<int, int>)
    decreases labels
  {
    if labels == {} then map[]
    else
      var s :| s in labels;
      EntriesOf(base, labels - {s}, d)[base + s := d]
  }

  lemma {:induction false} EntryIs(base: int, labels: set<nat>, d: int, k: nat)
    ensures base + k in EntriesOf(base, labels, d) <==> k in labels
    ensures k in labels ==> EntriesOf(base, labels, d)[base + k] == d
    decreases labels
  {
    if labels != {} {
      var s :| s in labels && EntriesOf(base, labels, d) == EntriesOf(base, labels - {s}, d)[base + s := d];
      EntryIs(base, labels - {s}, d, k);
    }
  }

  lemma PageAddresses(q: Plan, k: nat)
    requires PlanOk(q) && k < q.size
    ensures Address(PageFor(q), k) == q.base + k
    ensures q.base + k in PageFor(q).jumpEntries <==> k in q.labels
    ensures k in q.labels ==> PageFor(q).jumpEntries[q.base + k] == q.d
  {
    InRange64(q.base + k);
    EntryIs(q.base, q.labels, q.d, k);
  }

  lemma InRange64(x: int)
    requires 0 <= x < TWO_64
    ensures x % TWO_64 == x
  {
  }

  lemma LabelByte(q: Plan, s: nat, k: nat)
    requires PlanOk(q) && s in q.labels && s <= k < s + 5
    ensures k < q.size && PageFor(q).loaded[k] == LoadedForm(q, s)[k - s]
    ensures PageFor(q).inMem[k] == MemoryForm(q, s)[k - s]
  {
    assert InLabel(q.labels, k) && LabelAt(q.labels, k) == s;
    FormByte(q, s, k);
    ByteAt(q, q.size, k);
  }

  lemma FormByte(q: Plan, s: nat, k: nat)
    requires s <= k < s + 5 && InLabel(q.labels, k) && LabelAt(q.labels, k) == s
    ensures LoadedByte(q, k) == LoadedForm(q, s)[k - s] && MemoryByte(q, k) == MemoryForm(q, s)[k - s]
  {
  }

  lemma LabelBytes(q: Plan, s: nat)
    requires PlanOk(q) && s in q.labels
    ensures var p := PageFor(q);
      s + 5 <= q.size && p.loaded[s..s + 5] == LoadedForm(q, s) && p.inMem[s..s + 5] == MemoryForm(q, s)
  {
    var p := PageFor(q);
    forall k | s <= k < s + 5 ensures p.loaded[k] == LoadedForm(q, s)[k - s] && p.inMem[k] == MemoryForm(q, s)[k - s] {
      LabelByte(q, s, k);
    }
  }

  lemma LockBytes(q: Plan, o: nat)
    requires PlanOk(q) && o in q.locks
    ensures var p := PageFor(q);
      o < q.size && p.loaded[o] == 0x3e && p.inMem[o] == if o in q.flipped then 0xf0 else 0x3e
  {
    assert !InLabel(q.labels, o);
    ByteAt(q, q.size, o);
  }

  /** Where reference and memory differ at all. */
  lemma DiffersOnlyThere(q: Plan, k: nat)
    requires PlanOk(q) && k < q.size
    ensures Differs(PageFor(q), k) ==> k in q.flipped || exists s :: s in q.plain && s <= k < s + 5
  {
    ByteAt(q, q.size, k);
    if InLabel(q.labels, k) && Differs(PageFor(q), k) {
      var s := LabelAt(q.labels, k);
      LabelByte(q, s, k);
      assert s in q.plain;
    }
  }

  lemma PlanLabelIsLegal(q: Plan, s: nat)
    requires PlanOk(q) && s in q.labels
    ensures LegalLabel(PageFor(q), s)
  {
    LabelBytes(q, s);
    PageAddresses(q, s);
  }

  lemma PlanLockIsLegal(q: Plan, o: nat)
    requires PlanOk(q) && o in q.locks
    ensures LegalLock(PageFor(q), o)
  {
    LockBytes(q, o);
  }

  lemma PlanIsLegal(q: Plan)
    requires PlanOk(q)
    ensures Legal(PageFor(q), q.labels, q.locks)
  {
    var p := PageFor(q);
    forall s | s in q.labels ensures LegalLabel(p, s) {
      PlanLabelIsLegal(q, s);
    }
    forall o | o in q.locks ensures LegalLock(p, o) {
      PlanLockIsLegal(q, o);
    }
    forall k: nat | k < q.size && Differs(p, k)
      ensures k in q.locks || exists s :: s in q.labels && s <= k < s + 5
    {
      DiffersOnlyThere(q, k);
    }
  }

  // ---- The displacement that hides and reveals --------------------------------------

  /**
   The displacement bytes: as the NOP's before byte `turn` of the site, but for its opcode, and different
   there. The last one is `fill`.
   */
  function Operand(t: Table, turn: nat, fill: byte): (r: seq<byte>)
    ensures |r| == 4
  {
    var n := IdealNops(t)[5];
    [n[1], if turn > 2 then n[2] else 1, if turn > 3 then n[3] else 1, fill]
  }

  function Revealing(t: Table, turn: nat, fill: byte): (d: int)
    ensures -0x8000_0000 <= d < 0x8000_0000
  {
    Int32(Load(Operand(t, turn, fill)))
  }

  lemma RevealingBytes(t: Table, turn: nat, fill: byte)
    ensures JumpBytes(Revealing(t, turn, fill)) == [0xe9] + Operand(t, turn, fill)
  {
    var r := Operand(t, turn, fill);
    Widths();
    StoreEqual(Int32(Load(r)), Load(r), 4);
    StoreLoad(r);
  }

  const CALL: byte := 0xe8
  const PLAIN: byte := 1

  /** The displacement of the plan is that one. */
  ghost predicate Turns(q: Plan, turn: nat) {
    q.d == Revealing(q.t, turn, q.fill) && 2 <= turn < 5 && q.fill in {CALL, PLAIN}
  }

  /** A plain label that is a jump in memory: it differs in its first byte and where it turns, not before. */
  lemma PlainLabelDiffers(q: Plan, turn: nat, s: nat)
    requires PlanOk(q) && Turns(q, turn) && s in q.plain && s !in q.atomic
    ensures var p := PageFor(q);
      && s + 5 <= q.size && p.inMem[s] == 0xe9 && p.loaded[s..s + 5] == p.nops[5]
      && Differs(p, s) && !Differs(p, s + 1) && Head(p, s + turn) && Differs(p, s + 4)
  {
    RevealingBytes(q.t, turn, q.fill);
    NopBytes(q.t);
    LabelBytes(q, s);
    var j, n := [0xe9] + Operand(q.t, turn, q.fill), IdealNops(q.t)[5];
    forall k | s <= k < s + 5 ensures PageFor(q).loaded[k] == n[k - s] && PageFor(q).inMem[k] == j[k - s] {
      LabelByte(q, s, k);
    }
    JumpAgainstNop(PageFor(q), q.t, s, turn, q.fill, j, n);
  }

  lemma JumpAgainstNop(p: Page, t: Table, s: nat, turn: nat, fill: byte, j: seq<byte>, n: seq<byte>)
    requires Valid(p) && s + 5 <= |p.loaded| && 2 <= turn < 5 && fill in {CALL, PLAIN}
    requires n == IdealNops(t)[5] && j == [0xe9] + Operand(t, turn, fill)
    requires forall k | s <= k < s + 5 :: p.loaded[k] == n[k - s] && p.inMem[k] == j[k - s]
    ensures Differs(p, s) && !Differs(p, s + 1) && Head(p, s + turn) && Differs(p, s + 4)
  {
    NopBytes(t);
    assert n == Macro(t, 5);
    assert forall i | 0 <= i < 5 :: p.loaded[s + i] == n[i] && p.inMem[s + i] == j[i];
  }

  /** Where it turns, outside the ignored page, no rule accepts it. */
  lemma PlainLabel(q: Plan, turn: nat, s: nat, h: nat)
    requires PlanOk(q) && Turns(q, turn) && s in q.plain && s !in q.atomic
    requires h == s + turn && !Ignored(q.base, h)
    ensures var p := PageFor(q);
      && s + 5 <= q.size && Differs(p, s) && !Differs(p, s + 1)
      && Head(p, h) && Tolerated(p, h) == 0 && p.inMem[s] == 0xe9
  {
    PlainLabelDiffers(q, turn, s);
    PageAddresses(q, h);
    TailIsRejected(PageFor(q), q.t, s, h);
  }

  // ---- The four ways of standing badly ----------------------------------------------

  /** The arrangement's page for one case. */
  function PlanFor(t: Table, target: int, base: nat, labels: set<nat>, locks: set<nat>, size: nat, turn: nat,
    fill: byte, plain: set<nat>, atomic: set<nat>, flipped: set<nat>): (q: Plan)
  {
    Plan(t, target, base, labels, locks, size, Revealing(t, turn, fill), fill, plain, atomic, flipped)
  }

  /** A legal page at this address with these labels and locks that the scan reports. */
  ghost predicate Caught(p: Page, t: Table, target: int, base: nat, labels: set<nat>, locks: set<nat>, size: nat) {
    && Valid(p) && |p.loaded| == size && p.base == base && p.nops == IdealNops(t) && p.owner == KernelText(target)
    && Legal(p, labels, locks) && Scan(p) != Intact
  }

  lemma PlanIsCaught(q: Plan) returns (p: Page)
    requires PlanOk(q) && Scan(PageFor(q)) != Intact
    ensures Caught(p, q.t, q.target, q.base, q.labels, q.locks, q.size)
  {
    p := PageFor(q);
    PlanIsLegal(q);
  }

  /** Where the arrangement is on a page, so that a page can be made for it. */
  predicate Placed(base: nat, labels: set<nat>, locks: set<nat>, size: nat) {
    Geometry(labels, locks, size) && size < 0x8000_0000 - 6 && base + size <= TWO_64
  }

  /** A label that begins in the ignored page and ends behind it: its tail is met by the rules alone. */
  lemma RunsOut(t: Table, target: int, base: nat, labels: set<nat>, locks: set<nat>, size: nat, s: nat)
    returns (p: Page)
    requires Placed(base, labels, locks, size) && s in labels && Ignored(base, s) && !Ignored(base, s + 4)
    ensures Caught(p, t, target, base, labels, locks, size)
  {
    var turn := FirstMet(base, s);
    var q := PlanFor(t, target, base, labels, locks, size, turn, PLAIN, {s}, {}, {});
    TailIsMet(q, turn, s, s + turn);
    p := PlanIsCaught(q);
  }

  /** The first byte behind the second that is not ignored. */
  lemma FirstMet(base: int, s: nat) returns (turn: nat)
    requires !Ignored(base, s + 4)
    ensures 2 <= turn < 5 && !Ignored(base, s + turn) && forall k | s + 2 <= k < s + turn :: Ignored(base, k)
  {
    turn := if !Ignored(base, s + 2) then 2 else if !Ignored(base, s + 3) then 3 else 4;
  }

  lemma TailIsMet(q: Plan, turn: nat, s: nat, h: nat)
    requires PlanOk(q) && Turns(q, turn) && q.plain == {s} && q.atomic == {} && q.flipped == {} && h == s + turn
    requires Ignored(q.base, s) && !Ignored(q.base, h) && forall k | s + 2 <= k < h :: Ignored(q.base, k)
    ensures Scan(PageFor(q)) != Intact
  {
    PlainLabel(q, turn, s, h);
    NothingBefore(q, s, s);
    OutOfIgnored(PageFor(q), s, h);
  }

  lemma OutOfIgnored(p: Page, s: nat, h: nat)
    requires Valid(p) && s + 1 < h < s + 5 <= |p.loaded| && Head(p, h) && Tolerated(p, h) == 0 && !Differs(p, s + 1)
    requires Ignored(p.base, s) && (forall k: nat | s + 2 <= k < h :: Ignored(p.base, k))
    requires forall k: nat | k < s :: !Head(p, k)
    ensures Scan(p) != Intact
  {
    StopsBehindIgnored(p, h);
  }

  /** Two labels closer than a skip reaches: the skip from the first ends inside the second. */
  lemma LabelsTooClose(t: Table, target: int, base: nat, labels: set<nat>, locks: set<nat>, size: nat, a: nat, b: nat)
    returns (p: Page)
    requires Placed(base, labels, locks, size) && a in labels && b in labels && a < b < a + Gap(t)
    requires Exposed(base, b, b + 1) && !Ignored(base, a)
    ensures Caught(p, t, target, base, labels, locks, size)
  {
    var first, h, atomic := a, b + 2, {};
    if b > a + 5 {
      first, atomic := a + 2, {a};
      IgnoredIsInterval(base, a, first, h);
    }
    var q := PlanFor(t, target, base, labels, locks, size, 2, PLAIN, {a, b}, atomic, {});
    PairIsReported(q, a, b, first, h);
    p := PlanIsCaught(q);
  }

  /** Two labels side by side, the first in the ignored page: its last byte hides the second's first. */
  lemma IgnoredHidesLabel(t: Table, target: int, base: nat, labels: set<nat>, locks: set<nat>, size: nat, a: nat,
    b: nat) returns (p: Page)
    requires Placed(base, labels, locks, size) && a in labels && b in labels && b == a + 5
    requires Exposed(base, b, b + 1) && Ignored(base, a) && Ignored(base, a + 4)
    ensures Caught(p, t, target, base, labels, locks, size)
  {
    var q := PlanFor(t, target, base, labels, locks, size, 2, PLAIN, {a, b}, {}, {});
    var h := b + 2;
    PlainLabelDiffers(q, 2, a);
    PlainLabel(q, 2, b, h);
    NothingBefore(q, a, a);
    SideBySide(PageFor(q), a, b);
    p := PlanIsCaught(q);
  }

  lemma SideBySide(p: Page, a: nat, b: nat)
    requires Valid(p) && b == a + 5 && b + 5 <= |p.loaded| && Head(p, b + 2) && Tolerated(p, b + 2) == 0
    requires Differs(p, a + 4) && !Differs(p, b + 1) && Ignored(p.base, a) && Ignored(p.base, a + 4)
    requires forall k: nat | k < a :: !Head(p, k)
    ensures Scan(p) != Intact
  {
    forall k: nat | k < b + 2 && Head(p, k) ensures InHypercallPage(p, k) {
      if a <= k < b {
        IgnoredIsInterval(p.base, a, k, a + 4);
      }
    }
    StopsBehindIgnored(p, b + 2);
  }

  lemma PairIsReported(q: Plan, a: nat, b: nat, first: nat, h: nat)
    requires PlanOk(q) && Turns(q, 2) && q.plain == {a, b} && q.flipped == {}
    requires !Ignored(q.base, first) && !Ignored(q.base, h)
    requires a < b && b !in q.atomic && (a in q.atomic ==> q.t.K8?)
    requires first == if a in q.atomic then a + 2 else a
    requires h == b + 2 && (first + 6 == b + 1 || first + 6 == b + 2)
    ensures Scan(PageFor(q)) != Intact
  {
    PlainLabel(q, 2, b, h);
    FirstOfPair(q, a, first);
    NothingBefore(q, a, first);
    PairScan(PageFor(q), first, first + 6, b, h);
  }

  lemma PairScan(p: Page, first: nat, landing: nat, b: nat, h: nat)
    requires Valid(p) && first < landing <= h == b + 2 < |p.loaded| && landing >= b + 1
    requires Head(p, first) && Tolerated(p, first) == landing - first && forall k: nat | k < first :: !Head(p, k)
    requires !Differs(p, b + 1) && Head(p, h) && Tolerated(p, h) == 0
    ensures Scan(p) != Intact
  {
    QuietInPair(p, landing, b, h);
    StopsBehind(p, first, landing, h);
  }

  lemma QuietInPair(p: Page, landing: nat, b: nat, h: nat)
    requires Valid(p) && b + 1 <= landing <= h == b + 2 < |p.loaded| && !Differs(p, b + 1)
    ensures forall k: nat | landing <= k < h :: !Head(p, k)
  {
  }

  /** The first label of a pair is accepted with a skip of six. */
  lemma FirstOfPair(q: Plan, a: nat, first: nat)
    requires PlanOk(q) && a in q.plain && (a in q.atomic ==> q.t.K8?) && !Ignored(q.base, first)
    requires first == if a in q.atomic then a + 2 else a
    requires q.flipped == {} && forall s | s in q.plain :: s >= a
    ensures first < q.size && Head(PageFor(q), first) && Tolerated(PageFor(q), first) == 6
    ensures a in q.atomic ==> !Differs(PageFor(q), a) && !Differs(PageFor(q), a + 1)
  {
    if a in q.atomic {
      FirstIsAtomic(q, a);
    } else {
      FirstIsJump(q, a);
    }
  }

  lemma FirstIsAtomic(q: Plan, a: nat)
    requires PlanOk(q) && q.t.K8? && a in q.atomic && !Ignored(q.base, a + 2)
    ensures var p := PageFor(q);
      && a + 2 < q.size && Head(p, a + 2) && Tolerated(p, a + 2) == 6
      && !Differs(p, a) && !Differs(p, a + 1)
  {
    AtomicDiffers(q.t);
    NopFacts(q.t);
    LabelByte(q, a, a);
    LabelByte(q, a, a + 1);
    LabelByte(q, a, a + 2);
    PlanLabelIsLegal(q, a);
    PageAddresses(q, a + 2);
    LabelThirdByte(PageFor(q), q.t, a);
  }

  lemma FirstIsJump(q: Plan, a: nat)
    requires PlanOk(q) && a in q.plain && a !in q.atomic && !Ignored(q.base, a)
    requires q.flipped == {} && forall s | s in q.plain :: s >= a
    ensures a < q.size && Head(PageFor(q), a) && Tolerated(PageFor(q), a) == 6
  {
    var p := PageFor(q);
    NopBytes(q.t);
    LabelBytes(q, a);
    LabelByte(q, a, a);
    PlanLabelIsLegal(q, a);
    PageAddresses(q, a);
    StartIsLabelRule(p, q.t, a);
    if a > 0 {
      DiffersOnlyThere(q, a - 1);
    }
  }

  lemma AtomicDiffers(t: Table)
    requires t.K8?
    ensures IdealNops(t)[5][2] != IdealNops(t)[9][2]
  {
    assert IdealNops(t)[5] == Macro(t, 5) && IdealNops(t)[9] == Macro(t, 9);
  }

  /** A head at the start of a label whose memory is a jump. */
  lemma StartIsLabelRule(p: Page, t: Table, s: nat)
    requires Valid(p) && p.nops == IdealNops(t) && LegalLabel(p, s)
    requires p.loaded[s..s + 5] == p.nops[5] && p.inMem[s] == 0xe9 && !InHypercallPage(p, s)
    ensures Tolerated(p, s) == 6
  {
    NopBytes(t);
    LabelIsValidJmpLabel(p, s);
    assert p.loaded[s] == p.loaded[s..s + 5][0];
    if s > 1 {
      FirstBytes(p.loaded, s - 2, p.nops[5]);
    }
    FirstBytes(p.inMem, s, [0x66, 0x66, 0x66, 0x66, 0x90]);
  }

  lemma NothingBefore(q: Plan, a: nat, first: nat)
    requires PlanOk(q) && first < q.size && q.flipped == {} && (forall s | s in q.plain :: s >= a)
    requires first == a || (first == a + 2 && !Differs(PageFor(q), a) && !Differs(PageFor(q), a + 1))
    ensures forall k: nat | k < first :: !Head(PageFor(q), k)
  {
    forall k: nat | k < first ensures !Differs(PageFor(q), k) {
      if k < a {
        SameBefore(q, a, k);
      }
    }
  }

  lemma SameBefore(q: Plan, a: nat, k: nat)
    requires PlanOk(q) && k < q.size && k < a
    requires (forall s | s in q.plain :: s >= a) && (forall o | o in q.flipped :: o >= a)
    ensures !Differs(PageFor(q), k)
  {
    DiffersOnlyThere(q, k);
  }

  /** A lock directly before a label: the run that begins at the lock hides the label's first byte. */
  lemma LockHidesLabel(t: Table, target: int, base: nat, labels: set<nat>, locks: set<nat>, size: nat, o: nat, s: nat)
    returns (p: Page)
    requires Placed(base, labels, locks, size) && o in locks && s in labels && s == o + 1
    requires Exposed(base, s, s + 1)
    ensures Caught(p, t, target, base, labels, locks, size)
  {
    var q := PlanFor(t, target, base, labels, locks, size, 2, PLAIN, {s}, {}, {o});
    if o > 0 {
      NoOpcode(q, 2, o - 1);
    }
    FlippedIsReported(q, 2, o, s, 1, s, s + 2);
    p := PlanIsCaught(q);
  }

  /** Without that filling the reference holds no opcode of a call at all. */
  lemma {:induction false} NoOpcode(q: Plan, turn: nat, k: nat)
    requires PlanOk(q) && Turns(q, turn) && q.fill == PLAIN && k < q.size
    ensures PageFor(q).loaded[k] != CALL
  {
    ByteAt(q, q.size, k);
    if InLabel(q.labels, k) {
      var s := LabelAt(q.labels, k);
      LabelByte(q, s, k);
      RevealingBytes(q.t, turn, q.fill);
      NopBytes(q.t);
      assert IdealNops(q.t)[5] == Macro(q.t, 5);
    }
  }

  lemma FlippedIsReported(q: Plan, turn: nat, o: nat, s: nat, step: nat, landing: nat, h: nat)
    requires PlanOk(q) && Turns(q, turn) && h == s + turn && !Ignored(q.base, h)
    requires o in q.flipped && q.plain == {s} && q.atomic == {} && q.flipped == {o} && o < s
    requires o < q.size && step == Advance(q, o) && landing == o + step
    requires landing == h || (turn == 2 && (landing == s + 1 || landing == s == o + 1))
    ensures Scan(PageFor(q)) != Intact
  {
    PlainLabel(q, turn, s, h);
    FlippedLock(q, o, s, step);
    LockScan(PageFor(q), o, step, landing, s, h);
  }

  /** How far the scan moves from a flipped lock. */
  ghost function Advance(q: Plan, o: nat): nat
    requires PlanOk(q)
  {
    if !Ignored(q.base, o) && CallsGenericUnrolled(PageFor(q), o) then 5 else 1
  }

  /** The flipped lock is the first head, passed over alone or by the call rule. */
  lemma FlippedLock(q: Plan, o: nat, s: nat, step: nat)
    requires PlanOk(q) && o in q.flipped && q.plain == {s} && q.flipped == {o} && o < s
    requires o < q.size && step == Advance(q, o)
    ensures var p := PageFor(q);
      && Head(p, o) && (forall k: nat | k < o :: !Head(p, k))
      && Tolerated(p, o) == step
  {
    FlippedAccepted(q, o, step);
    forall k: nat | k < o ensures !Differs(PageFor(q), k) {
      SameBefore(q, o, k);
    }
  }

  lemma FlippedAccepted(q: Plan, o: nat, step: nat)
    requires PlanOk(q) && o in q.flipped
    requires o < q.size && step == Advance(q, o)
    ensures Differs(PageFor(q), o) && Tolerated(PageFor(q), o) == step
  {
    PlanLockIsLegal(q, o);
    if o > 0 && o - 1 in q.locks {
      PlanLockIsLegal(q, o - 1);
    }
    LockBytes(q, o);
    PageAddresses(q, o);
    LockAccepted(PageFor(q), q.t, q.locks, o);
  }

  lemma LockScan(p: Page, o: nat, step: nat, landing: nat, s: nat, h: nat)
    requires Valid(p) && o < landing <= h < |p.loaded| && o < s && s + 1 < |p.loaded|
    requires Head(p, o) && Tolerated(p, o) == step && landing == o + step && forall k: nat | k < o :: !Head(p, k)
    requires Head(p, h) && Tolerated(p, h) == 0 && !Differs(p, s + 1)
    requires landing == h || (h == s + 2 && (landing == s + 1 || (landing == s && o + 1 == s)))
    ensures Scan(p) != Intact
  {
    QuietBetween(p, o, landing, s, h);
    StopsBehind(p, o, landing, h);
  }

  lemma QuietBetween(p: Page, o: nat, landing: nat, s: nat, h: nat)
    requires Valid(p) && o < landing <= h < |p.loaded| && Differs(p, o) && s + 1 < |p.loaded| && !Differs(p, s + 1)
    requires landing == h || (h == s + 2 && (landing == s + 1 || (landing == s && o + 1 == s)))
    ensures forall k: nat | landing <= k < h :: !Head(p, k)
  {
  }

  /** A lock two to four bytes before a label and behind a call: the call rule's skip ends inside the label. */
  lemma CallSkipsIntoLabel(t: Table, base: nat, labels: set<nat>, locks: set<nat>, size: nat, o: nat, s: nat)
    returns (target: int, p: Page)
    requires Placed(base, labels, locks, size) && o in locks && s in labels && o + 1 < s < o + 5
    requires MayFollowOpcode(locks, o) && Exposed(base, s, o + 5) && !Ignored(base, o)
    ensures Caught(p, t, target, base, labels, locks, size)
  {
    var turn := if s == o + 2 then 3 else 2;
    var q := CallPlan(t, base, labels, locks, size, turn, o, s);
    target := Reached(PageFor(q), o);
    SkippedInto(q, turn, o, s);
    p := PlanIsCaught(q);
  }

  /** The target is where the call leads, which does not depend on it. */
  lemma CallPlan(t: Table, base: nat, labels: set<nat>, locks: set<nat>, size: nat, turn: nat, o: nat, s: nat)
    returns (q: Plan)
    requires Placed(base, labels, locks, size) && o in locks && s in labels && 2 <= turn < 5 && o + 5 <= size
    ensures PlanOk(q) && o + 5 <= q.size && q.target == Reached(PageFor(q), o)
    ensures q == PlanFor(t, q.target, base, labels, locks, size, turn, CALL, {s}, {}, {o})
  {
    var away := PlanFor(t, 0, base, labels, locks, size, turn, CALL, {s}, {}, {o});
    q := away.(target := Reached(PageFor(away), o));
    SameReached(away, q, o);
  }

  lemma SameReached(q: Plan, r: Plan, o: nat)
    requires PlanOk(q) && PlanOk(r) && r == q.(target := r.target) && o + 5 <= q.size
    ensures Reached(PageFor(q), o) == Reached(PageFor(r), o)
  {
    SameLoaded(q, r, q.size);
  }

  function Reached(p: Page, o: nat): int
    requires o + 5 <= |p.loaded|
  {
    (p.base + o + Load(p.loaded[o + 1..o + 5]) + 5) % TWO_64
  }

  lemma SkippedInto(q: Plan, turn: nat, o: nat, s: nat)
    requires PlanOk(q) && Turns(q, turn) && o in q.flipped && q.plain == {s} && q.atomic == {} && q.flipped == {o}
    requires o + 1 < s < o + 5 && turn == (if s == o + 2 then 3 else 2) && !Ignored(q.base, s + turn)
    requires !Ignored(q.base, o) && MayFollowOpcode(q.locks, o) && q.fill == CALL && o + 5 <= q.size
    requires q.target == Reached(PageFor(q), o)
    ensures Scan(PageFor(q)) != Intact
  {
    OpcodeBefore(q, turn, o);
    CallIsTaken(PageFor(q), o);
    var landing, h := o + 5, s + turn;
    FlippedIsReported(q, turn, o, s, 5, landing, h);
  }

  lemma CallIsTaken(p: Page, o: nat)
    requires 0 < o && o + 5 <= |p.loaded| && p.loaded[o - 1] == CALL && p.owner == KernelText(Reached(p, o))
    ensures CallsGenericUnrolled(p, o)
  {
  }

  /** The target of the call rule is no part of the reference. */
  lemma {:induction false} SameLoaded(q: Plan, r: Plan, n: nat)
    requires r == q.(target := r.target)
    ensures LoadedBytes(q, n) == LoadedBytes(r, n)
  {
    if n > 0 {
      SameLoaded(q, r, n - 1);
    }
  }

  /** The byte before such a lock is the opcode of a call: filling, or the last byte of a jump. */
  lemma {:induction false} OpcodeBefore(q: Plan, turn: nat, o: nat)
    requires PlanOk(q) && o in q.locks && MayFollowOpcode(q.locks, o)
    requires Turns(q, turn) && q.fill == CALL && forall s | s in q.plain :: s > o
    ensures o < q.size && PageFor(q).loaded[o - 1] == CALL
  {
    ByteAt(q, q.size, o - 1);
    if InLabel(q.labels, o - 1) {
      var a := LabelAt(q.labels, o - 1);
      LabelByte(q, a, o - 1);
      RevealingBytes(q.t, turn, q.fill);
      assert o - 1 == a + 4;
    }
  }

  // ---- The exact condition ------------------------------------------------------------

  /** What is wrong with the labels and with locks directly before them fails whatever the call rule leads to. */
  lemma ReportedForAnyTarget(t: Table, target: int, base: nat, labels: set<nat>, locks: set<nat>, size: nat)
    requires Placed(base, labels, locks, size) && !Spaced(t, base, labels, locks, {})
    ensures exists p :: Caught(p, t, target, base, labels, locks, size)
  {
    if s :| s in labels && Ignored(base, s) && !Ignored(base, s + 4) {
      var p := RunsOut(t, target, base, labels, locks, size, s);
    } else if a, b :|
      a in labels && b in labels && a < b < a + Gap(t) && Exposed(base, b, b + 1) && !(Ignored(base, a) && a + 5 < b)
    {
      if Ignored(base, a) {
        var p := IgnoredHidesLabel(t, target, base, labels, locks, size, a, b);
      } else {
        var p := LabelsTooClose(t, target, base, labels, locks, size, a, b);
      }
    } else {
      var s, o :| s in labels && o in locks && Exposed(base, s, s + 1) && o + 1 == s;
      var p := LockHidesLabel(t, target, base, labels, locks, size, o, s);
    }
  }

  /**
   For an arrangement of labels and locks on a page of the kernel's text at any address, every legal page
   passes the scan, whatever its bytes and displacements and the target of the call rule, exactly if the
   sites are spaced.
   */
  lemma SpacedIff(t: Table, base: nat, labels: set<nat>, locks: set<nat>, size: nat)
    requires Placed(base, labels, locks, size)
    ensures Spaced(t, base, labels, locks, MayCall(locks))
       <==> !exists p, target :: Caught(p, t, target, base, labels, locks, size)
  {
    if Spaced(t, base, labels, locks, MayCall(locks)) {
      if p, target :| Caught(p, t, target, base, labels, locks, size) {
        LegalPageIntact(p, t, labels, locks);
      }
    } else if !Spaced(t, base, labels, locks, {}) {
      ReportedForAnyTarget(t, 0, base, labels, locks, size);
    } else {
      var s, o :| s in labels && o in MayCall(locks) && o < s < o + 5 && Exposed(base, s, o + 5) && !Ignored(base, o);
      NotDirectlyBefore(base, s, o);
      var target, p := CallSkipsIntoLabel(t, base, labels, locks, size, o, s);
    }
  }

  lemma NotDirectlyBefore(base: int, s: nat, o: nat)
    requires o < s < o + 5 && Exposed(base, s, o + 5)
    ensures Exposed(base, s, s + 1) || o + 1 != s
  {
    IgnoredIsInterval(base, s, s + 2, s + 4);
  }

  /** Away from the ignored page being spaced is a matter of distances. */
  lemma SpacedElsewhere(t: Table, base: nat, labels: set<nat>, locks: set<nat>, calls: set<nat>, size: nat)
    requires Geometry(labels, locks, size) && calls <= locks && forall k: nat | k < size :: !Ignored(base, k)
    ensures Spaced(t, base, labels, locks, calls)
       <==> (&& (forall a, b | a in labels && b in labels && a < b :: a + Gap(t) <= b)
             && (forall s, o | s in labels && o in locks :: o + 1 != s)
             && (forall s, o | s in labels && o in calls && o < s :: o + 5 <= s))
  {
    forall s, i: nat | s in labels && s < i < s + 5 ensures Exposed(base, s, i) {}
  }

  // ---- Inputs that fail ---------------------------------------------------------------

  /** A small piece of the kernel's text, with the routine of the call rule a megabyte behind it. */
  function Small(loaded: seq<byte>, inMem: seq<byte>, t: Table, entries: map<int, int>, locks: set<int>): Page {
    Page(loaded, inMem, SOMEWHERE, 0, |loaded|, KernelText(SOMEWHERE + 0x10_0000), IdealNops(t), entries, locks)
  }

  const SOMEWHERE: nat := 0xffff_ffff_8120_0000

  lemma SmallJump(d: byte)
    ensures JumpBytes(d) == [0xe9, d, 0, 0, 0]
  {
    var r: seq<byte> := [d, 0, 0, 0];
    LoadSmall(d);
    StoreLoad(r);
  }

  function SevenApart(): Page {
    Small([0x66, 0x66, 0x90, 0x66, 0x90, 1, 1, 0x66, 0x66, 0x90, 0x66, 0x90],
          [0x66, 0x66, 0x66, 0x66, 0x90, 1, 1, 0xe9, 0x66, 0x00, 0x00, 0x00], 
          K8, map[SOMEWHERE := 0, SOMEWHERE + 7 := 0x66], {})
  }

  lemma SevenApartForms()
    ensures var p := SevenApart();
      && p.loaded[0..5] == p.nops[5] && p.inMem[0..5] == p.nops[9]
      && p.loaded[7..12] == p.nops[5] && p.inMem[7..12] == JumpBytes(0x66)
  {
    SmallJump(0x66);
    assert IdealNops(K8)[5] == Macro(K8, 5) && IdealNops(K8)[9] == Macro(K8, 9);
  }

  lemma SevenApartLabels()
    ensures LegalLabel(SevenApart(), 0) && LegalLabel(SevenApart(), 7)
  {
    SevenApartForms();
  }

  /** With the K8 table labels seven bytes apart are not enough: the skip from the first ends in the second. */
  lemma SevenBytesFail()
    ensures Legal(SevenApart(), {0, 7}, {}) && Scan(SevenApart()) == Changed(9)
  {
    SevenApartLegal();
    SevenApartSkips();
    SevenApartStops();
    SevenApartHeads();
    StopsBehind(SevenApart(), 2, 8, 9);
  }

  lemma SevenApartHeads()
    ensures var p := SevenApart();
      Head(p, 2) && Head(p, 9) && forall k | 0 <= k < 2 || 8 <= k < 9 :: !Head(p, k)
  {
  }

  lemma SevenApartLegal()
    ensures Legal(SevenApart(), {0, 7}, {})
  {
    SevenApartLabels();
  }

  lemma SevenApartSkips()
    ensures Tolerated(SevenApart(), 2) == 6
  {
    SevenApartForms();
    NopToAtomic(SevenApart(), 2);
  }

  lemma NopToAtomic(p: Page, i: nat)
    requires Valid(p) && 1 < i && i + 3 <= |p.loaded| && !InHypercallPage(p, i)
    requires p.loaded[i - 2..i + 3] == p.nops[5] && p.inMem[i - 2..i + 3] == p.nops[9]
    ensures Tolerated(p, i) == 6
  {
  }

  lemma SevenApartStops()
    ensures Tolerated(SevenApart(), 9) == 0
  {
    SevenApartForms();
    TailIsRejected(SevenApart(), K8, 7, 9);
  }

  function LockFirst(): Page {
    Small([0x3e, 0x0f, 0x1f, 0x44, 0x00, 0x00, 0x00, 0x00],
          [0xf0, 0xe9, 0x1f, 0x00, 0x00, 0x00, 0x00, 0x00], P6, map[SOMEWHERE + 1 := 0x1f], {0})
  }

  lemma LockFirstSites()
    ensures LegalLabel(LockFirst(), 1) && LegalLock(LockFirst(), 0)
  {
    var p := LockFirst();
    SmallJump(0x1f);
    assert IdealNops(P6)[5] == Macro(P6, 5);
    assert p.loaded[1..6] == p.nops[5] && p.inMem[1..6] == JumpBytes(0x1f);
  }

  lemma LockFirstLegal()
    ensures Legal(LockFirst(), {1}, {0})
  {
    LockFirstSites();
  }

  /** A lock directly before a label, and a displacement that repeats the second byte of the NOP. */
  lemma LockBeforeLabelFails()
    ensures Legal(LockFirst(), {1}, {0}) && Scan(LockFirst()) == Changed(3)
  {
    LockFirstLegal();
    LockFirstSteps();
    LockFirstHeads();
    StopsBehind(LockFirst(), 0, 1, 3);
  }

  lemma LockFirstHeads()
    ensures var p := LockFirst();
      Head(p, 0) && Head(p, 3) && forall k | 1 <= k < 3 :: !Head(p, k)
  {
  }

  lemma LockFirstSteps()
    ensures Tolerated(LockFirst(), 0) == 1 && Tolerated(LockFirst(), 3) == 0
  {
    var p := LockFirst();
    LockFirstSites();
    LockAccepted(p, P6, {0}, 0);
    assert p.loaded[1..6] == Macro(P6, 5);
    TailIsRejected(p, P6, 1, 3);
  }

  /** The first two megabytes of the kernel's text, all zero but for one label. */
  function FirstPage(n: nat, at: nat, site: seq<byte>): (r: seq<byte>)
    requires |site| == 5
    ensures |r| == n && forall k | 0 <= k < n :: r[k] == if at <= k < at + 5 then site[k - at] else 0
  {
    seq(n, k requires 0 <= k < n => if at <= k < at + 5 then site[k - at] else 0)
  }

  /** The label begins in the last byte of the ignored page. */
  function RunningOut(): Page {
    var base, size, at := 0xffff_ffff_8100_0000, 0x20_0000, 0x1fff;
    Page(FirstPage(size, at, [0x0f, 0x1f, 0x44, 0x00, 0x00]), FirstPage(size, at, [0xe9, 0x1f, 0x00, 0x00, 0x00]),
      base, 0, size, KernelText(SOMEWHERE), IdealNops(P6), map[base + at := 0x1f], {})
  }

  lemma RunningOutLabel()
    ensures var p, at := RunningOut(), 0x1fff;
      && LegalLabel(p, at) && p.loaded[at..at + 5] == p.nops[5] && p.inMem[at] == 0xe9
      && InHypercallPage(p, at) && !InHypercallPage(p, at + 1) && !InHypercallPage(p, at + 2)
  {
    var p, at := RunningOut(), 0x1fff;
    SmallJump(0x1f);
    assert IdealNops(P6)[5] == Macro(P6, 5);
    assert p.loaded[at..at + 5] == p.nops[5] && p.inMem[at..at + 5] == JumpBytes(0x1f);
  }

  lemma LabelOutOfIgnoredPage()
    ensures Legal(RunningOut(), {0x1fff}, {}) && Scan(RunningOut()) == Changed(0x2001)
  {
    RunningOutLabel();
    RunningOutHeads();
    TailIsRejected(RunningOut(), P6, 0x1fff, 0x2001);
    StopsBehindIgnored(RunningOut(), 0x2001);
  }

  lemma RunningOutHeads()
    ensures var p := RunningOut();
      && Head(p, 0x2001) && Address(p, 0x2001) !in p.jumpEntries
      && forall k: nat | k < 0x2001 && Head(p, k) :: k == 0x1fff
  {
  }
}
