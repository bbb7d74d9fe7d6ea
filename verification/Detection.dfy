/**
 What the scan must not let pass, said of the bytes alone: which changes are reported, which single
 changes are not, and where the scan looks again behind a change that it lets pass.
 */
module Detection {
  import opened Bytes
  import opened Nops
  import opened SkipScan
  import opened PageScan
  import opened LegalPages
  import opened Spacing

  /** The first of a run of differing bytes. */
  predicate Begins(p: Page, i: nat)
    requires Valid(p)
  {
    i < |p.loaded| && p.loaded[i] != p.inMem[i] && (i == 0 || p.loaded[i - 1] == p.inMem[i - 1])
  }

  ghost predicate NoneBegins(p: Page, from: nat, to: nat)
    requires Valid(p)
  {
    forall k: nat | from <= k < to :: !Begins(p, k)
  }

  /** Five bytes of a page that is long enough for them. */
  predicate Reads(s: seq<byte>, i: int, five: seq<byte>) {
    0 <= i && i + 5 <= |s| && s[i..i + 5] == five
  }

  const IGNORED_PAGE: int := 0xffff_ffff_8100_1

  /**
   Nothing can excuse a difference here: the address is not in the ignored page, no label and no lock is
   recorded for it, and the reference holds neither a 5-byte NOP around it, nor one of the two patterns, nor the
   opcode of a call before it.
   */
  ghost predicate Inexcusable(p: Page, i: nat)
    requires Valid(p)
  {
    && 1 < i < |p.loaded|
    && (p.base + i) % TWO_64 / 0x1000 != IGNORED_PAGE
    && (p.base + i) % TWO_64 !in p.jumpEntries
    && i + p.pageOffset !in p.smpOffsets
    && p.loaded[i - 1] != 0xe8
    && !Reads(p.loaded, i - 2, p.nops[5])
    && !Reads(p.loaded, i, [0x0f, 0x1f, 0x44, 0x00, 0x00])
    && !Reads(p.loaded, i, [0xe9, 0x00, 0x00, 0x00, 0x00])
  }

  /** What is printed for the difference at `i`: the initialised part of the kernel's text may be over. */
  predicate Reported(p: Page, i: nat)
    requires Valid(p)
  {
    Scan(p) == if p.owner.KernelText? && i >= p.initialised then Uninitialised(i) else Changed(i)
  }

  lemma InexcusableIsRejected(p: Page, i: nat)
    requires Valid(p) && Inexcusable(p, i)
    ensures Tolerated(p, i) == 0
  {
  }

  /** The lowest difference of a page is reported if nothing can excuse it. */
  lemma {:induction false} ChangeIsReported(p: Page, i: nat)
    requires Valid(p) && Inexcusable(p, i) && Begins(p, i) && NoneBegins(p, 0, i)
    ensures Reported(p, i)
  {
    InexcusableIsRejected(p, i);
    QuietUpTo(p, 0, i);
    MarkStops(p, i);
  }

  lemma QuietUpTo(p: Page, from: nat, to: nat)
    requires Valid(p) && from <= to <= |p.loaded| && NoneBegins(p, from, to)
    ensures Stop(Marks(p), from) == Stop(Marks(p), to)
  {
    forall k | from <= k < to ensures Marks(p)[k].Quiet? {
      assert !Begins(p, k);
    }
    StopSkipsQuiet(Marks(p), from, to);
  }

  // ---- Behind a change that is let pass --------------------------------------------

  /** At a recorded label memory holds the NOP, the atomic NOP or the recorded jump. */
  ghost predicate LabelHolds(p: Page, i: nat) {
    && (p.base + i) % TWO_64 in p.jumpEntries
    && -0x8000_0000 <= p.jumpEntries[(p.base + i) % TWO_64] < 0x8000_0000
    && (|| Reads(p.inMem, i, p.nops[5]) || Reads(p.inMem, i, p.nops[9])
        || Reads(p.inMem, i, [0xe9] + Store(p.jumpEntries[(p.base + i) % TWO_64], 4)))
  }

  predicate LockFlips(p: Page, i: nat)
    requires Valid(p) && i < |p.loaded|
  {
    {p.loaded[i], p.inMem[i]} == {0x3e, 0xf0} && i + p.pageOffset in p.smpOffsets
  }

  ghost predicate Ordinary(p: Page, i: nat)
    requires Valid(p) && i < |p.loaded|
  {
    1 < i && (p.base + i) % TWO_64 / 0x1000 != IGNORED_PAGE
  }

  /** From the lowest difference the scan goes on to `landing`: where the next one begins is where it reports. */
  ghost predicate LooksAgainAt(p: Page, i: nat, landing: nat)
    requires Valid(p)
  {
    forall h: nat | landing <= h && Begins(p, h) && NoneBegins(p, landing, h) && Inexcusable(p, h) :: Reported(p, h)
  }

  lemma {:induction false} MovesOn(p: Page, i: nat, landing: nat)
    requires Valid(p) && Begins(p, i) && NoneBegins(p, 0, i) && i < landing == i + Tolerated(p, i)
    ensures LooksAgainAt(p, i, landing)
  {
    QuietUpTo(p, 0, i);
    MarkMoves(p, i, landing);
    forall h: nat | landing <= h && Begins(p, h) && NoneBegins(p, landing, h) && Inexcusable(p, h)
      ensures Reported(p, h)
    {
      InexcusableIsRejected(p, h);
      QuietUpTo(p, landing, h);
      MarkStops(p, h);
    }
  }

  /** Behind a label, and behind a NOP that became an atomic one, it looks again six bytes on. */
  lemma {:induction false} LooksBehindLabel(p: Page, i: nat)
    requires Valid(p) && Begins(p, i) && NoneBegins(p, 0, i) && Ordinary(p, i) && LabelHolds(p, i)
    ensures LooksAgainAt(p, i, i + 6)
  {
    LabelIsLetPass(p, i);
    MovesOn(p, i, i + 6);
  }

  lemma {:induction false} LabelIsLetPass(p: Page, i: nat)
    requires Valid(p) && i < |p.loaded| && Ordinary(p, i) && LabelHolds(p, i)
    ensures Tolerated(p, i) == 6
  {
    var d := p.jumpEntries[Address(p, i)];
    if Reads(p.inMem, i, [0xe9] + Store(d, 4)) {
      JumpReads(p.inMem, i, d);
    }
  }

  lemma JumpReads(s: seq<byte>, i: nat, d: int)
    requires Reads(s, i, [0xe9] + Store(d, 4)) && -0x8000_0000 <= d < 0x8000_0000
    ensures s[i] == 0xe9 && Int32(Load(s[i + 1..i + 5])) == d
  {
    var five := s[i..i + 5];
    assert five[0] == s[i] && five[1..] == s[i + 1..i + 5] == Store(d, 4);
    LoadStore32(d);
  }

  /** For a NOP that became an atomic one the difference is its third byte. */
  lemma {:induction false} LooksBehindAtomic(p: Page, i: nat)
    requires Valid(p) && Begins(p, i) && NoneBegins(p, 0, i) && Ordinary(p, i)
    requires Reads(p.loaded, i - 2, p.nops[5]) && Reads(p.inMem, i - 2, p.nops[9])
    ensures LooksAgainAt(p, i, i + 6)
  {
    MovesOn(p, i, i + 6);
  }

  /** Behind a call of the routine it looks again five bytes on. */
  lemma {:induction false} LooksBehindCall(p: Page, i: nat)
    requires Valid(p) && Begins(p, i) && NoneBegins(p, 0, i) && Ordinary(p, i)
    requires p.owner.KernelText? && i + 5 <= |p.loaded| && p.loaded[i - 1] == 0xe8
    requires (p.base + i + Load(p.loaded[i + 1..i + 5]) + 5) % TWO_64 == p.owner.genericUnrolled
    requires (p.base + i) % TWO_64 !in p.jumpEntries
    requires !Reads(p.loaded, i - 2, p.nops[5]) && !Reads(p.loaded, i, [0x0f, 0x1f, 0x44, 0x00, 0x00])
    ensures LooksAgainAt(p, i, i + 5)
  {
    MovesOn(p, i, i + 5);
  }

  /** Behind a lock it looks at the very next byte. */
  lemma {:induction false} LooksBehindLock(p: Page, i: nat)
    requires Valid(p) && Begins(p, i) && NoneBegins(p, 0, i) && Ordinary(p, i) && LockFlips(p, i)
    requires p.loaded[i - 1] != 0xe8 && (p.base + i) % TWO_64 !in p.jumpEntries
    requires !Reads(p.loaded, i - 2, p.nops[5])
    ensures LooksAgainAt(p, i, i + 1)
  {
    FirstBytes(p.loaded, i, [0x0f, 0x1f, 0x44, 0x00, 0x00]);
    MovesOn(p, i, i + 1);
  }

  /** Behind a NOP of one table that became the atomic one of the other, and behind an empty jump, six bytes on. */
  lemma {:induction false} LooksBehindPatterns(p: Page, i: nat)
    requires Valid(p) && Begins(p, i) && NoneBegins(p, 0, i) && Ordinary(p, i) && p.loaded[i - 1] != 0xe8
    requires (Reads(p.loaded, i, [0x0f, 0x1f, 0x44, 0x00, 0x00]) && Reads(p.inMem, i, [0x66, 0x66, 0x66, 0x66, 0x90]))
          || (Reads(p.loaded, i, [0xe9, 0x00, 0x00, 0x00, 0x00]) && Reads(p.inMem, i, p.nops[9]))
    ensures LooksAgainAt(p, i, i + 6)
  {
    FirstBytes(p.loaded, i, [0xe9, 0x00, 0x00, 0x00, 0x00]);
    MovesOn(p, i, i + 6);
  }

  /** In the ignored page, and behind an operand prefix that is the first or second byte, the very next byte. */
  lemma {:induction false} LooksBehindOneByte(p: Page, i: nat)
    requires Valid(p) && Begins(p, i) && NoneBegins(p, 0, i)
    requires (p.base + i) % TWO_64 / 0x1000 == IGNORED_PAGE || (i <= 1 && {p.loaded[i], p.inMem[i]} == {0x66, 0x90})
    ensures LooksAgainAt(p, i, i + 1)
  {
    Either(p.loaded[i], p.inMem[i], 0x66, 0x90);
    OneByteIsLetPass(p, i);
    MovesOn(p, i, i + 1);
  }

  lemma {:induction false} OneByteIsLetPass(p: Page, i: nat)
    requires Valid(p) && i < |p.loaded|
    requires InHypercallPage(p, i)
          || (i <= 1 && ((p.loaded[i] == 0x66 && p.inMem[i] == 0x90) || (p.loaded[i] == 0x90 && p.inMem[i] == 0x66)))
    ensures Tolerated(p, i) == 1
  {
  }

  // ---- A single change -------------------------------------------------------------

  ghost predicate Lone(p: Page, i: nat)
    requires Valid(p)
  {
    i < |p.loaded| && forall k | 0 <= k < |p.loaded| :: p.loaded[k] != p.inMem[k] <==> k == i
  }

  /** The changes of one byte that are let pass. */
  ghost predicate LetPass(p: Page, i: nat)
    requires Valid(p) && i < |p.loaded|
  {
    || (p.base + i) % TWO_64 / 0x1000 == IGNORED_PAGE
    || (i <= 1 && {p.loaded[i], p.inMem[i]} == {0x66, 0x90})
    || LockFlips(p, i)
    || (Reads(p.loaded, i - 2, p.nops[5]) && Reads(p.inMem, i - 2, p.nops[9]))
    || LabelHolds(p, i)
    || (&& 0 < i && i + 5 <= |p.loaded| && p.loaded[i - 1] == 0xe8 && p.owner.KernelText?
        && (p.base + i + Load(p.loaded[i + 1..i + 5]) + 5) % TWO_64 == p.owner.genericUnrolled)
  }

  /** All recorded displacements are those of 5-byte jumps. */
  ghost predicate Recorded32(p: Page) {
    forall c | c in p.jumpEntries :: -0x8000_0000 <= p.jumpEntries[c] < 0x8000_0000
  }

  /** A page in which a single byte is changed is intact for the scan exactly if the change is one of these. */
  lemma {:induction false} LoneChangeIff(p: Page, t: Table, i: nat)
    requires Valid(p) && p.nops == IdealNops(t) && Recorded32(p) && Lone(p, i)
    ensures Scan(p) == Intact <==> LetPass(p, i)
    ensures !LetPass(p, i) ==> Reported(p, i)
  {
    assert Head(p, i) && forall k: nat | k < |p.loaded| && Head(p, k) :: k == i;
    LetPassIff(p, t, i);
    QuietUpTo(p, 0, i);
    if Tolerated(p, i) == 0 {
      MarkStops(p, i);
    } else {
      var landing := i + Tolerated(p, i);
      MarkMoves(p, i, landing);
      NothingBehind(p, landing);
    }
  }

  lemma NothingBehind(p: Page, from: nat)
    requires Valid(p) && NoneBegins(p, from, |p.loaded|)
    ensures Stop(Marks(p), from) == |p.loaded|
  {
    if from < |p.loaded| {
      QuietUpTo(p, from, |p.loaded|);
    }
  }

  lemma {:induction false} LetPassIff(p: Page, t: Table, i: nat)
    requires Valid(p) && p.nops == IdealNops(t) && Recorded32(p) && Lone(p, i)
    ensures Tolerated(p, i) > 0 <==> LetPass(p, i)
  {
    LabelRuleIff(p, i);
    NoFiveByteChange(p, t, i);
    RulesLeft(p, i);
    Either(p.loaded[i], p.inMem[i], 0x66, 0x90);
    Either(p.loaded[i], p.inMem[i], 0x3e, 0xf0);
  }

  lemma Either(l: byte, m: byte, a: byte, b: byte)
    requires a != b
    ensures {l, m} == {a, b} <==> (l == a && m == b) || (l == b && m == a)
  {
    assert l in {l, m} && m in {l, m} && a in {a, b} && b in {a, b};
  }

  /** The rules that are left where neither of the two patterns applies. */
  lemma {:induction false} RulesLeft(p: Page, i: nat)
    requires Valid(p) && i < |p.loaded|
    requires !(HasAt(p.loaded, i, [0x0f, 0x1f, 0x44, 0x00, 0x00]) && HasAt(p.inMem, i, [0x66, 0x66, 0x66, 0x66, 0x90]))
    requires !(HasAt(p.loaded, i, [0xe9, 0, 0, 0, 0]) && HasAt(p.inMem, i, p.nops[9]))
    ensures var l, m := p.loaded[i], p.inMem[i];
      Tolerated(p, i) > 0 <==>
        || InHypercallPage(p, i)
        || (Reads(p.loaded, i - 2, p.nops[5]) && Reads(p.inMem, i - 2, p.nops[9]))
        || (i <= 1 && ((l == 0x66 && m == 0x90) || (l == 0x90 && m == 0x66)))
        || ValidJmpLabel(p, Address(p, i), i)
        || CallRule(p.loaded, p.base, p.owner, i)
        || (((l == 0x3e && m == 0xf0) || (l == 0xf0 && m == 0x3e)) && i + p.pageOffset in p.smpOffsets)
  {
  }

  lemma LabelRuleIff(p: Page, i: nat)
    requires Valid(p) && Recorded32(p)
    ensures ValidJmpLabel(p, Address(p, i), i) <==> LabelHolds(p, i)
  {
    if Address(p, i) in p.jumpEntries {
      var d := p.jumpEntries[Address(p, i)];
      if Reads(p.inMem, i, [0xe9] + Store(d, 4)) {
        JumpReads(p.inMem, i, d);
      }
      if i + 5 <= |p.inMem| && p.inMem[i] == 0xe9 && Int32(Load(p.inMem[i + 1..i + 5])) == d {
        JumpIsRead(p.inMem, i, d);
      }
    }
  }

  lemma JumpIsRead(s: seq<byte>, i: nat, d: int)
    requires i + 5 <= |s| && s[i] == 0xe9 && Int32(Load(s[i + 1..i + 5])) == d
    ensures Reads(s, i, [0xe9] + Store(d, 4))
  {
    var r := s[i + 1..i + 5];
    Widths();
    StoreLoad(r);
    StoreEqual(Load(r), d, 4);
    assert s[i..i + 5] == [s[i]] + r;
  }

  /** The two patterns differ from what they may become in more than one byte. */
  lemma NoFiveByteChange(p: Page, t: Table, i: nat)
    requires Valid(p) && p.nops == IdealNops(t) && Lone(p, i)
    ensures !(HasAt(p.loaded, i, [0x0f, 0x1f, 0x44, 0x00, 0x00]) && HasAt(p.inMem, i, [0x66, 0x66, 0x66, 0x66, 0x90]))
    ensures !(HasAt(p.loaded, i, [0xe9, 0, 0, 0, 0]) && HasAt(p.inMem, i, p.nops[9]))
  {
    NopBytes(t);
    if i + 5 <= |p.loaded| {
      FirstBytes(p.loaded, i, [0x0f, 0x1f, 0x44, 0x00, 0x00]);
      FirstBytes(p.inMem, i, [0x66, 0x66, 0x66, 0x66, 0x90]);
      FirstBytes(p.loaded, i, [0xe9, 0, 0, 0, 0]);
      FirstBytes(p.inMem, i, p.nops[9]);
      assert p.loaded[i + 1] == p.inMem[i + 1];
      assert IdealNops(t)[9] == Macro(t, 9);
    }
  }
}
