/**
 SMP lock prefixes: the pass over .smp_locks that rewrites them in the text of the
 mapped ELF file, and the offsets it leaves for the page validator.
 Host pointers are offsets into the mapped file.
 */
module SmpLocks {
  import opened Bytes
  import opened Patching
  import opened Sections

  datatype Locks = Locks(img: seq<byte>, smpOffsets: set<int>)

  predicate EntryInFile(img: seq<byte>, at: int) {
    0 <= at && at + 4 <= |img|
  }

  /** The byte the lock record at `at` points to. */
  function LockPointer(img: seq<byte>, locks: Section, text: Section, at: int): int
    requires EntryInFile(img, at)
  {
    at + Int32(Load(img[at..at + 4])) - Int32((locks.index - text.index) - (locks.mem - text.mem))
  }

  function LockStep(s: Locks, locks: Section, text: Section, at: int, lock: byte, record: bool): (r: Locks)
    requires EntryInFile(s.img, at)
    ensures |r.img| == |s.img|
  {
    var ptr := LockPointer(s.img, locks, text, at);
    if !ContainsElfAddress(text, ptr) then s
    else Locks(Put(s.img, Write(ptr, [lock])), if record then s.smpOffsets + {ptr - text.index} else s.smpOffsets)
  }

  /** The records from `at` on; a last partial record is read as a whole one. */
  function LocksFrom(s: Locks, locks: Section, text: Section, at: int, lock: byte, record: bool): (r: Locks)
    requires 0 <= at && locks.index + locks.size + 3 <= |s.img|
    ensures |r.img| == |s.img|
    decreases locks.index + locks.size - at
  {
    if at >= locks.index + locks.size then s
    else LocksFrom(LockStep(s, locks, text, at, lock, record), locks, text, at + 4, lock, record)
  }

  /** 0x3e unless the guest's CPU has the "SMP kernel running on UP" feature. */
  function LockPrefix(featureUp: bool): byte {
    if featureUp then 0xf0 else 0x3e
  }

  class ElfText {
    const text: Section
    var file: array<byte>
    var smpOffsets: set<int>

    constructor (text: Section, file: array<byte>)
      ensures this.text == text && this.file == file && smpOffsets == {}
    {
      this.text, this.file, smpOffsets := text, file, {};
    }

    ghost function Contents(): Locks
      reads this, file
    {
      Locks(file[..], smpOffsets)
    }

    method ApplySmpLocks(locks: Section, featureUp: bool)
      requires 0 <= locks.index && locks.index + locks.size + 3 <= file.Length
      requires 0 <= text.index && text.index + text.size < file.Length
      modifies file, this`smpOffsets
      ensures var lock := LockPrefix(featureUp);
        Contents() == LocksFrom(old(Contents()), locks, text, locks.index, lock, old(smpOffsets) == {})
    {
      var lock := LockPrefix(featureUp);
      var addSmpEntries := |smpOffsets| == 0;
      var at := locks.index;
      while at < locks.index + locks.size
        invariant locks.index <= at
        invariant LocksFrom(Contents(), locks, text, at, lock, addSmpEntries)
          == LocksFrom(old(Contents()), locks, text, locks.index, lock, addSmpEntries)
      {
        ApplyLock(locks, at, lock, addSmpEntries);
        at := at + 4;
      }
    }

    /** One record: the body of the loop. */
    method ApplyLock(locks: Section, at: int, lock: byte, addSmpEntries: bool)
      requires 0 <= at && at + 4 <= file.Length
      requires 0 <= text.index && text.index + text.size < file.Length
      modifies file, this`smpOffsets
      ensures Contents() == LockStep(old(Contents()), locks, text, at, lock, addSmpEntries)
    {
      assert file[..][at..at + 4] == file[at..at + 4];
      var offset := Int32((locks.index - text.index) - (locks.mem - text.mem));
      var ptr := at + Int32(Load(file[at..at + 4])) - offset;
      if ContainsElfAddress(text, ptr) {
        Copy(file, ptr, [lock]);
        if addSmpEntries {
          smpOffsets := smpOffsets + {ptr - text.index};
        }
      }
    }
  }

  // ---- What the pass leaves -------------------------------------------------------

  /** Some record from `at` on names the byte `k` of the text. */
  ghost predicate Named(img: seq<byte>, locks: Section, text: Section, at: int, k: int)
    requires 0 <= at && locks.index + locks.size + 3 <= |img|
    decreases locks.index + locks.size - at
  {
    at < locks.index + locks.size
    && ((LockPointer(img, locks, text, at) == k && ContainsElfAddress(text, k)) || Named(img, locks, text, at + 4, k))
  }

  /** The record `j` of the section, four bytes each, leads here; the end of the text is taken for a part of it. */
  ghost predicate RecordLeads(img: seq<byte>, locks: Section, text: Section, j: nat, k: int)
    requires 0 <= locks.index && locks.index + locks.size + 3 <= |img| && 4 * j < locks.size
  {
    var at := locks.index + 4 * j;
    at + Int32(Load(img[at..at + 4])) - Int32((locks.index - text.index) - (locks.mem - text.mem)) == k
  }

  /** The bytes that are named: from the first of the text to the one behind it. */
  lemma {:induction false} NamedIff(img: seq<byte>, locks: Section, text: Section, at: int, i: nat, k: int)
    requires 0 <= locks.index && locks.index + locks.size + 3 <= |img| && at == locks.index + 4 * i
    ensures Named(img, locks, text, at, k)
      <==> && text.index <= k <= text.index + text.size
           && exists j: nat :: i <= j && 4 * j < locks.size && RecordLeads(img, locks, text, j, k)
    decreases locks.index + locks.size - at
  {
    if at < locks.index + locks.size {
      NamedIff(img, locks, text, at + 4, i + 1, k);
      assert LockPointer(img, locks, text, at) == k <==> RecordLeads(img, locks, text, i, k);
    }
  }

  /** The records themselves are not part of the text they describe. */
  predicate Apart(locks: Section, text: Section) {
    locks.index + locks.size + 3 <= text.index || text.index + text.size < locks.index
  }

  /**
   Exactly the named bytes become the lock prefix, nothing else changes, and the recorded
   offsets are exactly the named bytes.
   */
  lemma {:induction false} LocksApplied(s: Locks, locks: Section, text: Section, at: int, lock: byte, record: bool,
    k: int)
    requires 0 <= locks.index <= at && locks.index + locks.size + 3 <= |s.img|
    requires 0 <= text.index && text.index + text.size < |s.img| && Apart(locks, text)
    ensures var r := LocksFrom(s, locks, text, at, lock, record);
      && (0 <= k < |s.img| ==> r.img[k] == if Named(s.img, locks, text, at, k) then lock else s.img[k])
      && (record ==> (k - text.index in r.smpOffsets
            <==> Named(s.img, locks, text, at, k) || k - text.index in s.smpOffsets))
      && (!record ==> r.smpOffsets == s.smpOffsets)
    decreases locks.index + locks.size - at
  {
    if at < locks.index + locks.size {
      var t := LockStep(s, locks, text, at, lock, record);
      var next := at + 4;
      LockStepBytes(s, locks, text, at, lock, record);
      LocksApplied(t, locks, text, next, lock, record, k);
      NamedFrame(s.img, t.img, locks, text, next, k);
    }
  }

  /** One record: its byte, if it lies in the text, and nothing else. */
  lemma LockStepBytes(s: Locks, locks: Section, text: Section, at: int, lock: byte, record: bool)
    requires EntryInFile(s.img, at) && 0 <= text.index && text.index + text.size < |s.img|
    ensures var ptr, t := LockPointer(s.img, locks, text, at), LockStep(s, locks, text, at, lock, record);
      forall k | 0 <= k < |s.img| ::
        t.img[k] == if k == ptr && ContainsElfAddress(text, ptr) then lock else s.img[k]
  {
    PutEverywhere(s.img, Write(LockPointer(s.img, locks, text, at), [lock]));
  }

  lemma {:induction false} NamedFrame(img: seq<byte>, img': seq<byte>, locks: Section, text: Section, at: int, k: int)
    requires 0 <= locks.index <= at && locks.index + locks.size + 3 <= |img| == |img'|
    requires forall i | locks.index <= i < locks.index + locks.size + 3 :: img[i] == img'[i]
    ensures Named(img, locks, text, at, k) == Named(img', locks, text, at, k)
    decreases locks.index + locks.size - at
  {
    if at < locks.index + locks.size {
      assert img[at..at + 4] == img'[at..at + 4];
      NamedFrame(img, img', locks, text, at + 4, k);
    }
  }

  /**
   A lock record holding the guest-relative distance to the lock instruction at guest address
   `address` leads to that instruction's byte in the file exactly when truncation to 32 bits takes the
   same from this distance and from the sections' skew; when the skew fits, when the distance fits.
   */
  lemma LockPointerIff(img: seq<byte>, locks: Section, text: Section, at: int, address: int, distance: int)
    requires EntryInFile(img, at) && distance == address - (locks.mem + (at - locks.index))
    requires Load(img[at..at + 4]) == distance % TWO_32
    ensures LockPointer(img, locks, text, at) == text.index + (address - text.mem)
      <==> Lost(distance) == Lost(Skew(locks, text))
  {
    SameLow32(Load(img[at..at + 4]), distance);
  }

  /** A record whose distance does not fit while the sections' skew does. */
  lemma FarLockMissed()
    ensures var img, locks, text := [0, 0, 0, 0x80, 0xf0], Section(0, 0, 4), Section(4, 0x8000_0000, 1);
      && Load(img[0..4]) == (text.mem - locks.mem) % TWO_32
      && LockPointer(img, locks, text, 0) != text.index
  {
    var img: seq<byte> := [0, 0, 0, 0x80, 0xf0];
    var locks, text := Section(0, 0, 4), Section(4, 0x8000_0000, 1);
    assert img[0..4] == [0, 0, 0, 0x80];
    LoadTop(0x80);
    LockPointerIff(img, locks, text, 0, text.mem, text.mem - locks.mem);
  }

  lemma LoadTop(d: byte)
    ensures Load([0, 0, 0, d]) == d * 0x100_0000
  {
    assert [0, 0, 0, d][1..] == [0, 0, d] && [0, 0, d][1..] == [0, d] && [0, d][1..] == [d] && [d][1..] == [];
    assert Load([d]) == d + 256 * Load([]);
    assert Load([0, d]) == 0 + 256 * Load([d]);
    assert Load([0, 0, d]) == 0 + 256 * Load([0, d]);
    assert Load([0, 0, 0, d]) == 0 + 256 * Load([0, 0, d]);
  }

  /** The bounds include the end address: a record that leads there overwrites the byte behind the text. */
  lemma ByteBehindText(s: Locks, locks: Section, text: Section, at: int, lock: byte)
    requires EntryInFile(s.img, at) && 0 <= text.index + text.size < |s.img|
    requires LockPointer(s.img, locks, text, at) == text.index + text.size
    ensures var r := LockStep(s, locks, text, at, lock, true);
      r.img[text.index + text.size] == lock && text.size in r.smpOffsets
  {
    PutAt(s.img, Write(text.index + text.size, [lock]), text.index + text.size);
  }

  /** One such file: a record of four bytes, two bytes of text, and the byte behind them. */
  lemma ByteBehindTextChanges() returns (s: Locks, locks: Section, text: Section, lock: byte, r: Locks)
    ensures s == Locks([6, 0, 0, 0, 0xf0, 0xf0, 0x90], {}) && locks == Section(0, 0, 4) && text == Section(4, 4, 2)
    ensures lock == 0x3e && r == Locks([6, 0, 0, 0, 0xf0, 0xf0, 0x3e], {2})
    ensures LockStep(s, locks, text, locks.index, lock, true) == r
  {
    s, locks, text := Locks([6, 0, 0, 0, 0xf0, 0xf0, 0x90], {}), Section(0, 0, 4), Section(4, 4, 2);
    lock := 0x3e;
    SixAhead();
    r := LastByteChanges(s, locks, text, lock);
  }

  lemma SixAhead()
    ensures LockPointer([6, 0, 0, 0, 0xf0, 0xf0, 0x90], Section(0, 0, 4), Section(4, 4, 2), 0) == 6
  {
    var img: seq<byte> := [6, 0, 0, 0, 0xf0, 0xf0, 0x90];
    assert img[0..4] == [6, 0, 0, 0];
    LoadSmall(6);
  }

  lemma LastByteChanges(s: Locks, locks: Section, text: Section, lock: byte) returns (r: Locks)
    requires |s.img| == 7 && locks.index == 0 && s.smpOffsets == {}
    requires LockPointer(s.img, locks, text, locks.index) == 6 == text.index + text.size
    ensures r == LockStep(s, locks, text, locks.index, lock, true)
    ensures r.img == s.img[..6] + [lock] && r.smpOffsets == {text.size}
  {
    r := LockStep(s, locks, text, locks.index, lock, true);
    PutEverywhere(s.img, Write(6, [lock]));
    assert Put(s.img, Write(6, [lock])) == s.img[..6] + [lock];
  }
}
