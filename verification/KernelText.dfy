/**
 The passes that patch a kernelspace loader's reference text: jump labels, ftrace
 call sites and SMP lock prefixes. Each method is tied to a list of writes; the
 lemmas say what the patched image holds.
 */
module KernelText {
  import opened Bytes
  import opened Patching
  import opened Nops

  /** One record of the ELF file's jump table. */
  datatype JumpEntry = JumpEntry(code: int, target: int)

  /** One record of the guest's jump table with the state of its static key. */
  datatype GuestEntry = GuestEntry(code: int, enabled: bool)

  /** A jump table record the guest knows, with the state it has there. */
  datatype Label = Label(entry: JumpEntry, enabled: bool)

  /** The displacement of a 5-byte jump at `e.code` to `e.target`, as an `int32_t`. */
  function Displacement(e: JumpEntry): int {
    Int32(e.target - (e.code + 5))
  }

  function JumpBytes(displacement: int): (r: seq<byte>)
    ensures |r| == 5
  {
    [0xe9] + Store(displacement, 4)
  }

  function SiteBytes(l: Label, nops: Ideal): (r: seq<byte>)
    ensures |r| == 5
  {
    if l.enabled then JumpBytes(Displacement(l.entry)) else Fill(nops, 5)
  }

  /** Records the guest keeps for code behind the text segment are not applied. */
  predicate Applies(g: GuestEntry, e: JumpEntry, textEnd: int) {
    g.code <= textEnd && g.code == e.code
  }

  function LabelsOf(g: GuestEntry, table: seq<JumpEntry>, textEnd: int): seq<Label> {
    if table == [] then [] else
      var last := table[|table| - 1];
      LabelsOf(g, table[..|table| - 1], textEnd) + if Applies(g, last, textEnd) then [Label(last, g.enabled)] else []
  }

  /** The labels the nested loops visit, in their order. */
  function Labels(guest: seq<GuestEntry>, table: seq<JumpEntry>, textEnd: int): seq<Label> {
    if guest == [] then [] else
      Labels(guest[..|guest| - 1], table, textEnd) + LabelsOf(guest[|guest| - 1], table, textEnd)
  }

  lemma {:induction false} LabelsOfIff(g: GuestEntry, table: seq<JumpEntry>, textEnd: int, l: Label)
    ensures l in LabelsOf(g, table, textEnd)
      <==> l.entry in table && Applies(g, l.entry, textEnd) && l.enabled == g.enabled
  {
    if table != [] {
      LabelsOfIff(g, table[..|table| - 1], textEnd, l);
      assert table == table[..|table| - 1] + [table[|table| - 1]];
    }
  }

  /** A label is visited exactly when guest and file both have a record for its code. */
  lemma {:induction false} LabelsIff(guest: seq<GuestEntry>, table: seq<JumpEntry>, textEnd: int, l: Label)
    ensures l in Labels(guest, table, textEnd)
      <==> l.entry in table && l.entry.code <= textEnd && GuestEntry(l.entry.code, l.enabled) in guest
  {
    if guest != [] {
      var last := guest[|guest| - 1];
      LabelsIff(guest[..|guest| - 1], table, textEnd, l);
      LabelsOfIff(last, table, textEnd, l);
      assert guest == guest[..|guest| - 1] + [last];
    }
  }

  function LabelWrite(l: Label, base: int, nops: Ideal): Write {
    Write(l.entry.code - base, SiteBytes(l, nops))
  }

  /** The five bytes of the site lie inside the text. */
  predicate LabelFits(size: nat, l: Label, base: int) {
    0 <= l.entry.code - base && l.entry.code - base + 5 <= size
  }

  ghost predicate AllLabelsFit(size: nat, ls: seq<Label>, base: int) {
    forall l | l in ls :: LabelFits(size, l, base)
  }

  lemma {:induction false} RowFits(size: nat, guest: seq<GuestEntry>, table: seq<JumpEntry>, i: nat, base: int,
    textEnd: int)
    requires i < |guest| && forall l | l in Labels(guest, table, textEnd) :: LabelFits(size, l, base)
    ensures forall l | l in LabelsOf(guest[i], table, textEnd) :: LabelFits(size, l, base)
  {
    forall l | l in LabelsOf(guest[i], table, textEnd) ensures LabelFits(size, l, base) {
      LabelsOfIff(guest[i], table, textEnd, l);
      LabelsIff(guest, table, textEnd, l);
      assert guest[i] in guest;
    }
  }

  function LabelWrites(ls: seq<Label>, base: int, nops: Ideal): seq<Write> {
    if ls == [] then [] else LabelWrites(ls[..|ls| - 1], base, nops) + [LabelWrite(ls[|ls| - 1], base, nops)]
  }

  /** What a pass over the jump table changes. */
  datatype Text = Text(img: seq<byte>, jumpEntries: map<int, int>, jumpDestinations: set<int>)

  /** One label: patch its site and, when recording, insert it unless its address is known. */
  function Visit(t: Text, l: Label, base: int, nops: Ideal, record: bool): (r: Text)
    ensures |r.img| == |t.img|
  {
    var img := Put(t.img, LabelWrite(l, base, nops));
    if !record then t.(img := img)
    else Text(img,
              if l.entry.code in t.jumpEntries then t.jumpEntries
              else t.jumpEntries[l.entry.code := Displacement(l.entry)],
              t.jumpDestinations + {l.entry.target})
  }

  function VisitAll(t: Text, ls: seq<Label>, base: int, nops: Ideal, record: bool): (r: Text)
    ensures |r.img| == |t.img|
  {
    if ls == [] then t else Visit(VisitAll(t, ls[..|ls| - 1], base, nops, record), ls[|ls| - 1], base, nops, record)
  }

  lemma {:induction false} VisitAppend(t: Text, ls: seq<Label>, more: seq<Label>, base: int, nops: Ideal, record: bool)
    ensures VisitAll(t, ls + more, base, nops, record)
      == VisitAll(VisitAll(t, ls, base, nops, record), more, base, nops, record)
  {
    if more == [] {
      assert ls + more == ls;
    } else {
      VisitAppend(t, ls, more[..|more| - 1], base, nops, record);
      assert (ls + more)[..|ls + more| - 1] == ls + more[..|more| - 1];
    }
  }

  lemma VisitNothing(t: Text, base: int, nops: Ideal, record: bool)
    ensures VisitAll(t, [], base, nops, record) == t
  {
  }

  lemma {:induction false} LabelsNext(guest: seq<GuestEntry>, table: seq<JumpEntry>, i: nat, textEnd: int)
    requires i < |guest|
    ensures Labels(guest[..i + 1], table, textEnd)
         == Labels(guest[..i], table, textEnd) + LabelsOf(guest[i], table, textEnd)
  {
    assert guest[..i + 1][..i] == guest[..i];
  }

  predicate FiveApart(a: int, b: int) {
    a + 5 <= b || b + 5 <= a
  }

  /** Records of the table stand at least five bytes apart. */
  ghost predicate SitesApart(table: seq<JumpEntry>) {
    forall e, f {:trigger FiveApart(e.code, f.code)} | e in table && f in table :: e == f || FiveApart(e.code, f.code)
  }

  predicate SameCode(g: GuestEntry, h: GuestEntry) {
    g.code == h.code
  }

  ghost predicate DistinctCodes(guest: seq<GuestEntry>) {
    forall g, h {:trigger SameCode(g, h)} | g in guest && h in guest :: SameCode(g, h) ==> g == h
  }

  class Loader {
    /** Guest address and size of `.text`. */
    const base: int
    const size: nat

    var content: array<byte>
    var jumpEntries: map<int, int>
    var jumpDestinations: set<int>
    var smpOffsets: set<int>

    constructor (base: int, size: nat, content: array<byte>)
      ensures this.base == base && this.size == size && this.content == content
      ensures jumpEntries == map[] && jumpDestinations == {} && smpOffsets == {}
    {
      this.base, this.size, this.content := base, size, content;
      jumpEntries, jumpDestinations, smpOffsets := map[], {}, {};
    }

    ghost function Contents(): Text
      reads this, content
    {
      Text(content[..], jumpEntries, jumpDestinations)
    }

    method ApplyJumpEntries(guest: seq<GuestEntry>, table: seq<JumpEntry>, nops: Ideal)
      requires forall l | l in Labels(guest, table, base + size) :: LabelFits(content.Length, l, base)
      modifies content, this`jumpEntries, this`jumpDestinations
      ensures var ls := Labels(guest, table, base + size);
        Contents() == VisitAll(old(Contents()), ls, base, nops, old(jumpEntries) == map[])
    {
      var addJumpEntries := |jumpEntries| == 0;
      ghost var textEnd, start := base + size, Contents();
      ghost var done: seq<Label> := [];
      for i := 0 to |guest|
        invariant done == Labels(guest[..i], table, textEnd)
        invariant Contents() == VisitAll(start, done, base, nops, addJumpEntries)
      {
        ghost var row := LabelsOf(guest[i], table, textEnd);
        RowFits(content.Length, guest, table, i, base, textEnd);
        VisitAppend(start, done, row, base, nops, addJumpEntries);
        LabelsNext(guest, table, i, textEnd);
        VisitEntry(guest[i], table, nops, addJumpEntries);
        done := done + row;
      }
      assert guest[..|guest|] == guest;
    }

    /** The body of the outer loop: records for code behind the text segment are skipped. */
    method VisitEntry(g: GuestEntry, table: seq<JumpEntry>, nops: Ideal, addJumpEntries: bool)
      requires forall l | l in LabelsOf(g, table, base + size) :: LabelFits(content.Length, l, base)
      modifies content, this`jumpEntries, this`jumpDestinations
      ensures Contents() == VisitAll(old(Contents()), LabelsOf(g, table, base + size), base, nops, addJumpEntries)
    {
      if g.code > base + size {
        NothingApplies(g, table, base + size);
        VisitNothing(Contents(), base, nops, addJumpEntries);
        return;
      }
      VisitTable(g, table, nops, addJumpEntries);
    }

    /** The inner loop: every record of the file that matches the guest's record `g`. */
    method VisitTable(g: GuestEntry, table: seq<JumpEntry>, nops: Ideal, addJumpEntries: bool)
      requires g.code <= base + size
      requires forall l | l in LabelsOf(g, table, base + size) :: LabelFits(content.Length, l, base)
      modifies content, this`jumpEntries, this`jumpDestinations
      ensures Contents() == VisitAll(old(Contents()), LabelsOf(g, table, base + size), base, nops, addJumpEntries)
    {
      for j := 0 to |table|
        invariant var ls := LabelsOf(g, table[..j], base + size);
          Contents() == VisitAll(old(Contents()), ls, base, nops, addJumpEntries)
      {
        assert table[..j + 1][..j] == table[..j];
        ghost var before := LabelsOf(g, table[..j], base + size);
        if g.code == table[j].code {
          ghost var l := Label(table[j], g.enabled);
          LabelsOfIff(g, table, base + size, l);
          assert LabelsOf(g, table[..j + 1], base + size) == before + [l];
          assert (before + [l])[..|before|] == before;
          VisitLabel(table[j], g.enabled, nops, addJumpEntries);
        } else {
          assert LabelsOf(g, table[..j + 1], base + size) == before + [] == before;
        }
      }
      assert table[..|table|] == table;
    }

    /** The body of the inner loop once a record of the file matches the guest's. */
    method VisitLabel(entry: JumpEntry, enabled: bool, nops: Ideal, addJumpEntries: bool)
      requires LabelFits(content.Length, Label(entry, enabled), base)
      modifies content, this`jumpEntries, this`jumpDestinations
      ensures Contents() == Visit(old(Contents()), Label(entry, enabled), base, nops, addJumpEntries)
    {
      var patchOffset := entry.code - base;
      var destination := Displacement(entry);
      if addJumpEntries {
        if entry.code !in jumpEntries {
          jumpEntries := jumpEntries[entry.code := destination];
        }
        jumpDestinations := jumpDestinations + {entry.target};
      }
      WriteSite(patchOffset, destination, enabled, nops);
    }

    /** The five bytes of a site: a jump when its key is enabled, padding otherwise. */
    method WriteSite(patchOffset: int, destination: int, enabled: bool, nops: Ideal)
      requires 0 <= patchOffset && patchOffset + 5 <= content.Length
      modifies content
      ensures content[..] == Put(old(content[..]),
        Write(patchOffset, if enabled then JumpBytes(destination) else Fill(nops, 5)))
    {
      if enabled {
        var operandOffset := patchOffset + 1;
        PutAdjacent(content[..], patchOffset, operandOffset, [0xe9], Store(destination, 4));
        Copy(content, patchOffset, [0xe9]);
        Copy(content, operandOffset, Store(destination, 4));
      } else {
        AddNops(nops, content, patchOffset, 5);
      }
    }

    /** Every ftrace call site in `locations` becomes a 5-byte NOP. */
    method ApplyMcount(locations: seq<int>, nops: Ideal)
      requires AllFit(content.Length, McountWrites(locations, base, nops))
      modifies content
      ensures content[..] == PutAll(old(content[..]), McountWrites(locations, base, nops))
    {
      ghost var was := content[..];
      for i := 0 to |locations|
        invariant content[..] == PutAll(was, McountWrites(locations[..i], base, nops))
      {
        McountFits(content.Length, locations, base, nops, locations[i]);
        McountNext(was, locations, i, base, nops);
        AddNops(nops, content, locations[i] - base, 5);
      }
      assert locations[..|locations|] == locations;
    }
  }

  function McountWrite(a: int, base: int, nops: Ideal): Write {
    Write(a - base, Fill(nops, 5))
  }

  function McountWrites(locations: seq<int>, base: int, nops: Ideal): seq<Write> {
    if locations == [] then []
    else
      var last := |locations| - 1;
      McountWrites(locations[..last], base, nops) + [McountWrite(locations[last], base, nops)]
  }

  /** One turn of the loop. */
  lemma {:induction false} McountNext(img: seq<byte>, locations: seq<int>, i: nat, base: int, nops: Ideal)
    requires i < |locations|
    ensures PutAll(img, McountWrites(locations[..i + 1], base, nops))
         == Put(PutAll(img, McountWrites(locations[..i], base, nops)), McountWrite(locations[i], base, nops))
  {
    assert locations[..i + 1][..i] == locations[..i];
    PutAllStep(img, McountWrites(locations[..i], base, nops), McountWrite(locations[i], base, nops));
  }

  lemma {:induction false} McountWriteIn(locations: seq<int>, base: int, nops: Ideal, a: int)
    requires a in locations
    ensures McountWrite(a, base, nops) in McountWrites(locations, base, nops)
  {
    var last := |locations| - 1;
    if a != locations[last] {
      McountWriteIn(locations[..last], base, nops, a);
    }
  }

  lemma {:induction false} LocationOfWrite(locations: seq<int>, base: int, nops: Ideal, w: Write) returns (a: int)
    requires w in McountWrites(locations, base, nops)
    ensures a in locations && w == McountWrite(a, base, nops)
  {
    var last := |locations| - 1;
    a := locations[last];
    if w != McountWrite(a, base, nops) {
      a := LocationOfWrite(locations[..last], base, nops, w);
    }
  }

  lemma {:induction false} NothingApplies(g: GuestEntry, table: seq<JumpEntry>, textEnd: int)
    requires g.code > textEnd
    ensures LabelsOf(g, table, textEnd) == []
  {
    if table != [] {
      NothingApplies(g, table[..|table| - 1], textEnd);
    }
  }

  // ---- What the patched text holds ------------------------------------------------

  lemma {:induction false} VisitImage(t: Text, ls: seq<Label>, base: int, nops: Ideal, record: bool)
    ensures VisitAll(t, ls, base, nops, record).img == PutAll(t.img, LabelWrites(ls, base, nops))
  {
    if ls != [] {
      VisitImage(t, ls[..|ls| - 1], base, nops, record);
      var front, last := LabelWrites(ls[..|ls| - 1], base, nops), LabelWrite(ls[|ls| - 1], base, nops);
      PutAllStep(t.img, front, last);
    }
  }

  /** `std::map::insert` for each label in turn: the first record of an address stays. */
  function Record(m: map<int, int>, ls: seq<Label>): map<int, int> {
    if ls == [] then m else
      var r, l := Record(m, ls[..|ls| - 1]), ls[|ls| - 1];
      if l.entry.code in r then r else r[l.entry.code := Displacement(l.entry)]
  }

  lemma {:induction false} VisitRecords(t: Text, ls: seq<Label>, base: int, nops: Ideal)
    ensures VisitAll(t, ls, base, nops, true).jumpEntries == Record(t.jumpEntries, ls)
    ensures VisitAll(t, ls, base, nops, false).jumpEntries == t.jumpEntries
  {
    if ls != [] {
      VisitRecords(t, ls[..|ls| - 1], base, nops);
    }
  }

  lemma {:induction false} KnownIff(t: Text, ls: seq<Label>, base: int, nops: Ideal, c: int)
    ensures c in VisitAll(t, ls, base, nops, true).jumpEntries
      <==> c in t.jumpEntries || exists l :: l in ls && l.entry.code == c
  {
    if ls != [] {
      KnownIff(t, ls[..|ls| - 1], base, nops, c);
      forall l ensures l in ls <==> l in ls[..|ls| - 1] || l == ls[|ls| - 1] {
        assert ls == ls[..|ls| - 1] + [ls[|ls| - 1]];
      }
    }
  }

  /** Whatever the tables hold: of several labels at one address the first that is visited is recorded. */
  lemma {:induction false} FirstRecordStays(t: Text, ls: seq<Label>, base: int, nops: Ideal, i: nat)
    requires i < |ls| && ls[i].entry.code !in t.jumpEntries
    requires forall j | 0 <= j < i :: ls[j].entry.code != ls[i].entry.code
    ensures var m := VisitAll(t, ls, base, nops, true).jumpEntries;
      ls[i].entry.code in m && m[ls[i].entry.code] == Displacement(ls[i].entry)
  {
    var front := ls[..|ls| - 1];
    if i < |front| {
      assert front[i] == ls[i];
      FirstRecordStays(t, front, base, nops, i);
    } else {
      KnownIff(t, front, base, nops, ls[i].entry.code);
    }
  }

  /** The recorded destinations are the targets of the labels that are visited. */
  lemma {:induction false} DestinationsIff(t: Text, ls: seq<Label>, base: int, nops: Ideal, record: bool, d: int)
    ensures d in VisitAll(t, ls, base, nops, record).jumpDestinations
      <==> d in t.jumpDestinations || (record && exists l :: l in ls && l.entry.target == d)
  {
    if ls != [] {
      DestinationsIff(t, ls[..|ls| - 1], base, nops, record, d);
      forall l ensures l in ls <==> l in ls[..|ls| - 1] || l == ls[|ls| - 1] {
        assert ls == ls[..|ls| - 1] + [ls[|ls| - 1]];
      }
    }
  }

  ghost predicate OneRecordPerCode(ls: seq<Label>) {
    forall k, l | k in ls && l in ls :: k.entry.code == l.entry.code ==> k.entry == l.entry
  }

  lemma {:induction false} LabelsHaveOneRecord(guest: seq<GuestEntry>, table: seq<JumpEntry>, textEnd: int)
    requires SitesApart(table)
    ensures OneRecordPerCode(Labels(guest, table, textEnd))
  {
    var ls := Labels(guest, table, textEnd);
    forall k, l | k in ls && l in ls ensures k.entry.code == l.entry.code ==> k.entry == l.entry {
      LabelsIff(guest, table, textEnd, k);
      LabelsIff(guest, table, textEnd, l);
      assert k.entry == l.entry || FiveApart(k.entry.code, l.entry.code);
    }
  }

  /** The recorded map knows exactly the visited addresses, with the displacement of their record. */
  lemma {:induction false} RecordIff(ls: seq<Label>, c: int)
    requires OneRecordPerCode(ls)
    ensures c in Record(map[], ls) <==> exists l :: l in ls && l.entry.code == c
    ensures forall l | l in ls && l.entry.code == c ::
              c in Record(map[], ls) && Record(map[], ls)[c] == Displacement(l.entry)
  {
    if ls != [] {
      var front, last := ls[..|ls| - 1], ls[|ls| - 1];
      RecordIff(front, c);
      assert ls == front + [last];
      assert last in ls;
      forall l ensures l in ls <==> l in front || l == last {}
    }
  }

  lemma {:induction false} LabelsCoherent(guest: seq<GuestEntry>, table: seq<JumpEntry>, textEnd: int, base: int,
    nops: Ideal)
    requires SitesApart(table) && DistinctCodes(guest)
    ensures Coherent(LabelWrites(Labels(guest, table, textEnd), base, nops))
  {
    var ls := Labels(guest, table, textEnd);
    var ws := LabelWrites(ls, base, nops);
    forall v, w | v in ws && w in ws ensures v == w || Disjoint(v, w) {
      var k := LabelOfWrite(ls, base, nops, v);
      var l := LabelOfWrite(ls, base, nops, w);
      LabelsIff(guest, table, textEnd, k);
      LabelsIff(guest, table, textEnd, l);
      assert k.entry == l.entry || FiveApart(k.entry.code, l.entry.code);
      if k.entry == l.entry {
        assert SameCode(GuestEntry(k.entry.code, k.enabled), GuestEntry(l.entry.code, l.enabled));
      }
    }
  }

  /** A 5-byte jump read as the processor reads it: opcode e9 and the address it leads to. */
  predicate IsJumpTo(s: seq<byte>, at: int, target: int)
    requires |s| == 5
  {
    s[0] == 0xe9 && at + 5 + Int32(Load(s[1..5])) == target
  }

  predicate InRange(e: JumpEntry) {
    -0x8000_0000 <= e.target - (e.code + 5) < 0x8000_0000
  }

  /** The stored jump leads to the recorded target exactly when that is within reach. */
  lemma JumpBytesDecode(e: JumpEntry)
    ensures IsJumpTo(JumpBytes(Displacement(e)), e.code, e.target) <==> InRange(e)
    ensures Int32(Load(JumpBytes(Displacement(e))[1..5])) == Displacement(e)
  {
    var d := e.target - (e.code + 5);
    assert JumpBytes(Displacement(e))[1..5] == Store(Int32(d), 4);
    LoadStore32(Int32(d));
  }

  lemma SiteMeans(l: Label, nops: Ideal, s: seq<byte>)
    requires s == SiteBytes(l, nops) && Genuine(nops)
    ensures l.enabled ==> (IsJumpTo(s, l.entry.code, l.entry.target) <==> InRange(l.entry))
    ensures !l.enabled ==> AllNops(s)
  {
    if l.enabled {
      JumpBytesDecode(l.entry);
    } else {
      FillIsNops(nops, 5);
    }
  }

  lemma SiteFits(size: nat, ls: seq<Label>, base: int, nops: Ideal, l: Label)
    requires AllFit(size, LabelWrites(ls, base, nops)) && l in ls
    ensures LabelFits(size, l, base)
  {
    LabelWriteIn(ls, base, nops, l);
  }

  /** Every visited site holds the bytes of its own label. */
  lemma {:induction false} SiteHolds(t: Text, ls: seq<Label>, base: int, nops: Ideal, record: bool, l: Label, at: int,
    data: seq<byte>)
    requires Coherent(LabelWrites(ls, base, nops)) && AllFit(|t.img|, LabelWrites(ls, base, nops))
    requires l in ls && at == l.entry.code - base && 0 <= at <= |t.img| - 5 && data == SiteBytes(l, nops)
    ensures VisitAll(t, ls, base, nops, record).img[at..at + 5] == data
  {
    VisitImage(t, ls, base, nops, record);
    LabelWriteIn(ls, base, nops, l);
    PutAllHolds(t.img, LabelWrites(ls, base, nops), at, at + 5, data);
  }

  lemma {:induction false} LabelWriteIn(ls: seq<Label>, base: int, nops: Ideal, l: Label)
    ensures l in ls ==> LabelWrite(l, base, nops) in LabelWrites(ls, base, nops)
  {
    if l in ls && l != ls[|ls| - 1] {
      LabelWriteIn(ls[..|ls| - 1], base, nops, l);
    }
  }

  lemma {:induction false} LabelOfWrite(ls: seq<Label>, base: int, nops: Ideal, w: Write) returns (l: Label)
    requires w in LabelWrites(ls, base, nops)
    ensures l in ls && w == LabelWrite(l, base, nops)
  {
    l := ls[|ls| - 1];
    if w != LabelWrite(l, base, nops) {
      l := LabelOfWrite(ls[..|ls| - 1], base, nops, w);
    }
  }

  lemma {:induction false} SiteRecordedOf(t: Text, ls: seq<Label>, base: int, nops: Ideal, c: int)
    requires OneRecordPerCode(ls) && t.jumpEntries == map[]
    ensures var m := VisitAll(t, ls, base, nops, true).jumpEntries;
      && (c in m <==> exists l :: l in ls && l.entry.code == c)
      && (forall l | l in ls && l.entry.code == c :: c in m && m[c] == Displacement(l.entry))
  {
    VisitRecords(t, ls, base, nops);
    RecordIff(ls, c);
  }

  /** The validator's map holds the displacement of every visited site. */
  lemma {:induction false} SiteRecorded(t: Text, guest: seq<GuestEntry>, table: seq<JumpEntry>, base: int, size: nat,
    nops: Ideal, c: int)
    requires SitesApart(table) && t.jumpEntries == map[]
    ensures var ls := Labels(guest, table, base + size);
      var m := VisitAll(t, ls, base, nops, true).jumpEntries;
      && (c in m <==> exists l :: l in ls && l.entry.code == c)
      && (forall l | l in ls && l.entry.code == c :: c in m && m[c] == Displacement(l.entry))
  {
    var textEnd := base + size;
    LabelsHaveOneRecord(guest, table, textEnd);
    SiteRecordedOf(t, Labels(guest, table, textEnd), base, nops, c);
  }

  lemma {:induction false} SiteIsMeant(t: Text, ls: seq<Label>, base: int, nops: Ideal, record: bool, l: Label,
    at: int)
    requires Coherent(LabelWrites(ls, base, nops)) && AllFit(|t.img|, LabelWrites(ls, base, nops))
    requires Genuine(nops) && l in ls && at == l.entry.code - base
    ensures 0 <= at <= |t.img| - 5
    ensures var s := VisitAll(t, ls, base, nops, record).img[at..at + 5];
      && (l.enabled ==> (IsJumpTo(s, l.entry.code, l.entry.target) <==> InRange(l.entry)))
      && (!l.enabled ==> AllNops(s))
  {
    var data := SiteBytes(l, nops);
    SiteFits(|t.img|, ls, base, nops, l);
    SiteHolds(t, ls, base, nops, record, l, at, data);
    SiteMeans(l, nops, data);
  }

  /**
   Jump labels: with distinct records, every matched site holds a jump to its target when its
   key is enabled (if the target is in reach) and whole NOP instructions otherwise.
   */
  lemma {:induction false} JumpLabelsApplied(t: Text, guest: seq<GuestEntry>, table: seq<JumpEntry>, base: int,
    size: nat, nops: Ideal, record: bool, l: Label)
    requires SitesApart(table) && DistinctCodes(guest) && Genuine(nops)
    requires AllFit(|t.img|, LabelWrites(Labels(guest, table, base + size), base, nops))
    requires l in Labels(guest, table, base + size)
    ensures 0 <= l.entry.code - base <= |t.img| - 5
    ensures var site := l.entry.code - base;
      var s := VisitAll(t, Labels(guest, table, base + size), base, nops, record).img[site..site + 5];
      && (l.enabled ==> (IsJumpTo(s, l.entry.code, l.entry.target) <==> InRange(l.entry)))
      && (!l.enabled ==> AllNops(s))
  {
    var ls, site, textEnd := Labels(guest, table, base + size), l.entry.code - base, base + size;
    LabelsCoherent(guest, table, textEnd, base, nops);
    SiteIsMeant(t, ls, base, nops, record, l, site);
  }

  lemma JumpLabelsFrame(t: Text, guest: seq<GuestEntry>, table: seq<JumpEntry>, base: int, size: nat,
    nops: Ideal, record: bool, k: nat)
    requires k < |t.img|
    requires forall l | l in Labels(guest, table, base + size) :: !(l.entry.code - base <= k < l.entry.code - base + 5)
    ensures VisitAll(t, Labels(guest, table, base + size), base, nops, record).img[k] == t.img[k]
  {
    var ls := Labels(guest, table, base + size);
    VisitImage(t, ls, base, nops, record);
    var ws := LabelWrites(ls, base, nops);
    forall w | w in ws ensures !Covers(w, k) {
      var l := LabelOfWrite(ls, base, nops, w);
    }
    PutAllFrame(t.img, ws, k);
  }

  /** The order of the two tables, and repeated records, do not change the text. */
  lemma {:induction false} JumpLabelsOrder(t: Text, guest: seq<GuestEntry>, guest': seq<GuestEntry>,
    table: seq<JumpEntry>, table': seq<JumpEntry>, base: int, size: nat, nops: Ideal, record: bool)
    requires SitesApart(table) && DistinctCodes(guest)
    requires (forall g :: g in guest <==> g in guest') && (forall e :: e in table <==> e in table')
    requires AllLabelsFit(|t.img|, Labels(guest, table, base + size), base)
    ensures VisitAll(t, Labels(guest, table, base + size), base, nops, record).img
      == VisitAll(t, Labels(guest', table', base + size), base, nops, record).img
  {
    var textEnd := base + size;
    SameTablesSameLabels(guest, guest', table, table', textEnd);
    LabelsOrder(t, guest, table, Labels(guest', table', textEnd), base, textEnd, nops, record);
  }

  lemma {:induction false} LabelsOrder(t: Text, guest: seq<GuestEntry>, table: seq<JumpEntry>, ls: seq<Label>,
    base: int, textEnd: int, nops: Ideal, record: bool)
    requires SitesApart(table) && DistinctCodes(guest) && AllLabelsFit(|t.img|, Labels(guest, table, textEnd), base)
    requires SameLabels(Labels(guest, table, textEnd), ls)
    ensures VisitAll(t, Labels(guest, table, textEnd), base, nops, record).img
      == VisitAll(t, ls, base, nops, record).img
  {
    LabelsCoherent(guest, table, textEnd, base, nops);
    SameLabelsSameImage(t, Labels(guest, table, textEnd), ls, base, nops, record);
  }

  ghost predicate SameLabels(ls: seq<Label>, ls': seq<Label>) {
    forall l :: l in ls <==> l in ls'
  }

  lemma SameTablesSameLabels(guest: seq<GuestEntry>, guest': seq<GuestEntry>, table: seq<JumpEntry>,
    table': seq<JumpEntry>, textEnd: int)
    requires (forall g :: g in guest <==> g in guest') && (forall e :: e in table <==> e in table')
    ensures SameLabels(Labels(guest, table, textEnd), Labels(guest', table', textEnd))
  {
    forall l ensures l in Labels(guest, table, textEnd) <==> l in Labels(guest', table', textEnd) {
      LabelsIff(guest, table, textEnd, l);
      LabelsIff(guest', table', textEnd, l);
    }
  }

  lemma {:induction false} SameLabelsSameImage(t: Text, ls: seq<Label>, ls': seq<Label>, base: int, nops: Ideal,
    record: bool)
    ensures SameLabels(ls, ls') && Coherent(LabelWrites(ls, base, nops)) && AllLabelsFit(|t.img|, ls, base) ==>
              VisitAll(t, ls, base, nops, record).img == VisitAll(t, ls', base, nops, record).img
  {
    if SameLabels(ls, ls') && Coherent(LabelWrites(ls, base, nops)) && AllLabelsFit(|t.img|, ls, base) {
      VisitImage(t, ls, base, nops, record);
      VisitImage(t, ls', base, nops, record);
      LabelWritesFit(|t.img|, ls, base, nops);
      SameWrites(ls, ls', base, nops);
      SameWritesSameImage(t.img, LabelWrites(ls, base, nops), LabelWrites(ls', base, nops));
    }
  }

  lemma {:induction false} LabelWritesFit(size: nat, ls: seq<Label>, base: int, nops: Ideal)
    requires AllLabelsFit(size, ls, base)
    ensures AllFit(size, LabelWrites(ls, base, nops))
  {
    forall w | w in LabelWrites(ls, base, nops) ensures Fits(size, w) {
      var l := LabelOfWrite(ls, base, nops, w);
    }
  }

  lemma {:induction false} SameWrites(ls: seq<Label>, ls': seq<Label>, base: int, nops: Ideal)
    requires SameLabels(ls, ls')
    ensures forall w :: w in LabelWrites(ls, base, nops) <==> w in LabelWrites(ls', base, nops)
  {
    forall w ensures w in LabelWrites(ls, base, nops) <==> w in LabelWrites(ls', base, nops) {
      if w in LabelWrites(ls, base, nops) {
        var l := LabelOfWrite(ls, base, nops, w);
        LabelWriteIn(ls', base, nops, l);
      }
      if w in LabelWrites(ls', base, nops) {
        var l := LabelOfWrite(ls', base, nops, w);
        LabelWriteIn(ls, base, nops, l);
      }
    }
  }

  ghost predicate CallSitesApart(locations: seq<int>) {
    forall a, b {:trigger FiveApart(a, b)} | a in locations && b in locations :: a == b || FiveApart(a, b)
  }

  /** Every recorded ftrace call site ends as whole NOP instructions when sites are equal or disjoint. */
  lemma {:induction false} McountApplied(img: seq<byte>, locations: seq<int>, base: int, nops: Ideal, a: int)
    requires CallSitesFit(|img|, locations, base) && a in locations && Genuine(nops)
    requires CallSitesApart(locations)
    ensures 0 <= a - base <= |img| - 5
    ensures AllNops(PutAll(img, McountWrites(locations, base, nops))[a - base..a - base + 5])
  {
    var at := a - base;
    McountCoherent(locations, base, nops);
    McountWritesFit(|img|, locations, base, nops);
    McountWriteIn(locations, base, nops, a);
    PaddedAt(img, McountWrites(locations, base, nops), at, at + 5, nops);
  }

  /** Padding that is one of a coherent list of writes. */
  lemma {:induction false} PaddedAt(img: seq<byte>, ws: seq<Write>, at: int, end: int, nops: Ideal)
    requires Genuine(nops) && end == at + 5
    ensures AllFit(|img|, ws) && Coherent(ws) && Write(at, Fill(nops, 5)) in ws ==>
              0 <= at && end <= |img| && AllNops(PutAll(img, ws)[at..end])
  {
    FillIsNops(nops, 5);
    PutAllHolds(img, ws, at, end, Fill(nops, 5));
  }

  ghost predicate CallSitesFit(size: nat, locations: seq<int>, base: int) {
    forall a | a in locations :: 0 <= a - base <= size - 5
  }

  lemma {:induction false} McountWritesFit(size: nat, locations: seq<int>, base: int, nops: Ideal)
    requires CallSitesFit(size, locations, base)
    ensures AllFit(size, McountWrites(locations, base, nops))
  {
    forall w | w in McountWrites(locations, base, nops) ensures Fits(size, w) {
      var a := LocationOfWrite(locations, base, nops, w);
    }
  }

  lemma McountFits(size: nat, locations: seq<int>, base: int, nops: Ideal, a: int)
    requires AllFit(size, McountWrites(locations, base, nops)) && a in locations
    ensures 0 <= a - base <= size - 5
  {
    McountWriteIn(locations, base, nops, a);
  }

  lemma {:induction false} McountCoherent(locations: seq<int>, base: int, nops: Ideal)
    requires CallSitesApart(locations)
    ensures Coherent(McountWrites(locations, base, nops))
  {
    var ws := McountWrites(locations, base, nops);
    forall v, w | v in ws && w in ws ensures v == w || Disjoint(v, w) {
      var b := LocationOfWrite(locations, base, nops, v);
      var c := LocationOfWrite(locations, base, nops, w);
      assert b == c || FiveApart(b, c);
    }
  }
}
