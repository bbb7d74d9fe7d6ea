/**
 An index-driven scan that skips: every offset is quiet or begins a run, and a run
 is either accepted with a step (the scan continues behind it) or rejected (it stops).
 The lemmas say, without a scan, at which offset it stops.
 */
module SkipScan {

  datatype Mark = Quiet | Run(step: nat)

  /** Where the scan from `i` stops: at a rejected run, or at the end. */
  function Stop(marks: seq<Mark>, i: nat): (at: nat)
    decreases |marks| - i
  {
    if i >= |marks| then |marks|
    else if marks[i].Quiet? then Stop(marks, i + 1)
    else if marks[i].step == 0 then i
    else Stop(marks, i + marks[i].step)
  }

  predicate IsRun(marks: seq<Mark>, k: nat) {
    k < |marks| && marks[k].Run?
  }

  /** How many offsets the scan passes over when it examines `h`. */
  function Step(marks: seq<Mark>, h: nat): nat {
    if h < |marks| && marks[h].Run? then marks[h].step else 0
  }

  ghost predicate InWindow(marks: seq<Mark>, h: nat, k: nat) {
    h <= k < h + Step(marks, h)
  }

  ghost predicate Covered(marks: seq<Mark>, cover: set<nat>, k: nat) {
    exists h :: h in cover && InWindow(marks, h, k)
  }

  /** `cover` holds accepted runs in [from, to) whose windows do not overlap. */
  ghost predicate IsCover(marks: seq<Mark>, from: nat, to: nat, cover: set<nat>) {
    && (forall h | h in cover :: from <= h < to && Step(marks, h) > 0)
    && (forall g, h | g in cover && h in cover && g < h :: g + Step(marks, g) <= h)
  }

  /** `at` is the first run no window of `cover` accounts for, and it is rejected. */
  ghost predicate Justified(marks: seq<Mark>, from: nat, cover: set<nat>, at: nat) {
    && at <= |marks|
    && IsCover(marks, from, at, cover)
    && (forall k | from <= k < at && IsRun(marks, k) :: Covered(marks, cover, k))
    && (at < |marks| ==> from <= at && marks[at] == Run(0) && !Covered(marks, cover, at))
  }

  lemma {:induction false} StopIsJustified(marks: seq<Mark>, i: nat) returns (cover: set<nat>)
    ensures Justified(marks, i, cover, Stop(marks, i))
    decreases |marks| - i
  {
    if i >= |marks| || marks[i] == Run(0) {
      cover := {};
    } else if marks[i].Quiet? {
      cover := StopIsJustified(marks, i + 1);
    } else {
      StopIsLater(marks, i + marks[i].step);
      var rest := StopIsJustified(marks, i + marks[i].step);
      cover := {i} + rest;
      WiderCover(marks, i, rest, Stop(marks, i));
    }
  }

  /** Adding the window of an accepted run in front of a cover. */
  lemma WiderCover(marks: seq<Mark>, i: nat, rest: set<nat>, at: nat)
    requires Step(marks, i) > 0 && Justified(marks, i + Step(marks, i), rest, at) && i < at
    ensures Justified(marks, i, {i} + rest, at)
  {
    var cover := {i} + rest;
    forall k | i <= k < at && IsRun(marks, k) ensures Covered(marks, cover, k) {
      if k < i + Step(marks, i) {
        assert i in cover && InWindow(marks, i, k);
      } else {
        var h :| h in rest && InWindow(marks, h, k);
        assert h in cover;
      }
    }
  }

  lemma {:induction false} JustifiedIsStop(marks: seq<Mark>, i: nat, cover: set<nat>, at: nat)
    requires Justified(marks, i, cover, at)
    ensures Stop(marks, i) == at
    decreases |marks| - i
  {
    if i >= |marks| || at == i {
    } else if marks[i].Quiet? {
      JustifiedIsStop(marks, i + 1, cover, at);
    } else {
      assert IsRun(marks, i);
      NarrowerCover(marks, i, cover, at);
      JustifiedIsStop(marks, i + marks[i].step, cover - {i}, at);
    }
  }

  /** A run at the lower bound is accepted and covers itself; the others cover what follows. */
  lemma NarrowerCover(marks: seq<Mark>, i: nat, cover: set<nat>, at: nat)
    requires Justified(marks, i, cover, at) && i < at && IsRun(marks, i)
    ensures i in cover && Step(marks, i) > 0
    ensures Justified(marks, i + Step(marks, i), cover - {i}, at)
  {
    var h :| h in cover && InWindow(marks, h, i);
    assert h == i;
    forall k | i + Step(marks, i) <= k < at && IsRun(marks, k) ensures Covered(marks, cover - {i}, k) {
      var g :| g in cover && InWindow(marks, g, k);
      assert g in cover - {i};
    }
  }

  /** The scan stops at `at` exactly when some cover justifies it. */
  lemma StopIff(marks: seq<Mark>, at: nat)
    ensures Stop(marks, 0) == at <==> exists cover :: Justified(marks, 0, cover, at)
  {
    var cover := StopIsJustified(marks, 0);
    if c :| Justified(marks, 0, c, at) {
      JustifiedIsStop(marks, 0, c, at);
    }
  }

  /** One move of the scan. */
  lemma StopMoves(marks: seq<Mark>, i: nat, next: nat)
    requires i < |marks| && i < next && (marks[i].Quiet? ==> next == i + 1)
    requires marks[i].Run? ==> marks[i].step == next - i
    ensures Stop(marks, i) == Stop(marks, next)
  {
  }

  /** Quiet offsets do not matter. */
  lemma {:induction false} StopSkipsQuiet(marks: seq<Mark>, i: nat, d: nat)
    requires i <= d <= |marks|
    requires forall k | i <= k < d :: marks[k].Quiet?
    ensures Stop(marks, i) == Stop(marks, d)
    decreases d - i
  {
    if i < d {
      StopSkipsQuiet(marks, i + 1, d);
    }
  }

  /** An accepted run, quiet offsets up to a rejected one. */
  lemma StopsAtSecond(marks: seq<Mark>, first: nat, landing: nat, h: nat)
    requires first < landing <= h < |marks| && marks[first] == Run(landing - first) && marks[h] == Run(0)
    requires forall k | 0 <= k < first || landing <= k < h :: marks[k].Quiet?
    ensures Stop(marks, 0) == h
  {
    StopSkipsQuiet(marks, 0, first);
    StopMoves(marks, first, landing);
    StopSkipsQuiet(marks, landing, h);
  }

  lemma {:induction false} StopOneByOne(marks: seq<Mark>, i: nat, h: nat)
    requires i <= h < |marks| && marks[h] == Run(0)
    requires forall k | i <= k < h :: marks[k] == Quiet || marks[k] == Run(1)
    ensures Stop(marks, i) == h
    decreases h - i
  {
    if i < h {
      assert marks[i] == Quiet || marks[i] == Run(1);
      StopOneByOne(marks, i + 1, h);
    }
  }

  lemma {:induction false} StopIsLater(marks: seq<Mark>, i: nat)
    ensures Stop(marks, i) <= |marks| && (i <= |marks| ==> i <= Stop(marks, i))
    ensures Stop(marks, i) < |marks| ==> marks[Stop(marks, i)] == Run(0)
    decreases |marks| - i
  {
    if i < |marks| && marks[i] != Run(0) {
      StopIsLater(marks, i + if marks[i].Quiet? then 1 else marks[i].step);
    }
  }
}
