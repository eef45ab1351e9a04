/** When the datagram parser rejects a frame, in terms of the frames that came before it
    (src/openlcb/DatagramCan.cpp). The frames may be any; nobody has to follow the
    protocol. */
module DatagramHistory {
  import opened Options
  import opened Datagram

  /** The destination and source fields of an identifier, and its frame type. */
  function PairOf(f: Frame): nat { f.id % 0x100_0000 }

  function KindOf(f: Frame): nat { f.id / 0x100_0000 % 8 }

  predicate IsA(f: Frame, kind: nat, k: nat) { PairOf(f) == k && KindOf(f) == kind }

  /** The bytes that the First, Middle and Final frames of pair `k` carry. */
  function Carried(frames: seq<Frame>, k: nat): Bytes {
    if frames == [] then []
    else
      var n := |frames| - 1;
      Carried(frames[..n], k)
      + if IsA(frames[n], 3, k) || IsA(frames[n], 4, k) || IsA(frames[n], 5, k) then frames[n].data else []
  }

  /** Frame `j` is the last First of its pair, and no Final came after it, nor a single
      frame of more than 72 bytes. */
  predicate LastFirst(h: seq<Frame>, j: nat, k: nat) {
    && j < |h| && IsA(h[j], 3, k)
    && forall m | j < m < |h| ::
         !IsA(h[m], 3, k) && !IsA(h[m], 5, k) && (IsA(h[m], 2, k) ==> |h[m].data| <= 72)
  }

  /** Is a datagram of the pair under way? Its First came when none was, its Final did not
      come yet, and it has stayed within 72 bytes. */
  ghost predicate UnderWay(h: seq<Frame>, k: nat)
    decreases |h|, 1
  {
    exists j: nat | j < |h| :: Opened(h, j, k)
  }

  ghost predicate Opened(h: seq<Frame>, j: nat, k: nat)
    requires j < |h|
    decreases |h|, 0
  {
    LastFirst(h, j, k) && !UnderWay(h[..j], k) && |Carried(h[j..], k)| <= 72
  }

  /** What has come since the last First of the pair. */
  ghost function Collected(h: seq<Frame>, k: nat): Bytes {
    if exists j: nat | j < |h| :: LastFirst(h, j, k) then
      var j: nat :| j < |h| && LastFirst(h, j, k);
      Carried(h[j..], k)
    else []
  }

  lemma OneLastFirst(h: seq<Frame>, i: nat, j: nat, k: nat)
    requires LastFirst(h, i, k) && LastFirst(h, j, k)
    ensures i == j
  {}

  lemma OpenedMeaning(h: seq<Frame>, j: nat, k: nat)
    requires j < |h|
    ensures Opened(h, j, k) <==> LastFirst(h, j, k) && !UnderWay(h[..j], k) && |Carried(h[j..], k)| <= 72
  {}

  /** UnderWay and Collected, for the last First of the pair. */
  lemma UnderWayAt(h: seq<Frame>, j: nat, k: nat)
    requires LastFirst(h, j, k)
    ensures UnderWay(h, k) <==> !UnderWay(h[..j], k) && |Carried(h[j..], k)| <= 72
    ensures Collected(h, k) == Carried(h[j..], k)
  {
    OpenedMeaning(h, j, k);
    hide LastFirst, Carried, Opened;
    forall i: nat | i < |h| ensures Opened(h, i, k) || LastFirst(h, i, k) ==> i == j {
      OpenedMeaning(h, i, k);
      if LastFirst(h, i, k) { OneLastFirst(h, i, j, k); }
    }
  }

  lemma NotUnderWay(h: seq<Frame>, k: nat)
    requires forall j: nat | j < |h| :: !LastFirst(h, j, k)
    ensures !UnderWay(h, k) && Collected(h, k) == []
  {
    hide LastFirst, Carried;
    forall j: nat | j < |h| ensures !Opened(h, j, k) {
      OpenedMeaning(h, j, k);
    }
  }

  lemma CarriedMore(h: seq<Frame>, f: Frame, j: nat, k: nat)
    requires j <= |h|
    ensures Carried((h + [f])[j..], k)
      == Carried(h[j..], k) + if IsA(f, 3, k) || IsA(f, 4, k) || IsA(f, 5, k) then f.data else []
  {
    var s := (h + [f])[j..];
    assert s[..|s| - 1] == h[j..];
  }

  lemma LastFirstMore(h: seq<Frame>, f: Frame, j: nat, k: nat)
    requires j <= |h|
    ensures (h + [f])[..j] == h[..j]
    ensures j < |h| ==>
      LastFirst(h + [f], j, k)
      == (LastFirst(h, j, k) && !IsA(f, 3, k) && !IsA(f, 5, k) && (IsA(f, 2, k) ==> |f.data| <= 72))
    ensures LastFirst(h + [f], |h|, k) == IsA(f, 3, k)
  {
    hide IsA;
    if j < |h| && LastFirst(h + [f], j, k) {
      assert (h + [f])[|h|] == f;
      forall m | j < m < |h|
        ensures !IsA(h[m], 3, k) && !IsA(h[m], 5, k) && (IsA(h[m], 2, k) ==> |h[m].data| <= 72)
      {
        assert (h + [f])[m] == h[m];
      }
    }
  }

  /** The buffer that the pair should have open. */
  ghost function BufferOf(h: seq<Frame>, k: nat): Option<Bytes> {
    if UnderWay(h, k) then Some(Collected(h, k)) else None
  }

  /** What one more frame makes of it. */
  lemma BufferMore(h: seq<Frame>, f: Frame, k: nat)
    ensures IsA(f, 3, k) ==>
      BufferOf(h + [f], k) == if UnderWay(h, k) || |f.data| > 72 then None else Some(f.data)
    ensures IsA(f, 5, k) || (IsA(f, 2, k) && |f.data| > 72) ==> BufferOf(h + [f], k) == None
    ensures IsA(f, 4, k) ==>
      BufferOf(h + [f], k)
      == if UnderWay(h, k) && |Collected(h, k)| + |f.data| <= 72 then Some(Collected(h, k) + f.data) else None
    ensures PairOf(f) != k || KindOf(f) < 2 || KindOf(f) > 5 || (IsA(f, 2, k) && |f.data| <= 72) ==>
      BufferOf(h + [f], k) == BufferOf(h, k)
  {
    hide LastFirst, UnderWay, Collected, Carried;
    LastFirstMore(h, f, |h|, k);
    if IsA(f, 3, k) {
      UnderWayAt(h + [f], |h|, k);
      CarriedMore(h, f, |h|, k);
      NothingCarried(h[|h|..], k);
      assert [] + f.data == f.data && (h + [f])[..|h|] == h;
    } else if j: nat :| j < |h| && LastFirst(h, j, k) {
      UnderWayAt(h, j, k);
      CarriedMore(h, f, j, k);
      LastFirstMore(h, f, j, k);
      if LastFirst(h + [f], j, k) {
        UnderWayAt(h + [f], j, k);
        assert Carried(h[j..], k) + [] == Carried(h[j..], k);
      } else {
        forall i: nat | i < |h| && LastFirst(h, i, k) ensures i == j {
          OneLastFirst(h, i, j, k);
        }
        NoneAfter(h, f, k, j);
      }
    } else {
      NotUnderWay(h, k);
      NoneAfter(h, f, k, |h|);
    }
  }

  lemma NoneAfter(h: seq<Frame>, f: Frame, k: nat, i: nat)
    requires forall j: nat | j < |h| && j != i :: !LastFirst(h, j, k)
    requires i <= |h| && !LastFirst(h + [f], i, k) && !IsA(f, 3, k)
    ensures !UnderWay(h + [f], k)
  {
    hide *;
    forall j: nat | j < |h + [f]| ensures !LastFirst(h + [f], j, k) {
      LastFirstMore(h, f, j, k);
    }
    NotUnderWay(h + [f], k);
  }

  lemma NothingCarried(frames: seq<Frame>, k: nat)
    requires frames == []
    ensures Carried(frames, k) == []
  {}

  // ---------------------------------------------------------------------
  // The parser keeps exactly these buffers

  ghost predicate Tracks(locals: set<nat>, h: seq<Frame>, pending: map<nat, Bytes>) {
    forall k: nat :: Find(pending, k) == if k / 0x1000 in locals then BufferOf(h, k) else None
  }

  /** The parser's step for a pair with a local destination, by what is under way. */
  lemma PairStepMeaning(h: seq<Frame>, f: Frame)
    ensures var k := PairOf(f);
      PairStep(BufferOf(h, k), f) == (BufferOf(h + [f], k), OutcomeOf(h, f))
  {
    BufferMore(h, f, PairOf(f));
    hide UnderWay, Collected;
  }

  /** The outcome for the next frame of a pair with a local destination. */
  ghost function OutcomeOf(h: seq<Frame>, f: Frame): Outcome {
    var k, kind := PairOf(f), KindOf(f);
    var dst, src := k / 0x1000, k % 0x1000;
    if kind < 2 || kind > 5 then Silent
    else if (kind == 3 && UnderWay(h, k)) || (kind >= 4 && !UnderWay(h, k)) then Rejected(dst, src, 0x2040)
    else if |f.data| + (if kind >= 4 then |Collected(h, k)| else 0) > 72 then Rejected(dst, src, 0x1000)
    else if kind == 2 then Delivered(dst, src, f.data)
    else if kind == 5 then Delivered(dst, src, Collected(h, k) + f.data)
    else Silent
  }

  lemma StepTracks(locals: set<nat>, h: seq<Frame>, pending: map<nat, Bytes>, f: Frame)
    requires Tracks(locals, h, pending)
    ensures Tracks(locals, h + [f], Step(locals, pending, f).0)
    ensures Step(locals, pending, f).1 == if PairOf(f) / 0x1000 in locals then OutcomeOf(h, f) else Silent
  {
    hide UnderWay, Collected, PairStep, BufferOf, OutcomeOf, Find, Store;
    var p := Step(locals, pending, f).0;
    PairStepMeaning(h, f);
    assert Find(pending, PairOf(f)) == if PairOf(f) / 0x1000 in locals then BufferOf(h, PairOf(f)) else None;
    forall k: nat ensures Find(p, k) == if k / 0x1000 in locals then BufferOf(h + [f], k) else None {
      assert Find(pending, k) == if k / 0x1000 in locals then BufferOf(h, k) else None;
      if k != PairOf(f) { BufferMore(h, f, k); }
    }
  }

  lemma StartTracks(locals: set<nat>)
    ensures Tracks(locals, [], map[])
  {
    forall k: nat ensures BufferOf([], k) == None { NotUnderWay([], k); }
  }

  lemma {:induction false} ProcessAt(locals: set<nat>, pending: map<nat, Bytes>, frames: seq<Frame>, i: nat)
    requires i < |frames|
    ensures var p := Process(locals, pending, frames[..i]).0;
      && Process(locals, pending, frames).1[i] == Step(locals, p, frames[i]).1
      && Process(locals, pending, frames[..i + 1]).0 == Step(locals, p, frames[i]).0
    decreases i
  {
    hide Step, Process;
    ProcessStep(locals, pending, frames);
    ProcessStep(locals, pending, frames[..i + 1]);
    var p := Step(locals, pending, frames[0]).0;
    if i == 0 {
      ProcessNothing(locals, pending, frames[..0]);
      ProcessNothing(locals, p, frames[..1][1..]);
    } else {
      ProcessStep(locals, pending, frames[..i]);
      ProcessAt(locals, p, frames[1..], i - 1);
      assert frames[..i][1..] == frames[1..][..i - 1] && frames[..i + 1][1..] == frames[1..][..i];
    }
  }

  lemma ProcessNothing(locals: set<nat>, pending: map<nat, Bytes>, frames: seq<Frame>)
    requires frames == []
    ensures Process(locals, pending, frames).0 == pending
  {}

  lemma {:induction false} TracksAll(locals: set<nat>, frames: seq<Frame>, i: nat)
    requires i <= |frames|
    ensures Tracks(locals, frames[..i], Process(locals, map[], frames[..i]).0)
  {
    hide *;
    if i == 0 {
      ProcessNothing(locals, map[], frames[..0]);
      StartTracks(locals);
      assert frames[..0] == [];
    } else {
      TracksAll(locals, frames, i - 1);
      ProcessAt(locals, map[], frames, i - 1);
      StepTracks(locals, frames[..i - 1], Process(locals, map[], frames[..i - 1]).0, frames[i - 1]);
      assert frames[..i] == frames[..i - 1] + [frames[i - 1]];
    }
  }

  /** The outcome for frame `i`, by the frames before it. */
  lemma OutcomeAt(locals: set<nat>, frames: seq<Frame>, i: nat)
    requires i < |frames|
    ensures Process(locals, map[], frames).1[i]
      == if PairOf(frames[i]) / 0x1000 in locals then OutcomeOf(frames[..i], frames[i]) else Silent
  {
    hide *;
    TracksAll(locals, frames, i);
    ProcessAt(locals, map[], frames, i);
    StepTracks(locals, frames[..i], Process(locals, map[], frames[..i]).0, frames[i]);
  }

  /** Whatever frames arrive: a frame for a local node is rejected if and only if it is a
      First while a datagram of its pair is under way, a Middle or Final while none is, or
      makes the datagram longer than 72 bytes. The rejection names the pair and the cause,
      and afterwards no datagram of the pair is under way, and no buffer is kept. */
  lemma RejectedExactly(locals: set<nat>, frames: seq<Frame>, i: nat)
    requires i < |frames|
    ensures var f, h := frames[i], frames[..i];
      var k, kind, out := f.id % 0x100_0000, f.id / 0x100_0000 % 8, Process(locals, map[], frames).1[i];
      var outOfOrder := (kind == 3 && UnderWay(h, k)) || ((kind == 4 || kind == 5) && !UnderWay(h, k));
      var tooLong := 2 <= kind <= 5 && |f.data| + (if kind >= 4 then |Collected(h, k)| else 0) > 72;
      && (out.Rejected? <==> k / 0x1000 in locals && (outOfOrder || tooLong))
      && (out.Rejected? ==> out == Rejected(k / 0x1000, k % 0x1000, if outOfOrder then 0x2040 else 0x1000))
      && (out.Rejected? ==> !UnderWay(frames[..i + 1], k) && k !in Process(locals, map[], frames[..i + 1]).0)
  {
    var f, h := frames[i], frames[..i];
    var k := PairOf(f);
    hide UnderWay, Collected, Process;
    OutcomeAt(locals, frames, i);
    TracksAll(locals, frames, i + 1);
    BufferMore(h, f, k);
    assert frames[..i + 1] == h + [f];
    var p := Process(locals, map[], frames[..i + 1]).0;
    assert Find(p, k) == if k / 0x1000 in locals then BufferOf(frames[..i + 1], k) else None;
  }

  /** And it is delivered if and only if it is the last one and is not rejected. */
  lemma DeliveredExactly(locals: set<nat>, frames: seq<Frame>, i: nat)
    requires i < |frames|
    ensures var f, h := frames[i], frames[..i];
      var k, kind, out := f.id % 0x100_0000, f.id / 0x100_0000 % 8, Process(locals, map[], frames).1[i];
      && (out.Delivered? <==> k / 0x1000 in locals && (kind == 2 || kind == 5) && !out.Rejected?)
      && (out.Delivered? ==>
            out == Delivered(k / 0x1000, k % 0x1000, if kind == 2 then f.data else Collected(h, k) + f.data))
  {
    hide UnderWay, Collected, Process;
    OutcomeAt(locals, frames, i);
  }
}
