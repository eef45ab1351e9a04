/** Datagrams cut into CAN frames and put together again
    (src/openlcb/DatagramCan.cpp): CanDatagramWriteFlow cuts, CanDatagramParser puts
    together, keyed by the pair of destination and source alias. */
module Datagram {
  import opened Options

  type Bytes = seq<bv8>

  const MAX_SIZE := 72
  const ONE_FRAME := 2
  const FIRST_FRAME := 3
  const MIDDLE_FRAME := 4
  const FINAL_FRAME := 5
  const PERMANENT_ERROR := 0x1000
  const OUT_OF_ORDER := 0x2040 // RESEND_OK | OUT_OF_ORDER

  /** A CAN frame: the 29-bit identifier, and up to eight bytes. */
  datatype Frame = Frame(id: nat, data: Bytes)

  function FrameId(frameType: nat, dst: nat, src: nat): nat
  {
    0x1800_0000 + frameType * 0x100_0000 + dst * 0x1000 + src
  }

  function TypeOf(f: Frame): nat { f.id / 0x100_0000 % 8 }

  /** The key of a buffer: both alias fields of the identifier. */
  function KeyOf(f: Frame): nat { f.id % 0x100_0000 }

  function SrcOf(key: nat): nat { key % 0x1000 }

  function DstOf(key: nat): nat { key / 0x1000 }

  function Key(dst: nat, src: nat): nat { dst * 0x1000 + src }

  lemma IdFields(frameType: nat, dst: nat, src: nat, data: Bytes)
    requires frameType < 8 && dst < 0x1000 && src < 0x1000
    ensures var f := Frame(FrameId(frameType, dst, src), data);
      && TypeOf(f) == frameType && KeyOf(f) == Key(dst, src) && 0x1800_0000 <= f.id < 0x2000_0000
    ensures DstOf(Key(dst, src)) == dst && SrcOf(Key(dst, src)) == src
  {}

  // ---------------------------------------------------------------------
  // Sending

  /** The frames that carry the payload from `offset` on. */
  function FramesFrom(dst: nat, src: nat, payload: Bytes, offset: nat): (frames: seq<Frame>)
    requires offset <= |payload|
    ensures frames != []
    decreases |payload| - offset
  {
    if |payload| - offset <= 8 then
      [Frame(FrameId(if offset > 0 then FINAL_FRAME else ONE_FRAME, dst, src), payload[offset..])]
    else
      [Frame(FrameId(if offset > 0 then MIDDLE_FRAME else FIRST_FRAME, dst, src), payload[offset..offset + 8])]
      + FramesFrom(dst, src, payload, offset + 8)
  }

  function Fragments(dst: nat, src: nat, payload: Bytes): seq<Frame> { FramesFrom(dst, src, payload, 0) }

  lemma {:induction false} FrameCount(dst: nat, src: nat, payload: Bytes, offset: nat)
    requires offset <= |payload|
    ensures |FramesFrom(dst, src, payload, offset)| == if offset == |payload| then 1 else (|payload| - offset + 7) / 8
    decreases |payload| - offset
  {
    hide FrameId;
    if |payload| - offset > 8 { FrameCount(dst, src, payload, offset + 8); }
  }

  /** The place of frame `i`: every frame but the last carries eight bytes, and the type
      tells a single, first, middle or final one. */
  lemma {:induction false} FrameAt(dst: nat, src: nat, payload: Bytes, offset: nat, i: nat)
    requires offset <= |payload| && i < |FramesFrom(dst, src, payload, offset)|
    ensures var f, start := FramesFrom(dst, src, payload, offset)[i], offset + 8 * i;
      var last := i == |FramesFrom(dst, src, payload, offset)| - 1;
      && start <= |payload| && (!last ==> start + 8 < |payload|)
      && f.data == (if last then payload[start..] else payload[start..start + 8])
      && f.id == FrameId(if start == 0 then (if last then 2 else 3) else if last then 5 else 4, dst, src)
    decreases i
  {
    hide FrameId;
    if i > 0 { FrameAt(dst, src, payload, offset + 8, i - 1); }
  }

  /** The sender. The offset has 8 bits; payloads are less than 256 bytes long. */
  class CanDatagramWriteFlow {
    const dstAlias: nat
    const srcAlias: nat
    const payload: Bytes
    var dataOffset: nat

    constructor (dst: nat, src: nat, payload: Bytes)
      requires |payload| < 256
      ensures dstAlias == dst && srcAlias == src && this.payload == payload && dataOffset == 0
    {
      dstAlias, srcAlias, this.payload, dataOffset := dst, src, payload, 0;
    }

    method FillCanFrameBuffer() returns (f: Frame, needMoreFrames: bool)
      requires dataOffset <= |payload| < 256
      modifies this
      ensures dataOffset <= |payload| && (needMoreFrames ==> dataOffset > old(dataOffset))
      ensures FramesFrom(dstAlias, srcAlias, payload, old(dataOffset))
        == [f] + if needMoreFrames then FramesFrom(dstAlias, srcAlias, payload, dataOffset) else []
    {
      needMoreFrames := false;
      var len := |payload| - dataOffset;
      var frameType;
      if len > 8 {
        len := 8;
        needMoreFrames := true;
        frameType := if dataOffset != 0 then MIDDLE_FRAME else FIRST_FRAME;
      } else {
        frameType := if dataOffset != 0 then FINAL_FRAME else ONE_FRAME;
      }
      f := Frame(FrameId(frameType, dstAlias, srcAlias), payload[dataOffset..dataOffset + len]);
      assert payload[dataOffset..] == payload[dataOffset..|payload|];
      dataOffset := (dataOffset + len) % 256;
    }

    method SendAll() returns (frames: seq<Frame>)
      requires dataOffset == 0 && |payload| < 256
      modifies this
      ensures frames == Fragments(dstAlias, srcAlias, payload)
    {
      frames := [];
      var more := true;
      while more
        invariant dataOffset <= |payload|
        invariant Fragments(dstAlias, srcAlias, payload)
          == frames + if more then FramesFrom(dstAlias, srcAlias, payload, dataOffset) else []
        decreases more, |payload| - dataOffset
      {
        var f;
        f, more := FillCanFrameBuffer();
        frames := frames + [f];
      }
    }
  }

  // ---------------------------------------------------------------------
  // Receiving

  datatype Outcome = Silent | Delivered(dst: nat, src: nat, payload: Bytes) | Rejected(dst: nat, src: nat, code: nat)

  /** What a frame does to the open buffer of its own pair. */
  function PairStep(open: Option<Bytes>, f: Frame): (Option<Bytes>, Outcome) {
    var dst, src := DstOf(KeyOf(f)), SrcOf(KeyOf(f));
    if TypeOf(f) == ONE_FRAME then
      if |f.data| > MAX_SIZE then (None, Rejected(dst, src, PERMANENT_ERROR)) else (open, Delivered(dst, src, f.data))
    else if TypeOf(f) == FIRST_FRAME then
      if open.Some? then (None, Rejected(dst, src, OUT_OF_ORDER))
      else if |f.data| > MAX_SIZE then (None, Rejected(dst, src, PERMANENT_ERROR))
      else (Some(f.data), Silent)
    else if TypeOf(f) == MIDDLE_FRAME || TypeOf(f) == FINAL_FRAME then
      if open.None? then (None, Rejected(dst, src, OUT_OF_ORDER))
      else if |open.value| + |f.data| > MAX_SIZE then (None, Rejected(dst, src, PERMANENT_ERROR))
      else if TypeOf(f) == FINAL_FRAME then (None, Delivered(dst, src, open.value + f.data))
      else (Some(open.value + f.data), Silent)
    else (open, Silent)
  }

  function Find(pending: map<nat, Bytes>, key: nat): Option<Bytes> {
    if key in pending then Some(pending[key]) else None
  }

  function Store(pending: map<nat, Bytes>, key: nat, open: Option<Bytes>): (p: map<nat, Bytes>)
    ensures forall k :: Find(p, k) == if k == key then open else Find(pending, k)
  {
    if open.Some? then pending[key := open.value] else pending - {key}
  }

  /** One frame at a parser that serves the nodes with aliases `locals`. */
  function Step(locals: set<nat>, pending: map<nat, Bytes>, f: Frame): (map<nat, Bytes>, Outcome) {
    if DstOf(KeyOf(f)) !in locals then (pending, Silent)
    else
      var (open, out) := PairStep(Find(pending, KeyOf(f)), f);
      (Store(pending, KeyOf(f), open), out)
  }

  /** All frames in turn: the outcome of every one of them, and what is left open. */
  function Process(locals: set<nat>, pending: map<nat, Bytes>, frames: seq<Frame>): (r: (map<nat, Bytes>, seq<Outcome>))
    ensures |r.1| == |frames|
    decreases |frames|
  {
    if frames == [] then (pending, [])
    else
      var (p, out) := Step(locals, pending, frames[0]);
      var (q, outs) := Process(locals, p, frames[1..]);
      (q, [out] + outs)
  }

  class CanDatagramParser {
    const localAliases: set<nat>
    var pendingBuffers: map<nat, Bytes>
    var localBuffer: Bytes

    constructor (locals: set<nat>)
      ensures localAliases == locals && pendingBuffers == map[]
    {
      localAliases, pendingBuffers, localBuffer := locals, map[], [];
    }

    method Entry(f: Frame) returns (out: Outcome)
      modifies this
      ensures (pendingBuffers, out) == Step(localAliases, old(pendingBuffers), f)
    {
      var errorCode := 0;
      var frameType := TypeOf(f);
      var key := KeyOf(f);
      assert Store(pendingBuffers, key, Find(pendingBuffers, key)) == pendingBuffers;
      if frameType < 2 || frameType > 5 {
        return Silent;
      }
      var srcAlias, dstAlias := SrcOf(key), DstOf(key);
      if dstAlias !in localAliases {
        return Silent;
      }
      var found, inLocal, lastFrame := false, false, true;
      if frameType == 2 {
        localBuffer := [];
        found, inLocal := true, true;
      } else if frameType == 3 {
        if key in pendingBuffers {
          pendingBuffers := pendingBuffers - {key};
          errorCode := OUT_OF_ORDER;
        } else {
          pendingBuffers := pendingBuffers[key := []];
          found, lastFrame := true, false;
        }
      } else {
        if frameType == 4 {
          lastFrame := false;
        }
        if key in pendingBuffers {
          found := true;
          if lastFrame {
            localBuffer := pendingBuffers[key];
            inLocal := true;
            pendingBuffers := pendingBuffers - {key};
          }
        }
      }
      if !found {
        errorCode := OUT_OF_ORDER;
      } else {
        var size := if inLocal then |localBuffer| else |pendingBuffers[key]|;
        if size + |f.data| > MAX_SIZE {
          errorCode := PERMANENT_ERROR;
          pendingBuffers := pendingBuffers - {key};
        }
      }
      if errorCode != 0 {
        assert pendingBuffers == old(pendingBuffers) - {key};
        return Rejected(dstAlias, srcAlias, errorCode);
      }
      if inLocal {
        assert [] + f.data == f.data;
        localBuffer := localBuffer + f.data;
      } else {
        pendingBuffers := pendingBuffers[key := pendingBuffers[key] + f.data];
        assert pendingBuffers == old(pendingBuffers)[key := pendingBuffers[key]];
      }
      if lastFrame {
        out := Delivered(dstAlias, srcAlias, localBuffer);
        localBuffer := [];
      } else {
        out := Silent;
      }
    }
  }

  // ---------------------------------------------------------------------
  // Any interleaving of well-formed senders

  /** What one pair has still to send: `left[0]` from `offset` on, then the rest of `left`. */
  datatype Script = Script(offset: nat, left: seq<Bytes>)

  predicate ScriptOk(s: Script) {
    && (forall p | p in s.left :: |p| <= MAX_SIZE)
    && (s.offset > 0 ==> s.left != [] && s.offset < |s.left[0]|)
  }

  /** The frames of datagrams sent back to back. */
  function FramesOfAll(key: nat, payloads: seq<Bytes>): seq<Frame> {
    if payloads == [] then []
    else Fragments(DstOf(key), SrcOf(key), payloads[0]) + FramesOfAll(key, payloads[1..])
  }

  function FramesOf(key: nat, s: Script): seq<Frame>
    requires ScriptOk(s)
  {
    if s.left == [] then []
    else FramesFrom(DstOf(key), SrcOf(key), s.left[0], s.offset) + FramesOfAll(key, s.left[1..])
  }

  /** The script once its first frame is out. */
  function Advance(s: Script): (t: Script)
    requires ScriptOk(s) && s.left != []
    ensures ScriptOk(t)
  {
    if |s.left[0]| - s.offset <= 8 then Script(0, s.left[1..]) else Script(s.offset + 8, s.left)
  }

  function Buffered(s: Script): Option<Bytes>
    requires ScriptOk(s)
  {
    if s.offset > 0 then Some(s.left[0][..s.offset]) else None
  }

  /** The frames of one pair, in order. */
  function Project(frames: seq<Frame>, key: nat): seq<Frame> {
    if frames == [] then []
    else (if KeyOf(frames[0]) == key then [frames[0]] else []) + Project(frames[1..], key)
  }

  predicate IsLast(f: Frame) { TypeOf(f) == ONE_FRAME || TypeOf(f) == FINAL_FRAME }

  /** What ought to come out: each last frame brings the oldest datagram that its pair has
      not delivered yet, other frames bring nothing, and nor do frames for other nodes. */
  function Expected(locals: set<nat>, queues: map<nat, seq<Bytes>>, frames: seq<Frame>): seq<Outcome> {
    if frames == [] then []
    else
      var k := KeyOf(frames[0]);
      if !IsLast(frames[0]) || k !in queues || queues[k] == [] then [Silent] + Expected(locals, queues, frames[1..])
      else
        [if DstOf(k) in locals then Delivered(DstOf(k), SrcOf(k), queues[k][0]) else Silent]
        + Expected(locals, queues[k := queues[k][1..]], frames[1..])
  }

  lemma StartOfScript(key: nat, payloads: seq<Bytes>)
    requires ScriptOk(Script(0, payloads))
    ensures FramesOf(key, Script(0, payloads)) == FramesOfAll(key, payloads)
  {}

  /** The first frame from `offset` on, and how the parser takes it. */
  lemma FrameStep(key: nat, p: Bytes, o: nat)
    requires key < 0x100_0000 && |p| <= MAX_SIZE && (o == 0 || o < |p|)
    ensures var f := FramesFrom(DstOf(key), SrcOf(key), p, o)[0];
      && KeyOf(f) == key
      && (IsLast(f) <==> |p| - o <= 8)
      && FramesFrom(DstOf(key), SrcOf(key), p, o)
         == [f] + (if IsLast(f) then [] else FramesFrom(DstOf(key), SrcOf(key), p, o + 8))
      && PairStep(if o > 0 then Some(p[..o]) else None, f)
         == if IsLast(f) then (None, Delivered(DstOf(key), SrcOf(key), p)) else (Some(p[..o + 8]), Silent)
  {
    var t := if |p| - o <= 8 then (if o > 0 then FINAL_FRAME else ONE_FRAME)
      else if o > 0 then MIDDLE_FRAME else FIRST_FRAME;
    var f := FramesFrom(DstOf(key), SrcOf(key), p, o)[0];
    assert f.id == FrameId(t, DstOf(key), SrcOf(key));
    IdFields(t, DstOf(key), SrcOf(key), f.data);
    hide FrameId, KeyOf, TypeOf, DstOf, SrcOf;
    if |p| - o <= 8 {
      assert p[..o] + p[o..] == p;
    } else {
      assert p[..o] + p[o..o + 8] == p[..o + 8];
    }
  }

  /** FramesOf, Advance and Buffered, in terms of the first payload. */
  lemma ScriptParts(key: nat, s: Script)
    requires ScriptOk(s) && s.left != []
    ensures var p, o := s.left[0], s.offset;
      && |p| <= MAX_SIZE && (o == 0 || o < |p|)
      && FramesOf(key, s) == FramesFrom(DstOf(key), SrcOf(key), p, o) + FramesOfAll(key, s.left[1..])
      && Buffered(s) == (if o > 0 then Some(p[..o]) else None)
      && Advance(s) == (if |p| - o <= 8 then Script(0, s.left[1..]) else Script(o + 8, s.left))
      && (|p| - o <= 8 ==>
            FramesOf(key, Advance(s)) == FramesOfAll(key, s.left[1..]) && Buffered(Advance(s)) == None)
      && (|p| - o > 8 ==>
            && FramesOf(key, Advance(s)) == FramesFrom(DstOf(key), SrcOf(key), p, o + 8) + FramesOfAll(key, s.left[1..])
            && Buffered(Advance(s)) == Some(p[..o + 8]))
  {
    hide FramesFrom, FramesOfAll, KeyOf, DstOf, SrcOf, FrameId;
    assert s.left[0] in s.left;
    StartOfScript(key, s.left[1..]);
  }

  /** The next frame of a script, and what it does to the buffer of its pair. */
  lemma ScriptStep(key: nat, s: Script) returns (f: Frame)
    requires ScriptOk(s) && s.left != [] && key < 0x100_0000
    ensures FramesOf(key, s) == [f] + FramesOf(key, Advance(s))
    ensures KeyOf(f) == key
    ensures Advance(s).left == if IsLast(f) then s.left[1..] else s.left
    ensures PairStep(Buffered(s), f)
      == (Buffered(Advance(s)), if IsLast(f) then Delivered(DstOf(key), SrcOf(key), s.left[0]) else Silent)
  {
    hide *;
    ScriptParts(key, s);
    FrameStep(key, s.left[0], s.offset);
    f := FramesFrom(DstOf(key), SrcOf(key), s.left[0], s.offset)[0];
  }

  predicate KeyScripted(k: nat, s: Script, frames: seq<Frame>) {
    k < 0x100_0000 && ScriptOk(s) && Project(frames, k) == FramesOf(k, s)
  }

  /** The buffer that pair `k` should have open. */
  function BufferOf(locals: set<nat>, scripts: map<nat, Script>, k: nat): Option<Bytes> {
    if k in scripts && ScriptOk(scripts[k]) && DstOf(k) in locals then Buffered(scripts[k]) else None
  }

  /** The frames of every pair follow its script, and so do the open buffers. */
  ghost predicate Scripted(locals: set<nat>, scripts: map<nat, Script>, pending: map<nat, Bytes>, frames: seq<Frame>) {
    && (forall k | k in scripts :: KeyScripted(k, scripts[k], frames))
    && (forall f | f in frames :: KeyOf(f) in scripts)
    && (forall k :: Find(pending, k) == BufferOf(locals, scripts, k))
  }

  function Queues(scripts: map<nat, Script>): map<nat, seq<Bytes>> {
    map k | k in scripts :: scripts[k].left
  }

  lemma ProjectStep(frames: seq<Frame>, k: nat)
    requires frames != []
    ensures Project(frames, k) == (if KeyOf(frames[0]) == k then [frames[0]] else []) + Project(frames[1..], k)
  {}

  lemma KeyScriptedStep(k: nat, s: Script, frames: seq<Frame>)
    requires frames != [] && KeyScripted(k, s, frames)
    ensures KeyOf(frames[0]) != k ==> KeyScripted(k, s, frames[1..])
    ensures KeyOf(frames[0]) == k ==>
      && s.left != [] && KeyScripted(k, Advance(s), frames[1..])
      && Advance(s).left == (if IsLast(frames[0]) then s.left[1..] else s.left)
      && PairStep(Buffered(s), frames[0])
         == (Buffered(Advance(s)), if IsLast(frames[0]) then Delivered(DstOf(k), SrcOf(k), s.left[0]) else Silent)
  {
    ProjectStep(frames, k);
    hide IsLast, PairStep, Buffered, DstOf, SrcOf, ScriptOk, KeyOf, FramesFrom, FramesOfAll, Project;
    if KeyOf(frames[0]) == k {
      assert FramesOf(k, s)[0] == frames[0];
      var g := ScriptStep(k, s);
      assert FramesOf(k, Advance(s)) == FramesOf(k, s)[1..];
      assert Project(frames[1..], k) == Project(frames, k)[1..];
    }
  }

  lemma BufferStep(locals: set<nat>, scripts: map<nat, Script>, pending: map<nat, Bytes>, f: Frame, s: Script, out: Outcome)
    requires KeyOf(f) in scripts && ScriptOk(scripts[KeyOf(f)]) && ScriptOk(s)
    requires forall k :: Find(pending, k) == BufferOf(locals, scripts, k)
    requires PairStep(Buffered(scripts[KeyOf(f)]), f) == (Buffered(s), out)
    ensures forall k :: Find(Step(locals, pending, f).0, k) == BufferOf(locals, scripts[KeyOf(f) := s], k)
    ensures Step(locals, pending, f).1 == if DstOf(KeyOf(f)) in locals then out else Silent
  {
    hide PairStep, Buffered, DstOf, KeyOf, ScriptOk, Store, Find;
    var k := KeyOf(f);
    assert Find(pending, k) == BufferOf(locals, scripts, k);
    forall x ensures Find(Step(locals, pending, f).0, x) == BufferOf(locals, scripts[k := s], x) {
      assert Find(pending, x) == BufferOf(locals, scripts, x);
    }
  }

  lemma ScriptedMeaning(locals: set<nat>, scripts: map<nat, Script>, pending: map<nat, Bytes>, frames: seq<Frame>)
    requires frames != [] && Scripted(locals, scripts, pending, frames)
    ensures var k := KeyOf(frames[0]); k in scripts && KeyScripted(k, scripts[k], frames)
    ensures forall k | k in scripts :: KeyScripted(k, scripts[k], frames)
    ensures forall f | f in frames[1..] :: KeyOf(f) in scripts
    ensures forall k :: Find(pending, k) == BufferOf(locals, scripts, k)
  {
    hide KeyOf, KeyScripted, Find, BufferOf;
    assert frames[0] in frames;
  }

  lemma ScriptedIntro(locals: set<nat>, scripts: map<nat, Script>, pending: map<nat, Bytes>, frames: seq<Frame>)
    requires forall k | k in scripts :: KeyScripted(k, scripts[k], frames)
    requires forall f | f in frames :: KeyOf(f) in scripts
    requires forall k :: Find(pending, k) == BufferOf(locals, scripts, k)
    ensures Scripted(locals, scripts, pending, frames)
  {}

  /** One frame of any interleaving. */
  lemma ScriptedStep(locals: set<nat>, scripts: map<nat, Script>, pending: map<nat, Bytes>, frames: seq<Frame>)
    returns (k: nat, s: Script)
    requires Scripted(locals, scripts, pending, frames) && frames != []
    ensures k == KeyOf(frames[0]) && k in scripts && scripts[k] == s && ScriptOk(s) && s.left != []
    ensures Scripted(locals, scripts[k := Advance(s)], Step(locals, pending, frames[0]).0, frames[1..])
    ensures Advance(s).left == if IsLast(frames[0]) then s.left[1..] else s.left
    ensures Step(locals, pending, frames[0]).1
      == if IsLast(frames[0]) && DstOf(k) in locals then Delivered(DstOf(k), SrcOf(k), s.left[0]) else Silent
  {
    ScriptedMeaning(locals, scripts, pending, frames);
    k := KeyOf(frames[0]);
    s := scripts[k];
    assert ScriptOk(s);
    hide *;
    KeyScriptedStep(k, s, frames);
    var next := scripts[k := Advance(s)];
    forall x | x in next ensures KeyScripted(x, next[x], frames[1..]) {
      if x != k { KeyScriptedStep(x, scripts[x], frames); }
    }
    BufferStep(locals, scripts, pending, frames[0], Advance(s),
               if IsLast(frames[0]) then Delivered(DstOf(k), SrcOf(k), s.left[0]) else Silent);
    ScriptedIntro(locals, next, Step(locals, pending, frames[0]).0, frames[1..]);
  }

  lemma ProcessStep(locals: set<nat>, pending: map<nat, Bytes>, frames: seq<Frame>)
    requires frames != []
    ensures var (p, out) := Step(locals, pending, frames[0]); var (q, outs) := Process(locals, p, frames[1..]);
      Process(locals, pending, frames) == (q, [out] + outs)
  {}

  lemma ExpectedStep(locals: set<nat>, queues: map<nat, seq<Bytes>>, frames: seq<Frame>, k: nat)
    requires frames != [] && k == KeyOf(frames[0]) && k in queues && queues[k] != []
    ensures Expected(locals, queues, frames)
      == if IsLast(frames[0])
         then [if DstOf(k) in locals then Delivered(DstOf(k), SrcOf(k), queues[k][0]) else Silent]
              + Expected(locals, queues[k := queues[k][1..]], frames[1..])
         else [Silent] + Expected(locals, queues, frames[1..])
  {}

  lemma QueuesUpdate(scripts: map<nat, Script>, k: nat, t: Script)
    requires k in scripts
    ensures k in Queues(scripts) && Queues(scripts)[k] == scripts[k].left
    ensures Queues(scripts[k := t]) == Queues(scripts)[k := t.left]
    ensures t.left == scripts[k].left ==> Queues(scripts[k := t]) == Queues(scripts)
  {}

  lemma ScriptedEnd(locals: set<nat>, scripts: map<nat, Script>, pending: map<nat, Bytes>)
    requires Scripted(locals, scripts, pending, [])
    ensures pending == map[]
  {
    forall k: nat ensures k !in pending {
      if k in scripts { assert KeyScripted(k, scripts[k], []); }
      assert Find(pending, k) == None;
    }
  }

  /** The frames of any number of pairs, mixed in any way: everything sent comes out as it
      was, and in the order of the last frames; nothing is rejected, nothing is left over. */
  lemma {:induction false} Interleaved(locals: set<nat>, scripts: map<nat, Script>, pending: map<nat, Bytes>, frames: seq<Frame>)
    requires Scripted(locals, scripts, pending, frames)
    ensures Process(locals, pending, frames) == (map[], Expected(locals, Queues(scripts), frames))
    decreases |frames|
  {
    if frames == [] {
      ScriptedEnd(locals, scripts, pending);
    } else {
      var k, s := ScriptedStep(locals, scripts, pending, frames);
      var next := scripts[k := Advance(s)];
      hide *;
      QueuesUpdate(scripts, k, Advance(s));
      ExpectedStep(locals, Queues(scripts), frames, k);
      Interleaved(locals, next, Step(locals, pending, frames[0]).0, frames[1..]);
      ProcessStep(locals, pending, frames);
    }
  }

  function StartScripts(sent: map<nat, seq<Bytes>>): map<nat, Script> {
    map k | k in sent :: Script(0, sent[k])
  }

  /** The same from the start: `sent` lists what each pair sends, back to back. */
  lemma Delivery(locals: set<nat>, sent: map<nat, seq<Bytes>>, frames: seq<Frame>)
    requires forall k | k in sent :: k < 0x100_0000 && forall p | p in sent[k] :: |p| <= MAX_SIZE
    requires forall k | k in sent :: Project(frames, k) == FramesOfAll(k, sent[k])
    requires forall f | f in frames :: KeyOf(f) in sent
    ensures Process(locals, map[], frames) == (map[], Expected(locals, sent, frames))
  {
    var scripts := StartScripts(sent);
    hide Project, FramesOf, FramesOfAll, Process, Expected, KeyOf, DstOf, IsLast;
    forall k | k in scripts ensures KeyScripted(k, scripts[k], frames) {
      StartOfScript(k, sent[k]);
    }
    ScriptedIntro(locals, scripts, map[], frames);
    Interleaved(locals, scripts, map[], frames);
    assert Queues(scripts) == sent;
  }

  // ---------------------------------------------------------------------
  // Any frames at all

  /** The bytes of the First, Middle and Final frames of pair `k`. */
  function Gather(frames: seq<Frame>, k: nat): Bytes {
    if frames == [] then []
    else
      var f := frames[|frames| - 1];
      Gather(frames[..|frames| - 1], k) + if KeyOf(f) == k && FIRST_FRAME <= TypeOf(f) <= FINAL_FRAME then f.data else []
  }

  /** Frame `j` is a First frame of pair `k`, and after it up to `i` come no First and no Final of `k`. */
  predicate OpenedAt(frames: seq<Frame>, j: nat, i: nat, k: nat)
    requires i <= |frames|
  {
    && j < i && TypeOf(frames[j]) == FIRST_FRAME && KeyOf(frames[j]) == k
    && forall m | j < m < i && KeyOf(frames[m]) == k :: TypeOf(frames[m]) != FIRST_FRAME && TypeOf(frames[m]) != FINAL_FRAME
  }

  /** Where a datagram comes from that is delivered upon the last of these frames. */
  ghost predicate Honest(frames: seq<Frame>, out: Outcome)
    requires frames != []
  {
    out.Delivered? ==>
      var i := |frames| - 1;
      var k := KeyOf(frames[i]);
      && out.dst == DstOf(k) && out.src == SrcOf(k) && |out.payload| <= MAX_SIZE
      && (TypeOf(frames[i]) == ONE_FRAME || TypeOf(frames[i]) == FINAL_FRAME)
      && (TypeOf(frames[i]) == ONE_FRAME ==> out.payload == frames[i].data)
      && (TypeOf(frames[i]) == FINAL_FRAME ==>
            exists j | 0 <= j < i :: OpenedAt(frames, j, i, k) && out.payload == Gather(frames[j..], k))
  }

  ghost predicate SoundBuffer(h: seq<Frame>, k: nat, buffer: Bytes) {
    |buffer| <= MAX_SIZE && exists j: nat | j < |h| :: OpenedAt(h, j, |h|, k) && buffer == Gather(h[j..], k)
  }

  lemma GatherStep(frames: seq<Frame>, f: Frame, j: nat, k: nat)
    requires j <= |frames|
    ensures Gather((frames + [f])[j..], k)
      == Gather(frames[j..], k) + if KeyOf(f) == k && FIRST_FRAME <= TypeOf(f) <= FINAL_FRAME then f.data else []
  {
    var s := (frames + [f])[j..];
    assert s[..|s| - 1] == frames[j..];
  }

  /** A buffer that is still open after one more frame. */
  lemma SoundStep(h: seq<Frame>, f: Frame, k: nat, open: Option<Bytes>)
    requires open.Some? ==> SoundBuffer(h, k, open.value)
    ensures KeyOf(f) != k && open.Some? ==> SoundBuffer(h + [f], k, open.value)
    ensures KeyOf(f) == k ==>
      && (PairStep(open, f).0.Some? ==> SoundBuffer(h + [f], k, PairStep(open, f).0.value))
      && Honest(h + [f], PairStep(open, f).1)
  {
    hide KeyOf, TypeOf, DstOf, SrcOf, Gather;
    GatherStep(h, f, |h|, k);
    assert Gather(h[|h|..], k) == [] by { GatherNone(h[|h|..], k); }
    if open.Some? {
      var j: nat :| j < |h| && OpenedAt(h, j, |h|, k) && open.value == Gather(h[j..], k);
      GatherStep(h, f, j, k);
      assert OpenedAt(h + [f], j, |h|, k);
      if KeyOf(f) != k || (TypeOf(f) != FIRST_FRAME && TypeOf(f) != FINAL_FRAME) {
        assert OpenedAt(h + [f], j, |h| + 1, k);
      }
    } else if KeyOf(f) == k && TypeOf(f) == FIRST_FRAME {
      assert OpenedAt(h + [f], |h|, |h| + 1, k);
    }
  }

  lemma GatherNone(frames: seq<Frame>, k: nat)
    requires frames == []
    ensures Gather(frames, k) == []
  {}

  /** Every open buffer belongs to a local node and holds what its pair has sent so far. */
  ghost predicate Sound(locals: set<nat>, h: seq<Frame>, pending: map<nat, Bytes>) {
    forall k | k in pending :: DstOf(k) in locals && SoundBuffer(h, k, pending[k])
  }

  lemma SoundAll(locals: set<nat>, h: seq<Frame>, pending: map<nat, Bytes>, f: Frame)
    requires Sound(locals, h, pending)
    ensures Sound(locals, h + [f], Step(locals, pending, f).0) && Honest(h + [f], Step(locals, pending, f).1)
  {
    var p := Step(locals, pending, f).0;
    hide PairStep, KeyOf, DstOf, SoundBuffer, Honest;
    SoundStep(h, f, KeyOf(f), Find(pending, KeyOf(f)));
    forall k | k in p ensures DstOf(k) in locals && SoundBuffer(h + [f], k, p[k]) {
      assert Find(p, k) == Some(p[k]);
      SoundStep(h, f, k, Find(pending, k));
    }
    assert DstOf(KeyOf(f)) !in locals ==> Honest(h + [f], Silent) by { SilentIsHonest(h + [f]); }
  }

  lemma SilentIsHonest(frames: seq<Frame>)
    requires frames != []
    ensures Honest(frames, Silent)
  {}

  lemma {:induction false} ProvenanceFrom(locals: set<nat>, h: seq<Frame>, pending: map<nat, Bytes>, frames: seq<Frame>)
    requires Sound(locals, h, pending)
    ensures Sound(locals, h + frames, Process(locals, pending, frames).0)
    ensures forall i: nat | i < |frames| :: Honest((h + frames)[..|h| + i + 1], Process(locals, pending, frames).1[i])
    decreases |frames|
  {
    if frames == [] {
      assert h + frames == h;
    } else {
      ProcessStep(locals, pending, frames);
      SoundAll(locals, h, pending, frames[0]);
      hide Sound, Honest, Step, Process;
      var p := Step(locals, pending, frames[0]).0;
      ProvenanceFrom(locals, h + [frames[0]], p, frames[1..]);
      assert (h + [frames[0]]) + frames[1..] == h + frames;
      forall i: nat | i < |frames|
        ensures Honest((h + frames)[..|h| + i + 1], Process(locals, pending, frames).1[i])
      {
        if i == 0 {
          assert (h + frames)[..|h| + 1] == h + [frames[0]];
        } else {
          assert Process(locals, pending, frames).1[i] == Process(locals, p, frames[1..]).1[i - 1];
          assert |h + [frames[0]]| + (i - 1) + 1 == |h| + i + 1;
        }
      }
    }
  }

  lemma NothingOpen(locals: set<nat>)
    ensures Sound(locals, [], map[])
  {}

  /** Whatever frames arrive in whatever order: a delivered datagram is one frame, or the
      First, Middle and Final frames of one pair with no other First or Final of the pair
      between them; and nothing delivered or kept is longer than 72 bytes. */
  lemma Provenance(locals: set<nat>, frames: seq<Frame>)
    ensures forall i: nat | i < |frames| :: Honest(frames[..i + 1], Process(locals, map[], frames).1[i])
    ensures Sound(locals, frames, Process(locals, map[], frames).0)
  {
    hide *;
    NothingOpen(locals);
    ProvenanceFrom(locals, [], map[], frames);
    assert [] + frames == frames;
  }
}
