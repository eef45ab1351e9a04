/** Cutting a byte stream into messages for the hub: the GridConnect segmenter
    (src/utils/DirectHubGc.cpp) and the flow that reads and drives it
    (src/utils/DirectHub.cpp). */
module Segmenter {

  // ---------------------------------------------------------------------
  // What the stream means, whichever way it is read

  /** The position of the first `c`, or the length. */
  function Find(s: string, c: char): (i: nat)
    ensures i <= |s| && (forall j | 0 <= j < i :: s[j] != c) && (i < |s| ==> s[i] == c)
  {
    if s == "" || s[0] == c then 0 else 1 + Find(s[1..], c)
  }

  /** All texts from a colon to the next semicolon, in order. */
  function Packets(s: string): seq<string>
    decreases |s|
  {
    if s == "" then []
    else if s[0] != ':' then Packets(s[1..])
    else if Find(s, ';') == |s| then []
    else [s[..Find(s, ';') + 1]] + Packets(s[Find(s, ';') + 1..])
  }

  /** The beginning of a message that is not complete yet. */
  predicate Incomplete(s: string) {
    s != "" ==> if s[0] == ':' then ';' !in s else ':' !in s
  }

  /** A complete message: a packet and the garbage after it, or only garbage. */
  predicate Complete(s: string) {
    s != "" && if s[0] == ':' then Find(s, ';') < |s| && ':' !in s[Find(s, ';')..] else ':' !in s
  }

  function Concat(parts: seq<string>): string {
    if parts == [] then "" else parts[0] + Concat(parts[1..])
  }

  /** `s` up to and including its first `c`. */
  function Through(s: string, c: char): string {
    if Find(s, c) == |s| then s else s[..Find(s, c) + 1]
  }

  function Head(message: string): seq<string> {
    if message != "" && message[0] == ':' then [Through(message, ';')] else []
  }

  /** The packets at the heads of the messages. */
  function Heads(messages: seq<string>): seq<string> {
    if messages == [] then [] else Head(messages[0]) + Heads(messages[1..])
  }

  lemma {:induction false} FindPrefix(a: string, b: string, c: char)
    requires c in a
    ensures Find(a + b, c) == Find(a, c) < |a|
  {
    if a[0] != c {
      assert (a + b)[1..] == a[1..] + b;
      FindPrefix(a[1..], b, c);
    }
  }

  /** Bytes without a colon add no packet before others. */
  lemma {:induction false} GarbageFirst(a: string, b: string)
    requires ':' !in a
    ensures Packets(a + b) == Packets(b)
  {
    if a == "" {
      assert a + b == b;
    } else {
      assert (a + b)[1..] == a[1..] + b;
      GarbageFirst(a[1..], b);
    }
  }

  lemma CompleteFirst(m: string, rest: string)
    requires Complete(m)
    ensures Packets(m + rest) == Head(m) + Packets(rest)
  {
    hide Packets, Find;
    if m[0] == ':' {
      var n := Find(m, ';');
      FindPrefix(m, rest, ';');
      PacketFirst(m + rest);
      CutAt(m, rest, n + 1);
      assert m[n..][1..] == m[n + 1..];
      GarbageFirst(m[n + 1..], rest);
    } else {
      GarbageFirst(m, rest);
      assert [] + Packets(rest) == Packets(rest);
    }
  }

  lemma CutAt(a: string, b: string, n: nat)
    requires n <= |a|
    ensures (a + b)[..n] == a[..n] && (a + b)[n..] == a[n..] + b
  {}

  lemma PacketFirst(s: string)
    requires s != "" && s[0] == ':' && Find(s, ';') < |s|
    ensures Packets(s) == [s[..Find(s, ';') + 1]] + Packets(s[Find(s, ';') + 1..])
  {
    hide Find;
  }

  lemma IncompleteLast(s: string)
    requires Incomplete(s)
    ensures Packets(s) == []
  {
    if s != "" && s[0] != ':' {
      GarbageFirst(s, "");
      assert s + "" == s;
    }
  }

  /** However the stream is cut into complete messages and an incomplete rest, the heads of
      the messages are the packets of the stream. */
  lemma {:induction false} HeadsArePackets(messages: seq<string>, rest: string)
    requires forall m | m in messages :: Complete(m)
    requires Incomplete(rest)
    ensures Packets(Concat(messages) + rest) == Heads(messages)
  {
    hide Packets, Complete, Incomplete, Head;
    if messages == [] {
      assert Concat(messages) + rest == rest;
      IncompleteLast(rest);
    } else {
      var m := messages[0];
      assert m in messages;
      HeadsArePackets(messages[1..], rest);
      CompleteFirst(m, Concat(messages[1..]) + rest);
      assert Concat(messages) + rest == m + (Concat(messages[1..]) + rest);
    }
  }

  /** Two ways to read the same bytes find the same packets. */
  lemma ChunkingDoesNotMatter(a: seq<string>, restA: string, b: seq<string>, restB: string)
    requires forall m | m in a + b :: Complete(m)
    requires Incomplete(restA) && Incomplete(restB)
    requires Concat(a) + restA == Concat(b) + restB
    ensures Heads(a) == Heads(b)
  {
    hide *;
    assert forall m | m in a :: m in a + b;
    assert forall m | m in b :: m in a + b;
    HeadsArePackets(a, restA);
    HeadsArePackets(b, restB);
  }

  // ---------------------------------------------------------------------
  // The segmenter

  /** `seen` are the bytes of the current packet. */
  class DirectHubGcSegmenter {
    var isGcPacket: bool
    var packetLen: nat
    ghost var seen: string

    ghost predicate Valid()
      reads this
    {
      && packetLen == |seen| && Incomplete(seen)
      && (seen != "" ==> (isGcPacket <==> seen[0] == ':'))
    }

    constructor ()
      ensures Valid() && seen == ""
    {
      isGcPacket, packetLen, seen := false, 0, "";
    }

    method Clear()
      modifies this
      ensures Valid() && seen == ""
    {
      isGcPacket, packetLen, seen := false, 0, "";
    }

    /** Looks at more bytes of the packet. A result above 0 is the length of the packet,
        and the segmenter is to be cleared then. */
    method SegmentMessage(data: string) returns (segment: nat)
      requires Valid()
      modifies this
      ensures segment == 0 ==> Valid() && seen == old(seen) + data
      ensures segment > 0 ==> EndsAt(old(seen), data, segment)
    {
      hide Find, Complete, EndsAt;
      if |data| == 0 {
        assert seen + data == seen;
        return 0;
      }
      ghost var all := seen + data;
      seen := all;
      if packetLen == 0 {
        isGcPacket := data[0] == ':';
      }
      var ofs := 0;
      if isGcPacket {
        while ofs < |data| && data[ofs] != ';'
          invariant ofs <= |data| && ';' !in data[..ofs]
        {
          ofs := ofs + 1;
        }
        if ofs < |data| {
          ghost var end := ofs;
          ofs := ofs + 1;
          while ofs < |data| && data[ofs] != ':'
            invariant end < ofs <= |data| && ':' !in data[end..ofs]
          {
            ofs := ofs + 1;
          }
          PacketEnds(old(seen), data, end, ofs);
          packetLen := packetLen + ofs;
          return packetLen;
        } else {
          assert data[..|data|] == data;
          packetLen := packetLen + |data|;
          return 0;
        }
      } else {
        while ofs < |data| && data[ofs] != ':'
          invariant ofs <= |data| && ':' !in data[..ofs]
        {
          ofs := ofs + 1;
        }
        packetLen := packetLen + ofs;
        if ofs < |data| {
          GarbageEnds(old(seen), data, ofs);
          return packetLen;
        } else {
          assert data[..|data|] == data;
          return 0;
        }
      }
    }
  }

  /** A message is complete after `n` bytes; the bytes end there, or a colon follows. A
      packet that has its semicolon is not held back: `seen` did not have it. */
  ghost predicate EndsAt(seen: string, data: string, n: nat) {
    var all := seen + data;
    && |seen| <= n <= |all| && Complete(all[..n])
    && (n == |all| || all[n] == ':')
    && (all[0] != ':' ==> n < |all|)
  }

  lemma PacketEnds(seen: string, data: string, end: nat, ofs: nat)
    requires end < ofs <= |data| && data[end] == ';' && ';' !in seen && ';' !in data[..end] && ':' !in data[end..ofs]
    requires (seen + data)[0] == ':' && (ofs < |data| ==> data[ofs] == ':')
    ensures EndsAt(seen, data, |seen| + ofs)
  {
    hide Find;
    var all := seen + data;
    var m := all[..|seen| + ofs];
    var k := |seen| + end;
    assert m == seen + data[..ofs];
    assert m[k] == ';';
    forall j | 0 <= j < k ensures m[j] != ';' {
      assert m[j] == if j < |seen| then seen[j] else data[..end][j - |seen|];
    }
    FindUnique(m, ';', k);
    assert m[k..] == data[..ofs][end..] == data[end..ofs];
  }

  lemma FindUnique(s: string, c: char, k: nat)
    requires k < |s| && s[k] == c && forall j | 0 <= j < k :: s[j] != c
    ensures Find(s, c) == k
  {}

  lemma GarbageEnds(seen: string, data: string, ofs: nat)
    requires ofs < |data| && data[ofs] == ':' && ':' !in data[..ofs] && ':' !in seen && |seen| + ofs > 0
    ensures EndsAt(seen, data, |seen| + ofs)
  {
    assert (seen + data)[..|seen| + ofs] == seen + data[..ofs];
  }

  // ---------------------------------------------------------------------
  // The read flow

  /** `buf` holds what was read and not sent. */
  class DirectHubReadFlow {
    const segmenter: DirectHubGcSegmenter
    var buf: string
    var sent: seq<string>

    ghost predicate Valid()
      reads this, segmenter
    {
      && segmenter.Valid() && segmenter.seen == buf
      && forall m | m in sent :: Complete(m)
    }

    constructor ()
      ensures Valid() && buf == "" && sent == [] && fresh(segmenter)
    {
      segmenter := new DirectHubGcSegmenter();
      buf, sent := "", [];
    }

    /** Bytes have arrived: sends all messages that are complete now. */
    method ReadDone(data: string)
      requires Valid()
      modifies this, segmenter
      ensures Valid()
      ensures Concat(sent) + buf == old(Concat(sent) + buf) + data
    {
      hide Complete, Incomplete, Concat, Find, EndsAt;
      ghost var all := Concat(sent) + buf + data;
      var segmentSize: nat := segmenter.SegmentMessage(data);
      buf := buf + data;
      assert Concat(sent) + buf == all;
      if segmentSize > 0 { SegmentFits(old(buf), data, segmentSize); }
      while segmentSize > 0
        invariant segmentSize <= |buf| && (segmentSize > 0 ==> Complete(buf[..segmentSize]))
        invariant segmentSize == 0 ==> Valid()
        invariant forall m | m in sent :: Complete(m)
        invariant Concat(sent) + buf == all
        decreases |buf|, segmentSize
      {
        // eval_segment, send_prefix and send_done
        segmenter.Clear();
        ConcatAppend(sent, buf[..segmentSize]);
        assert buf == buf[..segmentSize] + buf[segmentSize..];
        assert all == Concat(sent + [buf[..segmentSize]]) + buf[segmentSize..];
        sent := sent + [buf[..segmentSize]];
        buf := buf[segmentSize..];
        segmentSize := 0;
        if buf != "" {
          // call_head_segmenter
          segmentSize := segmenter.SegmentMessage(buf);
          assert "" + buf == buf;
          if segmentSize > 0 { SegmentFits("", buf, segmentSize); }
        }
      }
    }

    /** A whole stream, in any chunks: what is sent and the rest make up the input, what is
        sent heads with the packets of the input, and the rest is incomplete. */
    method ReadAll(chunks: seq<string>)
      requires Valid() && buf == "" && sent == []
      modifies this, segmenter
      ensures Valid() && Concat(sent) + buf == Concat(chunks)
      ensures Heads(sent) == Packets(Concat(chunks)) && Packets(buf) == []
    {
      hide Complete, Incomplete, Concat, Find, Heads, Packets;
      ConcatNothing();
      for i := 0 to |chunks|
        invariant Valid() && Concat(sent) + buf == Concat(chunks[..i])
      {
        ConcatAppend(chunks[..i], chunks[i]);
        assert chunks[..i + 1] == chunks[..i] + [chunks[i]];
        ReadDone(chunks[i]);
      }
      assert chunks[..|chunks|] == chunks;
      HeadsArePackets(sent, buf);
      IncompleteLast(buf);
    }
  }

  lemma SegmentFits(seen: string, data: string, n: nat)
    requires EndsAt(seen, data, n)
    ensures n <= |seen + data| && Complete((seen + data)[..n])
  {}

  lemma ConcatNothing()
    ensures Concat([]) == "" && Concat([]) + "" == ""
  {}

  lemma {:induction false} ConcatAppend(parts: seq<string>, s: string)
    ensures Concat(parts + [s]) == Concat(parts) + s
  {
    if parts == [] {
      assert parts + [s] == [s] && [s][1..] == [];
    } else {
      ConcatAppend(parts[1..], s);
      assert (parts + [s])[1..] == parts[1..] + [s];
    }
  }
}
