/** The iSAC encoder filter: 10 ms frames out of an arbitrary block stream. */
module Isac {
  import opened Streams
  import opened Reframing

  const SAMPLES_PER_ENCODE := 160
  const FRAME_BYTES := 320

  datatype Packet = Packet(timestamp: nat, length: int)

  /** The filter's state, with every block handed to the codec so far. */
  datatype State = State(buffer: Block, ts: nat, calls: seq<Block>, packets: seq<Packet>)

  const FRESH := State([], 0, [], [])

  /** What the codec returns depends on everything it was given since it was created: negative
      for an error, 0 when it wants more input, else the length of a finished packet. */
  type Codec = seq<Block> -> int

  function Advance(ts: nat): nat { (ts + SAMPLES_PER_ENCODE) % 0x1_0000_0000 }

  function EncodeOne(s: State, codec: Codec): State
    requires |s.buffer| > FRAME_BYTES
  {
    var calls := s.calls + [s.buffer[..FRAME_BYTES]];
    var s' := s.(buffer := s.buffer[FRAME_BYTES..], calls := calls);
    var ret := codec(calls);
    if ret < 0 then s'
    else if ret == 0 then s'.(ts := Advance(s.ts))
    else s'.(ts := Advance(s.ts), packets := s.packets + [Packet(Advance(s.ts), ret)])
  }

  /** Feeds the encoder as long as strictly more than a frame is buffered. */
  function Drain(s: State, codec: Codec): State
    decreases |s.buffer|
  {
    if |s.buffer| > FRAME_BYTES then Drain(EncodeOne(s, codec), codec) else s
  }

  function Feed(s: State, input: Block): State { s.(buffer := s.buffer + input) }

  function ProcessCall(s: State, blocks: seq<Block>, codec: Codec): State {
    Drain(Feed(s, Flatten(blocks)), codec)
  }

  /** A whole run: one entry for every process call, holding the blocks it found queued. */
  function Run(ticks: seq<seq<Block>>, codec: Codec): State {
    if ticks == [] then FRESH else ProcessCall(Run(ticks[..|ticks| - 1], codec), ticks[|ticks| - 1], codec)
  }

  // ---------- what a run computes ----------

  /** Successful calls among those made so far. */
  function Successes(calls: seq<Block>, codec: Codec): nat {
    if calls == [] then 0
    else Successes(calls[..|calls| - 1], codec) + if codec(calls) >= 0 then 1 else 0
  }

  lemma {:induction false} DrainAppend(s: State, b: Block, codec: Codec)
    ensures Drain(Feed(s, b), codec) == Drain(Feed(Drain(s, codec), b), codec)
    decreases |s.buffer|
  {
    if |s.buffer| > FRAME_BYTES {
      var t := Feed(s, b);
      assert t.buffer[..FRAME_BYTES] == s.buffer[..FRAME_BYTES];
      assert t.buffer[FRAME_BYTES..] == s.buffer[FRAME_BYTES..] + b;
      assert EncodeOne(t, codec) == Feed(EncodeOne(s, codec), b);
      DrainAppend(EncodeOne(s, codec), b, codec);
    }
  }

  lemma FeedTwice(s: State, a: Block, b: Block)
    ensures Feed(Feed(s, a), b) == Feed(s, a + b)
  {
    assert s.buffer + a + b == s.buffer + (a + b);
  }

  /** How input is cut into blocks and process calls makes no difference at all: every run ends
      in the state one call on the whole input would have reached. */
  lemma {:induction false} ScheduleIndependent(ticks: seq<seq<Block>>, codec: Codec)
    ensures Run(ticks, codec) == Drain(Feed(FRESH, Flatten(Flatten(ticks))), codec)
  {
    if ticks == [] {
      assert Feed(FRESH, []) == FRESH;
    } else {
      var before, last := ticks[..|ticks| - 1], ticks[|ticks| - 1];
      ScheduleIndependent(before, codec);
      var a, b := Flatten(Flatten(before)), Flatten(last);
      FlattenConcat(Flatten(before), last);
      DrainAppend(Feed(FRESH, a), b, codec);
      FeedTwice(FRESH, a, b);
    }
  }

  lemma {:induction false} DrainSlices(s: State, codec: Codec)
    ensures var t := Drain(s, codec);
            && t.calls == s.calls + Slices(s.buffer, FRAME_BYTES, 1)
            && t.buffer == Residue(s.buffer, FRAME_BYTES, 1)
    decreases |s.buffer|
  {
    if |s.buffer| > FRAME_BYTES {
      var t := EncodeOne(s, codec);
      DrainSlices(t, codec);
      var one, more := [s.buffer[..FRAME_BYTES]], Slices(t.buffer, FRAME_BYTES, 1);
      assert t.calls == s.calls + one;
      assert (s.calls + one) + more == s.calls + (one + more);
    }
  }

  ghost predicate Counted(s: State, codec: Codec) {
    s.ts == SAMPLES_PER_ENCODE * Successes(s.calls, codec) % 0x1_0000_0000
  }

  lemma EncodeCounts(s: State, codec: Codec)
    requires Counted(s, codec) && |s.buffer| > FRAME_BYTES
    ensures Counted(EncodeOne(s, codec), codec)
  {
    var t := EncodeOne(s, codec);
    assert t.calls[..|t.calls| - 1] == s.calls;
    AdvanceCounts(Successes(s.calls, codec));
  }

  lemma AdvanceCounts(n: nat)
    ensures Advance(SAMPLES_PER_ENCODE * n % 0x1_0000_0000) == SAMPLES_PER_ENCODE * (n + 1) % 0x1_0000_0000
  {
  }

  lemma {:induction false} DrainCounts(s: State, codec: Codec)
    requires Counted(s, codec)
    ensures Counted(Drain(s, codec), codec)
    decreases |s.buffer|
  {
    if |s.buffer| > FRAME_BYTES {
      EncodeCounts(s, codec);
      DrainCounts(EncodeOne(s, codec), codec);
    }
  }

  /** After any split of T > 0 bytes into blocks and process calls, exactly (T - 1) / 320 encode
      calls were made, on the consecutive 320-byte slices of the input; between 1 and 320 bytes
      are left; and the timestamp counts 160 samples for every call that succeeded, mod 2^32. */
  lemma EncodesConsecutiveSlices(ticks: seq<seq<Block>>, codec: Codec)
    requires Flatten(Flatten(ticks)) != []
    ensures var input, s := Flatten(Flatten(ticks)), Run(ticks, codec);
            && |s.calls| == (|input| - 1) / FRAME_BYTES
            && AllSized(s.calls, FRAME_BYTES)
            && Flatten(s.calls) + s.buffer == input
            && 1 <= |s.buffer| <= FRAME_BYTES
            && s.ts == SAMPLES_PER_ENCODE * Successes(s.calls, codec) % 0x1_0000_0000
  {
    var input, s := Flatten(Flatten(ticks)), Run(ticks, codec);
    ScheduleIndependent(ticks, codec);
    var fed := Feed(FRESH, input);
    assert fed.buffer == input && Counted(fed, codec);
    DrainSlices(fed, codec);
    DrainCounts(fed, codec);
    SlicesPartition(input, FRAME_BYTES, 1);
    assert s.calls == [] + Slices(input, FRAME_BYTES, 1) == Slices(input, FRAME_BYTES, 1);
  }

  /** The packets that a sequence of calls finishes: one for every call the codec answers with
      a length, of that length, stamped with the samples of all successful calls so far. */
  function Finished(calls: seq<Block>, codec: Codec): seq<Packet> {
    if calls == [] then []
    else
      Finished(calls[..|calls| - 1], codec) +
      if codec(calls) > 0 then [Packet(160 * Successes(calls, codec) % 0x1_0000_0000, codec(calls))] else []
  }

  ghost predicate PutOut(s: State, codec: Codec) {
    Counted(s, codec) && s.packets == Finished(s.calls, codec)
  }

  lemma EncodePutsOut(s: State, codec: Codec)
    requires PutOut(s, codec) && |s.buffer| > FRAME_BYTES
    ensures PutOut(EncodeOne(s, codec), codec)
  {
    EncodeCounts(s, codec);
    var calls := EncodeOne(s, codec).calls;
    assert calls[..|calls| - 1] == s.calls;
  }

  lemma {:induction false} DrainPutsOut(s: State, codec: Codec)
    requires PutOut(s, codec)
    ensures PutOut(Drain(s, codec), codec)
    decreases |s.buffer|
  {
    if |s.buffer| > FRAME_BYTES {
      EncodePutsOut(s, codec);
      DrainPutsOut(EncodeOne(s, codec), codec);
    }
  }

  /** Over every run the packets put out are exactly those the calls finish, each once and in
      order. */
  lemma PacketsPutOut(ticks: seq<seq<Block>>, codec: Codec)
    ensures Run(ticks, codec).packets == Finished(Run(ticks, codec).calls, codec)
  {
    ScheduleIndependent(ticks, codec);
    DrainPutsOut(Feed(FRESH, Flatten(Flatten(ticks))), codec);
  }

  /** Every call the codec answers with a length has its packet, at the place its number among
      such calls gives. */
  lemma {:induction false} EveryFinishedCallIsSent(calls: seq<Block>, codec: Codec, k: nat)
    requires 1 <= k <= |calls| && codec(calls[..k]) > 0
    ensures var i := |Finished(calls[..k], codec)| - 1;
            && 0 <= i < |Finished(calls, codec)|
            && Finished(calls, codec)[i]
               == Packet(160 * Successes(calls[..k], codec) % 0x1_0000_0000, codec(calls[..k]))
  {
    if k == |calls| {
      assert calls[..k] == calls;
    } else {
      assert calls[..|calls| - 1][..k] == calls[..k];
      EveryFinishedCallIsSent(calls[..|calls| - 1], codec, k);
    }
  }

  // ---------- the filter ----------

  class IsacEncoder {
    const bufferizer: Bufferizer
    var ts: nat
    var packets: seq<Packet>
    /** The codec instance: what it was given, which is all its answers can depend on. */
    var calls: seq<Block>

    ghost function Abstract(): State
      reads this, bufferizer
    {
      State(bufferizer.bytes, ts, calls, packets)
    }

    constructor ()
      ensures Abstract() == FRESH && fresh(bufferizer)
    {
      bufferizer := new Bufferizer();
      ts, packets, calls := 0, [], [];
    }

    /** `Encode` stands for the codec call, a stateful function of all it was given. */
    method Process(input: seq<Block>, codec: Codec)
      modifies this, bufferizer
      ensures Abstract() == ProcessCall(old(Abstract()), input, codec)
    {
      bufferizer.PutFromQueue(input);
      while |bufferizer.bytes| > SAMPLES_PER_ENCODE * 2
        invariant Drain(Abstract(), codec) == ProcessCall(old(Abstract()), input, codec)
        decreases |bufferizer.bytes|
      {
        ghost var before := Abstract();
        var got, frame := bufferizer.Read(SAMPLES_PER_ENCODE * 2);
        var ret := EncodeFrame(frame, codec);
        if ret < 0 {
        } else if ret == 0 {
          ts := (ts + SAMPLES_PER_ENCODE) % 0x1_0000_0000;
        } else {
          ts := (ts + SAMPLES_PER_ENCODE) % 0x1_0000_0000;
          packets := packets + [Packet(ts, ret)];
        }
        assert Abstract() == EncodeOne(before, codec);
      }
    }

    method EncodeFrame(frame: Block, codec: Codec) returns (ret: int)
      modifies this`calls
      ensures calls == old(calls) + [frame] && ret == codec(calls)
    {
      var history := calls + [frame];
      calls := history;
      ret := codec(history);
    }
  }
}
