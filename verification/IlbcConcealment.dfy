/** When the iLBC decoder filter conceals a frame, and what it puts out over a run. */
module IlbcConcealment {
  import opened Streams
  import opened Reframing
  import opened IlbcEncoder
  import opened IlbcDecoder
  import opened IlbcDecoderTheorems

  // ---------- reading a log of calls ----------

  function Conceals(calls: seq<Call>): nat {
    if calls == [] then 0
    else Conceals(calls[..|calls| - 1]) + if calls[|calls| - 1].Conceal? then 1 else 0
  }

  /** The mode, in milliseconds, the codec was last set up for; 0 before that. */
  function SetUp(calls: seq<Call>): nat {
    if calls == [] then 0
    else if calls[|calls| - 1].InitDecode? then calls[|calls| - 1].ms
    else SetUp(calls[..|calls| - 1])
  }

  /** The milliseconds the calls produce: each decoded or concealed frame lasts as long as the
      mode that is set up says. */
  function Duration(calls: seq<Call>): nat {
    if calls == [] then 0
    else Duration(calls[..|calls| - 1]) + if calls[|calls| - 1].InitDecode? then 0 else SetUp(calls)
  }

  lemma CallAdded(calls: seq<Call>, c: Call)
    ensures Conceals(calls + [c]) == Conceals(calls) + if c.Conceal? then 1 else 0
    ensures SetUp(calls + [c]) == if c.InitDecode? then c.ms else SetUp(calls)
    ensures Duration(calls + [c]) == Duration(calls) + if c.InitDecode? then 0 else SetUp(calls)
  {
    assert (calls + [c])[..|calls|] == calls;
  }

  lemma {:induction false} FramesAdded(calls: seq<Call>, frames: seq<Block>)
    ensures var t := calls + DecodeCalls(frames);
            && SetUp(t) == SetUp(calls)
            && Duration(t) == Duration(calls) + |frames| * SetUp(calls)
  {
    hide Conceals, SetUp, Duration;
    if frames == [] {
      assert calls + DecodeCalls(frames) == calls;
    } else {
      var init, last := frames[..|frames| - 1], frames[|frames| - 1];
      FramesAdded(calls, init);
      CallAdded(calls + DecodeCalls(init), Decode(last));
      assert calls + DecodeCalls(frames) == (calls + DecodeCalls(init)) + [Decode(last)] by {
        DecodeCallsSnoc(init, last);
        assert frames == init + [last];
      }
    }
  }

  // ---------- what is put out ----------

  /** The codec is set up for the filter's mode, and the samples put out and the time reported
      are those of the calls. */
  ghost predicate Accounted(s: DecState, plc: bool) {
    && s.config.msPerFrame == SetUp(s.calls)
    && s.emitted == 8 * Duration(s.calls)
    && s.reported == if plc then Duration(s.calls) else 0
  }

  lemma DecodingDuration(calls: seq<Call>, m: Config, c: Config, frames: seq<Block>)
    requires m == MODE20 || m == MODE30
    requires c.msPerFrame == SetUp(calls)
    ensures var t := Begun(calls, m, c) + DecodeCalls(frames);
            && SetUp(t) == m.msPerFrame
            && Duration(t) == Duration(calls) + |frames| * m.msPerFrame
            && 8 * (|frames| * m.msPerFrame) == |frames| * m.nsamples
  {
    CallAdded(calls, InitDecode(m.msPerFrame));
    FramesAdded(Begun(calls, m, c), frames);
    EightPerMillisecond(|frames|, m);
    hide SetUp, Duration, DecodeCalls;
  }

  lemma PacketAccounted(s: DecState, p: Block, plc: bool)
    requires DecInv(s, plc) && Accounted(s, plc)
    ensures Accounted(DecodePacket(s, p, plc), plc)
  {
    if Acceptable(|p|) {
      PacketDecodes(s, p, plc);
      var m := ModeFor(s.config, |p|);
      var frames := Slices(p, m.nbytes, 0);
      hide Slices, ModeFor, DecodePacket, DecodeCalls, Begun, Flatten, DecInv, SetUp, Duration;
      DecodingDuration(s.calls, m, s.config, frames);
    }
  }

  lemma {:induction false} PacketsAccounted(s: DecState, ps: seq<Block>, plc: bool)
    requires DecInv(s, plc) && Accounted(s, plc)
    ensures Accounted(DecodePackets(s, ps, plc), plc)
  {
    hide DecInv, Accounted, DecodePacket, Conceals;
    if ps != [] {
      PacketsAccounted(s, ps[..|ps| - 1], plc);
      PacketsInv(s, ps[..|ps| - 1], plc);
      PacketAccounted(DecodePackets(s, ps[..|ps| - 1], plc), ps[|ps| - 1], plc);
    }
  }

  lemma ConcealAccounted(s: DecState, plc: bool, required: bool)
    requires DecInv(s, plc) && Accounted(s, plc)
    ensures Accounted(ConcealIfRequired(s, plc, required), plc)
  {
    hide Conceals, SetUp, Duration;
    CallAdded(s.calls, Conceal);
  }

  /** Over every run the samples put out are eight for every millisecond of the frames decoded
      and concealed, each in the mode the codec was last set up for, and the concealer, where
      there is one, is told exactly that time. */
  lemma {:induction false} PutsOutWhatIsCalled(ticks: seq<DecTick>, plc: bool)
    ensures var t := DecRun(ticks, plc);
            && t.emitted == 8 * Duration(t.calls)
            && t.reported == (if plc then Duration(t.calls) else 0)
            && t.config.msPerFrame == SetUp(t.calls)
  {
    hide DecInv, DecodePackets, ConcealIfRequired;
    if ticks != [] {
      hide SetUp, Duration;
      var m, last := DecRun(ticks[..|ticks| - 1], plc), ticks[|ticks| - 1];
      PutsOutWhatIsCalled(ticks[..|ticks| - 1], plc);
      DecoderConservation(ticks[..|ticks| - 1], plc);
      PacketsAccounted(m, last.packets, plc);
      PacketsInv(m, last.packets, plc);
      ConcealAccounted(DecodePackets(m, last.packets, plc), plc, last.required);
    }
  }

  // ---------- the codec's protocol ----------

  /** The codec may be set up for another mode at any time; it decodes frames of the size of the
      mode that is set up, and conceals once some mode is. */
  ghost predicate Permitted(before: seq<Call>, c: Call) {
    match c {
      case InitDecode(ms) => (ms == 20 || ms == 30) && ms != SetUp(before)
      case Decode(frame) => (SetUp(before) == 20 && |frame| == 38) || (SetUp(before) == 30 && |frame| == 50)
      case Conceal => SetUp(before) == 20 || SetUp(before) == 30
    }
  }

  ghost predicate Protocol(calls: seq<Call>) {
    forall i :: 0 <= i < |calls| ==> Permitted(calls[..i], calls[i])
  }

  lemma ProtocolSnoc(calls: seq<Call>, c: Call)
    requires Protocol(calls) && Permitted(calls, c)
    ensures Protocol(calls + [c])
  {
    hide Permitted;
    var more := calls + [c];
    forall i | 0 <= i < |more| ensures Permitted(more[..i], more[i]) {
      assert i < |calls| ==> more[..i] == calls[..i];
      assert more[..|calls|] == calls;
    }
  }

  lemma {:induction false} FramesPermitted(calls: seq<Call>, m: Config, frames: seq<Block>)
    requires (m == MODE20 || m == MODE30) && SetUp(calls) == m.msPerFrame
    requires Protocol(calls) && AllSized(frames, m.nbytes)
    ensures Protocol(calls + DecodeCalls(frames))
  {
    hide Protocol, SetUp;
    if frames == [] {
      assert calls + DecodeCalls(frames) == calls;
    } else {
      var init, last := frames[..|frames| - 1], frames[|frames| - 1];
      FramesPermitted(calls, m, init);
      FramesAdded(calls, init);
      ProtocolSnoc(calls + DecodeCalls(init), Decode(last));
      assert calls + DecodeCalls(frames) == (calls + DecodeCalls(init)) + [Decode(last)] by {
        DecodeCallsSnoc(init, last);
        assert frames == init + [last];
      }
    }
  }

  lemma PacketPermitted(s: DecState, p: Block, plc: bool)
    requires DecInv(s, plc) && Accounted(s, plc) && Protocol(s.calls)
    ensures Protocol(DecodePacket(s, p, plc).calls)
  {
    if Acceptable(|p|) {
      PacketDecodes(s, p, plc);
      var m := ModeFor(s.config, |p|);
      var frames, begun := Slices(p, m.nbytes, 0), Begun(s.calls, m, s.config);
      assert m != s.config ==> m.msPerFrame != s.config.msPerFrame;
      CallAdded(s.calls, InitDecode(m.msPerFrame));
      hide Slices, ModeFor, DecodePacket, DecodeCalls, Flatten, Decoded, Protocol, SetUp, Duration;
      if m != s.config { ProtocolSnoc(s.calls, InitDecode(m.msPerFrame)); }
      FramesPermitted(begun, m, frames);
    }
  }

  lemma {:induction false} PacketsPermitted(s: DecState, ps: seq<Block>, plc: bool)
    requires DecInv(s, plc) && Accounted(s, plc) && Protocol(s.calls)
    ensures Protocol(DecodePackets(s, ps, plc).calls)
  {
    hide DecInv, Accounted, DecodePacket, Protocol;
    if ps != [] {
      PacketsPermitted(s, ps[..|ps| - 1], plc);
      PacketsAccounted(s, ps[..|ps| - 1], plc);
      PacketsInv(s, ps[..|ps| - 1], plc);
      PacketPermitted(DecodePackets(s, ps[..|ps| - 1], plc), ps[|ps| - 1], plc);
    }
  }

  /** Over every run the codec is set up before it decodes or conceals, is set up again exactly
      to change its mode, and is given only frames of the mode it is in. */
  lemma {:induction false} ProtocolKept(ticks: seq<DecTick>, plc: bool)
    ensures Protocol(DecRun(ticks, plc).calls)
  {
    if ticks != [] {
      hide Protocol, SetUp, Duration, Decoded, Flatten, DecodePackets;
      var init, last := ticks[..|ticks| - 1], ticks[|ticks| - 1];
      ProtocolKept(init, plc);
      PutsOutWhatIsCalled(init, plc);
      DecoderConservation(init, plc);
      PacketsPermitted(DecRun(init, plc), last.packets, plc);
      PacketsAccounted(DecRun(init, plc), last.packets, plc);
      PacketsInv(DecRun(init, plc), last.packets, plc);
      var s := DecodePackets(DecRun(init, plc), last.packets, plc);
      if plc && s.ready && last.required { ProtocolSnoc(s.calls, Conceal); }
    }
  }

  // ---------- when a frame is concealed ----------

  /** A payload of whole 20 ms or 30 ms frames is among the packets. */
  ghost predicate Heard(ps: seq<Block>) {
    exists i :: 0 <= i < |ps| && |ps[i]| > 0 && (|ps[i]| % 38 == 0 || |ps[i]| % 50 == 0)
  }

  lemma {:induction false} ReadyIfHeard(s: DecState, ps: seq<Block>, plc: bool)
    requires DecInv(s, plc)
    ensures DecodePackets(s, ps, plc).ready <==> s.ready || Heard(ps)
  {
    if ps != [] {
      var init, last := ps[..|ps| - 1], ps[|ps| - 1];
      ReadyIfHeard(s, init, plc);
      PacketsInv(s, init, plc);
      if Acceptable(|last|) { PacketDecodes(DecodePackets(s, init, plc), last, plc); }
      HeardSnoc(init, last);
      assert ps == init + [last];
      hide Heard, DecInv;
    }
  }

  lemma HeardSnoc(ps: seq<Block>, p: Block)
    ensures Heard(ps + [p]) <==> Heard(ps) || Acceptable(|p|)
  {
    var qs := ps + [p];
    assert qs[|ps|] == p;
    assert forall i :: 0 <= i < |ps| ==> qs[i] == ps[i];
  }

  lemma HeardConcat(a: seq<Block>, b: seq<Block>)
    ensures Heard(a + b) <==> Heard(a) || Heard(b)
  {
    var c := a + b;
    assert forall i :: 0 <= i < |a| ==> c[i] == a[i];
    assert forall i :: 0 <= i < |b| ==> c[|a| + i] == b[i];
  }

  lemma {:induction false} RunReadyIfHeard(ticks: seq<DecTick>, plc: bool)
    ensures DecRun(ticks, plc).ready <==> Heard(Received(ticks))
  {
    if ticks != [] {
      var init, last := ticks[..|ticks| - 1], ticks[|ticks| - 1];
      RunReadyIfHeard(init, plc);
      DecoderConservation(init, plc);
      ReadyIfHeard(DecRun(init, plc), last.packets, plc);
      HeardConcat(Received(init), last.packets);
      hide Heard, DecInv, DecodePackets;
    }
  }

  /** In tick `k` a frame is to be concealed: there is a concealer, it asks for a frame, and a
      packet that could be decoded has arrived by then. */
  ghost predicate Due(ticks: seq<DecTick>, k: nat, plc: bool)
    requires k < |ticks|
  {
    plc && ticks[k].required && Heard(Received(ticks[..k + 1]))
  }

  ghost function DueTicks(ticks: seq<DecTick>, plc: bool): set<nat> {
    set k: nat | k < |ticks| && Due(ticks, k, plc)
  }

  lemma NothingDecoded()
    ensures Decoded([]) == [] && Flatten<byte>([]) == []
  {
  }

  lemma DecodingCalls(calls: seq<Call>, m: Config, c: Config, frames: seq<Block>)
    ensures var decoding := Begun([], m, c) + DecodeCalls(frames);
            && Begun(calls, m, c) + DecodeCalls(frames) == calls + decoding
            && Conceal !in decoding && Decoded(decoding) == frames
  {
    NothingDecoded();
    BegunCalls([], m, c);
    hide Decoded, Inits;
    DecodesAppend(Begun([], m, c), frames);
    assert [] + frames == frames;
    assert calls + [] == calls;
  }

  lemma PacketCalls(s: DecState, p: Block, plc: bool) returns (decoding: seq<Call>)
    requires DecInv(s, plc)
    ensures DecodePacket(s, p, plc).calls == s.calls + decoding && Conceal !in decoding
    ensures Flatten(Decoded(decoding)) == if Acceptable(|p|) then p else []
  {
    if Acceptable(|p|) {
      PacketDecodes(s, p, plc);
      hide *;
      var m := ModeFor(s.config, |p|);
      var frames := Slices(p, m.nbytes, 0);
      decoding := Begun([], m, s.config) + DecodeCalls(frames);
      DecodingCalls(s.calls, m, s.config, frames);
    } else {
      decoding := [];
      NothingDecoded();
    }
  }

  lemma {:induction false} DecodedConcat(a: seq<Call>, b: seq<Call>)
    ensures Decoded(a + b) == Decoded(a) + Decoded(b)
  {
    if b == [] {
      assert a + b == a;
    } else {
      DecodedConcat(a, b[..|b| - 1]);
      assert (a + b)[..|a + b| - 1] == a + b[..|b| - 1];
    }
  }

  lemma CallsJoined(calls: seq<Call>, a: seq<Call>, b: seq<Call>)
    requires Conceal !in a && Conceal !in b
    ensures (calls + a) + b == calls + (a + b) && Conceal !in a + b
    ensures Flatten(Decoded(a + b)) == Flatten(Decoded(a)) + Flatten(Decoded(b))
  {
    DecodedConcat(a, b);
    FlattenConcat(Decoded(a), Decoded(b));
    hide *;
  }

  lemma AcceptableBytes(ps: seq<Block>)
    ensures ps == [] ==> Flatten(AcceptableOnly(ps)) == []
    ensures ps != [] ==>
      var last := ps[|ps| - 1];
      Flatten(AcceptableOnly(ps))
      == Flatten(AcceptableOnly(ps[..|ps| - 1])) + if Acceptable(|last|) then last else []
  {
    if ps != [] {
      var init, last := AcceptableOnly(ps[..|ps| - 1]), ps[|ps| - 1];
      hide Acceptable;
      FlattenSnoc(init, last);
      assert init + [] == init && Flatten(init) + [] == Flatten(init);
    }
  }

  lemma {:induction false} PacketsCalls(s: DecState, ps: seq<Block>, plc: bool) returns (decoding: seq<Call>)
    requires DecInv(s, plc)
    ensures DecodePackets(s, ps, plc).calls == s.calls + decoding && Conceal !in decoding
    ensures Flatten(Decoded(decoding)) == Flatten(AcceptableOnly(ps))
  {
    hide *;
    PacketsSnoc(s, ps, plc);
    AcceptableBytes(ps);
    if ps == [] {
      decoding := [];
      NothingDecoded();
    } else {
      var before := PacketsCalls(s, ps[..|ps| - 1], plc);
      PacketsInv(s, ps[..|ps| - 1], plc);
      var more := PacketCalls(DecodePackets(s, ps[..|ps| - 1], plc), ps[|ps| - 1], plc);
      decoding := before + more;
      CallsJoined(s.calls, before, more);
    }
  }

  /** The calls a tick adds: those that decode its packets, then the concealing of one frame
      exactly if that is due. */
  lemma TickCalls(ticks: seq<DecTick>, plc: bool) returns (decoding: seq<Call>)
    requires ticks != []
    ensures var init, last := ticks[..|ticks| - 1], ticks[|ticks| - 1];
            && DecRun(ticks, plc).calls
               == DecRun(init, plc).calls + decoding + (if Due(ticks, |ticks| - 1, plc) then [Conceal] else [])
            && Conceal !in decoding
            && Flatten(Decoded(decoding)) == Flatten(AcceptableOnly(last.packets))
  {
    var init, last := ticks[..|ticks| - 1], ticks[|ticks| - 1];
    DecoderConservation(init, plc);
    RunReadyIfHeard(init, plc);
    ReadyIfHeard(DecRun(init, plc), last.packets, plc);
    HeardConcat(Received(init), last.packets);
    assert ticks[..|ticks|] == ticks;
    decoding := PacketsCalls(DecRun(init, plc), last.packets, plc);
    hide Heard, DecInv, DecodePackets, Decoded, AcceptableOnly;
  }

  lemma {:induction false} NoConceals(calls: seq<Call>, decoding: seq<Call>)
    requires Conceal !in decoding
    ensures Conceals(calls + decoding) == Conceals(calls)
  {
    if decoding == [] {
      assert calls + decoding == calls;
    } else {
      var init, last := decoding[..|decoding| - 1], decoding[|decoding| - 1];
      NoConceals(calls, init);
      CallAdded(calls + init, last);
      assert calls + decoding == (calls + init) + [last];
      assert last in decoding;
    }
  }

  lemma DueSnoc(ticks: seq<DecTick>, plc: bool)
    requires ticks != []
    ensures var n := |ticks| - 1;
            DueTicks(ticks, plc) == DueTicks(ticks[..n], plc) + if Due(ticks, n, plc) then {n} else {}
  {
    var init := ticks[..|ticks| - 1];
    forall k: nat | k < |init| ensures Due(init, k, plc) <==> Due(ticks, k, plc) {
      assert init[..k + 1] == ticks[..k + 1];
    }
    hide Due;
  }

  /** Over every run a frame is concealed exactly once in every tick in which that is due. */
  lemma {:induction false} ConcealsWhenDue(ticks: seq<DecTick>, plc: bool)
    ensures Conceals(DecRun(ticks, plc).calls) == |DueTicks(ticks, plc)|
  {
    if ticks == [] {
      assert DueTicks(ticks, plc) == {};
    } else {
      var init := ticks[..|ticks| - 1];
      ConcealsWhenDue(init, plc);
      var decoding := TickCalls(ticks, plc);
      DueSnoc(ticks, plc);
      var n := |ticks| - 1;
      assert n !in DueTicks(init, plc);
      hide Due, DueTicks, DecRun, Conceals;
      var calls := DecRun(init, plc).calls;
      NoConceals(calls, decoding);
      CallAdded(calls + decoding, Conceal);
      assert (calls + decoding) + [] == calls + decoding;
    }
  }
}
