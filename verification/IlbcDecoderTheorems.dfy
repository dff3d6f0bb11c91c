/** What the iLBC decoder filter guarantees, alone and fed by the encoder filter. */
module IlbcDecoderTheorems {
  import opened Streams
  import opened Reframing
  import opened IlbcEncoder
  import IlbcEncoderTheorems
  import IlbcEncoderHistory
  import opened IlbcDecoder

  /** The frames handed to iLBC_decode. */
  function Decoded(calls: seq<Call>): seq<Block> {
    if calls == [] then []
    else Decoded(calls[..|calls| - 1]) + if calls[|calls| - 1].Decode? then [calls[|calls| - 1].frame] else []
  }

  /** The (re-)initialisations of the codec. */
  function Inits(calls: seq<Call>): seq<nat> {
    if calls == [] then []
    else Inits(calls[..|calls| - 1]) + if calls[|calls| - 1].InitDecode? then [calls[|calls| - 1].ms] else []
  }

  lemma CallSnoc(calls: seq<Call>, c: Call)
    ensures Decoded(calls + [c]) == Decoded(calls) + if c.Decode? then [c.frame] else []
    ensures Inits(calls + [c]) == Inits(calls) + if c.InitDecode? then [c.ms] else []
  {
    assert (calls + [c])[..|calls|] == calls;
  }

  lemma DecodeCallsSnoc(frames: seq<Block>, f: Block)
    ensures DecodeCalls(frames + [f]) == DecodeCalls(frames) + [Decode(f)]
  {
  }

  lemma {:induction false} DecodesAppend(calls: seq<Call>, frames: seq<Block>)
    ensures Decoded(calls + DecodeCalls(frames)) == Decoded(calls) + frames
    ensures Inits(calls + DecodeCalls(frames)) == Inits(calls)
  {
    hide Decoded, Inits;
    if frames == [] {
      assert calls + DecodeCalls(frames) == calls;
    } else {
      var init, last := frames[..|frames| - 1], frames[|frames| - 1];
      DecodesAppend(calls, init);
      DecodeCallsSnoc(init, last);
      assert frames == init + [last];
      hide DecodeCalls;
      assert calls + DecodeCalls(frames) == (calls + DecodeCalls(init)) + [Decode(last)];
      CallSnoc(calls + DecodeCalls(init), Decode(last));
      assert frames == init + [last];
    }
  }

  // ---------- every run ----------

  /** The decoder is unconfigured, or consistently in one of the two modes; it is ready exactly
      in the latter case; no packet was ever reported bad; every accepted byte was decoded once,
      in order; and with a concealer what was put out matches what was reported. */
  ghost predicate DecInv(s: DecState, plc: bool) {
    && (s.config == UNKNOWN || s.config == MODE20 || s.config == MODE30)
    && (s.ready <==> s.config != UNKNOWN)
    && s.bad == 0
    && Flatten(Decoded(s.calls)) == s.accepted
    && (plc ==> s.emitted == 8 * s.reported)
  }

  /** Once the mode is selected its frame size divides the payload. */
  lemma SelectedModeDivides(c: Config, n: nat)
    requires c == UNKNOWN || c == MODE20 || c == MODE30
    requires Acceptable(n)
    ensures var m := ModeFor(c, n); (m == MODE20 || m == MODE30) && n % m.nbytes == 0 && n >= m.nbytes
  {
  }

  lemma FramesOf(p: Block, nbytes: nat)
    requires (nbytes == 38 || nbytes == 50) && |p| % nbytes == 0
    ensures Flatten(Slices(p, nbytes, 0)) == p && AllSized(Slices(p, nbytes, 0), nbytes)
    ensures |Slices(p, nbytes, 0)| == |p| / nbytes
  {
    SlicesExact(p, nbytes, |p| / nbytes);
  }

  /** The calls made by the time a payload's frames are decoded in mode `m`. */
  function Begun(calls: seq<Call>, m: Config, c: Config): seq<Call> {
    if m == c then calls else calls + [InitDecode(m.msPerFrame)]
  }

  lemma BegunCalls(calls: seq<Call>, m: Config, c: Config)
    ensures Decoded(Begun(calls, m, c)) == Decoded(calls)
    ensures Inits(Begun(calls, m, c)) == Inits(calls) + if m == c then [] else [m.msPerFrame]
  {
    if m != c { CallSnoc(calls, InitDecode(m.msPerFrame)); }
  }

  lemma PacketDecodes(s: DecState, p: Block, plc: bool)
    requires DecInv(s, plc) && Acceptable(|p|)
    ensures var m, t := ModeFor(s.config, |p|), DecodePacket(s, p, plc);
            && (m == MODE20 || m == MODE30)
            && var frames := Slices(p, m.nbytes, 0);
            && AllSized(frames, m.nbytes) && Flatten(frames) == p && |frames| == |p| / m.nbytes
            && t.config == m && t.ready && t.bad == s.bad && t.accepted == s.accepted + p
            && t.calls == Begun(s.calls, m, s.config) + DecodeCalls(frames)
            && t.emitted == s.emitted + |frames| * m.nsamples
            && t.reported == s.reported + if plc then |frames| * m.msPerFrame else 0
  {
    SelectedModeDivides(s.config, |p|);
    FramesOf(p, ModeFor(s.config, |p|).nbytes);
    hide Slices, Flatten, ModeFor;
  }

  lemma PacketInv(s: DecState, p: Block, plc: bool)
    requires DecInv(s, plc)
    ensures DecInv(DecodePacket(s, p, plc), plc)
  {
    if Acceptable(|p|) {
      PacketDecodes(s, p, plc);
      hide Slices, ModeFor, DecodePacket, DecodeCalls, Flatten, Decoded;
      var m := ModeFor(s.config, |p|);
      var frames := Slices(p, m.nbytes, 0);
      var begun := Begun(s.calls, m, s.config);
      BegunCalls(s.calls, m, s.config);
      hide Begun;
      DecodesAppend(begun, frames);
      FlattenConcat(Decoded(s.calls), frames);
      EightPerMillisecond(|frames|, m);
    }
  }

  lemma EightPerMillisecond(k: nat, m: Config)
    requires m == MODE20 || m == MODE30
    ensures k * m.nsamples == 8 * (k * m.msPerFrame)
  {
  }

  lemma {:induction false} PacketsInv(s: DecState, ps: seq<Block>, plc: bool)
    requires DecInv(s, plc)
    ensures DecInv(DecodePackets(s, ps, plc), plc)
  {
    if ps != [] {
      PacketsInv(s, ps[..|ps| - 1], plc);
      PacketInv(DecodePackets(s, ps[..|ps| - 1], plc), ps[|ps| - 1], plc);
    }
  }

  lemma ConcealInv(s: DecState, plc: bool, required: bool)
    requires DecInv(s, plc)
    ensures DecInv(ConcealIfRequired(s, plc, required), plc)
  {
    CallSnoc(s.calls, Conceal);
    assert Decoded(s.calls) + [] == Decoded(s.calls);
  }

  /** Every run: the configurations, the dead "bad frame" branch, bytes decoded exactly once,
      and eight samples for every millisecond reported, concealed frames included. */
  lemma {:induction false} DecoderConservation(ticks: seq<DecTick>, plc: bool)
    ensures DecInv(DecRun(ticks, plc), plc)
  {
    if ticks != [] {
      DecoderConservation(ticks[..|ticks| - 1], plc);
      var m := DecRun(ticks[..|ticks| - 1], plc);
      PacketsInv(m, ticks[|ticks| - 1].packets, plc);
      ConcealInv(DecodePackets(m, ticks[|ticks| - 1].packets, plc), plc, ticks[|ticks| - 1].required);
    }
  }

  /** The packets whose length is one the decoder takes. */
  function AcceptableOnly(ps: seq<Block>): seq<Block> {
    if ps == [] then []
    else AcceptableOnly(ps[..|ps| - 1]) + if Acceptable(|ps[|ps| - 1]|) then [ps[|ps| - 1]] else []
  }

  lemma {:induction false} AcceptableConcat(a: seq<Block>, b: seq<Block>)
    ensures AcceptableOnly(a + b) == AcceptableOnly(a) + AcceptableOnly(b)
  {
    hide Acceptable;
    if b == [] { assert a + b == a; } else {
      AcceptableConcat(a, b[..|b| - 1]);
      assert (a + b)[..|a + b| - 1] == a + b[..|b| - 1];
    }
  }

  lemma {:induction false} PacketsAccepted(s: DecState, ps: seq<Block>, plc: bool)
    requires DecInv(s, plc)
    ensures DecodePackets(s, ps, plc).accepted == s.accepted + Flatten(AcceptableOnly(ps))
  {
    if ps != [] {
      var init, last := ps[..|ps| - 1], ps[|ps| - 1];
      var d := DecodePackets(s, init, plc);
      PacketsAccepted(s, init, plc);
      PacketsInv(s, init, plc);
      if Acceptable(|last|) {
        PacketDecodes(d, last, plc);
        FlattenSnoc(AcceptableOnly(init), last);
      } else {
        assert AcceptableOnly(ps) == AcceptableOnly(init);
      }
    }
  }

  /** What is decoded, byte for byte and in order, is what was received, less exactly the
      packets whose length is neither a multiple of 38 nor of 50, or zero. */
  lemma {:induction false} DecodesWhatWasReceived(ticks: seq<DecTick>, plc: bool)
    ensures Flatten(Decoded(DecRun(ticks, plc).calls)) == Flatten(AcceptableOnly(Received(ticks)))
    ensures DecRun(ticks, plc).accepted == Flatten(AcceptableOnly(Received(ticks)))
  {
    DecoderConservation(ticks, plc);
    if ticks != [] {
      hide DecodePackets, AcceptableOnly, Decoded, Flatten;
      var init, last := ticks[..|ticks| - 1], ticks[|ticks| - 1];
      DecodesWhatWasReceived(init, plc);
      DecoderConservation(init, plc);
      PacketsAccepted(DecRun(init, plc), last.packets, plc);
      AcceptableConcat(Received(init), last.packets);
      FlattenConcat(AcceptableOnly(Received(init)), AcceptableOnly(last.packets));
    }
  }

  // ---------- mode inference ----------

  /** The payload length alone determines the mode, whatever the decoder was doing before,
      exactly when it is not a multiple of 950; a multiple of 950 makes it change mode, and a
      fresh decoder start with 20 ms. */
  lemma LengthDeterminesModeIff(n: nat)
    requires Acceptable(n)
    ensures (forall c, d :: Known(c) && Known(d) ==> ModeFor(c, n) == ModeFor(d, n)) <==> n % 950 != 0
    ensures n % 950 != 0 ==> forall c :: Known(c) ==> ModeFor(c, n) == if n % 38 == 0 then MODE20 else MODE30
    ensures n % 950 == 0 ==> forall c :: Known(c) ==> ModeFor(c, n) == if c == MODE20 then MODE30 else MODE20
  {
    assert n % 950 == 0 <==> n % 38 == 0 && n % 50 == 0 by { LeastCommonMultiple(n); }
    if n % 950 == 0 {
      assert Known(MODE20) && Known(MODE30) && ModeFor(MODE20, n) == MODE30 && ModeFor(MODE30, n) == MODE20;
    }
  }

  lemma LeastCommonMultiple(n: nat)
    ensures n % 950 == 0 <==> n % 38 == 0 && n % 50 == 0
  {
    if n % 38 == 0 && n % 50 == 0 {
      var a, b := n / 38, n / 50;
      assert 19 * a == 25 * b;
      assert n == 950 * (4 * b - 3 * a);
    }
  }

  // ---------- the framing round trip ----------

  predicate IsMode(m: Config) { m == MODE20 || m == MODE30 }

  /** A packet of whole frames of a mode whose length tells that mode. */
  ghost predicate Recognisable(p: Block, m: Config)
    requires m.nbytes > 0
  {
    |p| > 0 && |p| % m.nbytes == 0 && |p| % 950 != 0
  }

  ghost predicate AllRecognisable(ps: seq<Block>, m: Config)
    requires m.nbytes > 0
  {
    forall i :: 0 <= i < |ps| ==> Recognisable(ps[i], m)
  }

  lemma RecognisableParts(a: seq<Block>, b: seq<Block>, m: Config)
    requires m.nbytes > 0 && AllRecognisable(a + b, m)
    ensures AllRecognisable(a, m) && AllRecognisable(b, m)
  {
    hide Recognisable;
    assert forall i :: 0 <= i < |a| ==> a[i] == (a + b)[i];
    assert forall i :: 0 <= i < |b| ==> b[i] == (a + b)[|a| + i];
  }

  lemma RecognisableSnoc(ps: seq<Block>, m: Config)
    requires m.nbytes > 0 && AllRecognisable(ps, m) && ps != []
    ensures AllRecognisable(ps[..|ps| - 1], m) && Recognisable(ps[|ps| - 1], m)
  {
    hide Recognisable;
  }

  /** Everything decoded so far was decoded in mode `m`, the codec set up once. */
  ghost predicate Locked(s: DecState, m: Config) {
    && (s.config == m || (s.config == UNKNOWN && s.accepted == []))
    && AllSized(Decoded(s.calls), m.nbytes)
    && Inits(s.calls) == if s.config == m then [m.msPerFrame] else []
  }

  lemma RecognisedMode(c: Config, p: Block, m: Config)
    requires IsMode(m) && Known(c) && Recognisable(p, m)
    ensures Acceptable(|p|) && ModeFor(c, |p|) == m
  {
    LeastCommonMultiple(|p|);
  }

  lemma LockedAfter(s: DecState, t: DecState, m: Config, frames: seq<Block>)
    requires Locked(s, m) && AllSized(frames, m.nbytes)
    requires t.config == m && t.calls == Begun(s.calls, m, s.config) + DecodeCalls(frames)
    ensures Locked(t, m)
  {
    BegunCalls(s.calls, m, s.config);
    hide Begun, DecodeCalls, Decoded, Inits;
    DecodesAppend(Begun(s.calls, m, s.config), frames);
  }

  lemma PacketLocked(s: DecState, p: Block, m: Config, plc: bool)
    requires IsMode(m) && DecInv(s, plc) && Locked(s, m) && Recognisable(p, m)
    ensures var t := DecodePacket(s, p, plc); Locked(t, m) && t.config == m && t.accepted == s.accepted + p
  {
    KnownConfig(s, plc);
    RecognisedMode(s.config, p, m);
    ModeFramesPositive(m);
    hide *;
    PacketDecodes(s, p, plc);
    LockedAfter(s, DecodePacket(s, p, plc), m, Slices(p, m.nbytes, 0));
  }

  lemma KnownConfig(s: DecState, plc: bool)
    requires DecInv(s, plc)
    ensures Known(s.config)
  {
  }

  lemma ModeFramesPositive(m: Config)
    requires IsMode(m)
    ensures m.nbytes > 0
  {
  }

  lemma {:induction false} PacketsLocked(s: DecState, ps: seq<Block>, m: Config, plc: bool)
    requires IsMode(m) && DecInv(s, plc) && Locked(s, m)
    requires AllRecognisable(ps, m)
    ensures var t := DecodePackets(s, ps, plc);
            Locked(t, m) && t.accepted == s.accepted + Flatten(ps) && (ps != [] || s.config == m ==> t.config == m)
  {
    hide *;
    if ps == [] {
      PacketsSnoc(s, ps, plc);
    } else {
      var init, last := ps[..|ps| - 1], ps[|ps| - 1];
      PacketsSnoc(s, ps, plc);
      ModeFramesPositive(m);
      RecognisableSnoc(ps, m);
      PacketsLocked(s, init, m, plc);
      PacketsInv(s, init, plc);
      PacketLocked(DecodePackets(s, init, plc), last, m, plc);
      assert s.accepted + Flatten(init) + last == s.accepted + (Flatten(init) + last);
    }
  }

  lemma PacketsSnoc(s: DecState, ps: seq<Block>, plc: bool)
    ensures ps == [] ==> DecodePackets(s, ps, plc) == s && s.accepted + Flatten(ps) == s.accepted
    ensures ps != [] ==>
      && DecodePackets(s, ps, plc) == DecodePacket(DecodePackets(s, ps[..|ps| - 1], plc), ps[|ps| - 1], plc)
      && Flatten(ps) == Flatten(ps[..|ps| - 1]) + ps[|ps| - 1]
  {
    hide DecodePacket;
  }

  lemma ConcealLocked(s: DecState, m: Config, plc: bool, required: bool)
    requires Locked(s, m)
    ensures var t := ConcealIfRequired(s, plc, required);
            Locked(t, m) && t.accepted == s.accepted && t.config == s.config
  {
    CallSnoc(s.calls, Conceal);
    assert Decoded(s.calls) + [] == Decoded(s.calls);
  }

  lemma TickLocked(s: DecState, m: Config, plc: bool, tick: DecTick)
    requires IsMode(m) && DecInv(s, plc) && Locked(s, m)
    requires AllRecognisable(tick.packets, m)
    ensures var t := DecProcess(s, tick.packets, plc, tick.required);
            && Locked(t, m) && t.accepted == s.accepted + Flatten(tick.packets)
            && (tick.packets != [] || s.config == m ==> t.config == m)
  {
    PacketsLocked(s, tick.packets, m, plc);
    ConcealLocked(DecodePackets(s, tick.packets, plc), m, plc, tick.required);
    hide Locked, DecInv, DecodePackets, ConcealIfRequired, Recognisable, Flatten;
  }

  lemma {:induction false} RunLocked(ticks: seq<DecTick>, m: Config, plc: bool)
    requires IsMode(m)
    requires AllRecognisable(Received(ticks), m)
    ensures var t := DecRun(ticks, plc);
            Locked(t, m) && t.accepted == Flatten(Received(ticks)) && (Received(ticks) != [] ==> t.config == m)
  {
    if ticks != [] {
      hide Locked, DecInv, DecProcess, Recognisable, Flatten;
      var init, last := ticks[..|ticks| - 1], ticks[|ticks| - 1];
      RecognisableParts(Received(init), last.packets, m);
      RunLocked(init, m, plc);
      DecoderConservation(init, plc);
      FlattenConcat(Received(init), last.packets);
      TickLocked(DecRun(init, plc), m, plc, last);
    }
  }

  /** The payloads of the encoder's packets, as received. */
  function PayloadsOf(ps: seq<Packet>): (payloads: seq<Block>)
    ensures |payloads| == |ps|
  {
    seq(|ps|, i requires 0 <= i < |ps| => ps[i].payload)
  }

  lemma {:induction false} PayloadsFlatten(ps: seq<Packet>)
    ensures Flatten(PayloadsOf(ps)) == IlbcEncoderTheorems.Payloads(ps)
  {
    if ps != [] {
      PayloadsFlatten(ps[..|ps| - 1]);
      assert PayloadsOf(ps)[..|ps| - 1] == PayloadsOf(ps[..|ps| - 1]);
    }
  }

  lemma EmittedIsRecognisable(p: Packet, m: Config)
    requires IsMode(m) && IlbcEncoderTheorems.Framed(p, m)
    ensures Recognisable(p.payload, m)
  {
    var k: nat :| 1 <= k <= 7 && |p.payload| == k * m.nbytes && p.samples == k * m.nsamples;
  }

  /** End to end: feed the packets of any encoder run with a fixed mode to a fresh decoder, over
      any process calls and with any frames concealed in between.  iLBC_decode is called on
      exactly the frames iLBC_encode produced, in order, and the decoder is set up exactly once,
      in the encoder's mode. */
  lemma FramingRoundTrip(use20ms: bool, es: seq<Event>, coder: Coder, ticks: seq<DecTick>, plc: bool)
    requires Sized(coder) && IlbcEncoderTheorems.ModeFixed(es) && Run(Init(use20ms), es, coder).Some?
    requires Received(ticks) == PayloadsOf(Run(Init(use20ms), es, coder).value.packets)
    ensures var s, t := Run(Init(use20ms), es, coder).value, DecRun(ticks, plc);
            && Decoded(t.calls) == s.coded
            && Inits(t.calls) == if s.packets == [] then [] else [s.config.msPerFrame]
  {
    var s, t := Run(Init(use20ms), es, coder).value, DecRun(ticks, plc);
    var m := IlbcEncoderTheorems.InitialMode(use20ms);
    IlbcEncoderTheorems.Reachable(use20ms, es, coder);
    IlbcEncoderTheorems.RunInMode(use20ms, es, coder);
    forall i | 0 <= i < |Received(ticks)| ensures Recognisable(Received(ticks)[i], m) {
      EmittedIsRecognisable(s.packets[i], m);
    }
    RunLocked(ticks, m, plc);
    DecoderConservation(ticks, plc);
    PayloadsFlatten(s.packets);
    SlicesUnique(Decoded(t.calls), s.coded, m.nbytes);
    if s.packets == [] { NothingReceived(ticks, plc); }
  }

  /** From samples to codec: in a run with one initialisation the i-th frame decoded is what the
      encoding codec makes of the first i + 1 frame-sized slices of the encoder's input. */
  lemma DecodesCodesOfInput(use20ms: bool, es: seq<Event>, coder: Coder, k: nat, ticks: seq<DecTick>, plc: bool)
    requires Sized(coder) && IlbcEncoderTheorems.ModeFixed(es) && Run(Init(use20ms), es, coder).Some?
    requires k < |es| && es[k].Start? && forall i :: 0 <= i < |es| && i != k ==> !es[i].Start?
    requires Received(ticks) == PayloadsOf(Run(Init(use20ms), es, coder).value.packets)
    ensures var decoded, c := Decoded(DecRun(ticks, plc).calls), IlbcEncoderTheorems.InitialMode(use20ms);
            var slices := Slices(IlbcEncoderTheorems.InputOf(es), 2 * c.nsamples, 0);
            && |decoded| <= |slices|
            && forall i :: 0 <= i < |decoded| ==> decoded[i] == coder(c.nbytes, slices[..i + 1])
  {
    FramingRoundTrip(use20ms, es, coder, ticks, plc);
    IlbcEncoderHistory.CodesOfInput(use20ms, es, coder, k);
  }

  lemma {:induction false} NothingReceived(ticks: seq<DecTick>, plc: bool)
    requires Received(ticks) == []
    ensures DecRun(ticks, plc).config == UNKNOWN && !DecRun(ticks, plc).ready && Inits(DecRun(ticks, plc).calls) == []
  {
    if ticks != [] {
      NothingReceived(ticks[..|ticks| - 1], plc);
    }
  }
}
