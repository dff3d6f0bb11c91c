/** What the iLBC encoder filter guarantees over whole runs. */
module IlbcEncoderTheorems {
  import opened Streams
  import opened Reframing
  import opened IlbcEncoder

  // ---------- configuration ----------

  /** Frame size in samples, in bytes and in time always belong together, and the packet time
      is unset or between 20 and 140 ms. */
  predicate Configured(s: State) {
    (s.config == MODE20 || s.config == MODE30) && (s.ptime == 0 || 20 <= s.ptime <= 140)
  }

  /** In a configured filter the clamp to seven frames never bites: a packet spans exactly its
      packet time when that is a whole number of frames, one frame otherwise, and so at most
      1120 samples, well inside the packet buffer. */
  lemma PacketFits(s: State)
    requires Configured(s)
    ensures var k, ms := PacketFrames(s), s.config.msPerFrame;
            && k * ms == (if s.ptime > 0 && s.ptime % ms == 0 then s.ptime else ms)
            && s.config.nsamples * k <= 1120 <= SAMPLES_SIZE
            && PacketBytes(s) == 2 * (s.config.nsamples * k) > 0
  {
  }

  /** The clamp alone would not do: seven 30 ms frames overrun the buffer. */
  lemma ClampIsNotEnough()
    ensures MODE30.nsamples * FramesPerPacket(210, 30) > SAMPLES_SIZE
    ensures PacketBytes(Init(true).(ptime := 140)) == 2 * 1120
  {
  }

  // ---------- the invariant ----------

  /** Samples in the packets so far. */
  function SamplesIn(ps: seq<Packet>): nat {
    if ps == [] then 0 else SamplesIn(ps[..|ps| - 1]) + ps[|ps| - 1].samples
  }

  function Payloads(ps: seq<Packet>): Block {
    if ps == [] then [] else Payloads(ps[..|ps| - 1]) + ps[|ps| - 1].payload
  }

  /** Every packet's timestamp counts the samples encoded up to its own end, mod 2^32. */
  ghost predicate Stamped(ps: seq<Packet>) {
    forall i :: 0 <= i < |ps| ==> ps[i].timestamp == SamplesIn(ps[..i + 1]) % 0x1_0000_0000
  }

  /** Every packet is one to seven frames of a mode. */
  ghost predicate Framed(p: Packet, c: Config) {
    exists k: nat :: 1 <= k <= 7 && |p.payload| == k * c.nbytes && p.samples == k * c.nsamples
  }

  ghost predicate PacketsFramed(ps: seq<Packet>) {
    forall i :: 0 <= i < |ps| ==> Framed(ps[i], MODE20) || Framed(ps[i], MODE30)
  }

  ghost predicate StreamKept(s: State) {
    && Ready(s)
    && Flatten(s.frames) + s.buffer == s.input
    && Payloads(s.packets) == Flatten(s.coded) && |s.coded| == |s.frames|
    && |Flatten(s.frames)| == 2 * SamplesIn(s.packets)
    && s.ts == SamplesIn(s.packets) % 0x1_0000_0000
  }

  ghost predicate Inv(s: State) {
    Configured(s) && StreamKept(s) && Stamped(s.packets) && PacketsFramed(s.packets)
  }

  lemma PacketSnoc(ps: seq<Packet>, p: Packet)
    ensures SamplesIn(ps + [p]) == SamplesIn(ps) + p.samples
    ensures Payloads(ps + [p]) == Payloads(ps) + p.payload
    ensures Stamped(ps) && p.timestamp == SamplesIn(ps + [p]) % 0x1_0000_0000 ==> Stamped(ps + [p])
  {
    var qs := ps + [p];
    assert qs[..|ps|] == ps && qs[..|qs|] == qs;
    forall i {:trigger qs[i]} | 0 <= i < |ps| ensures qs[..i + 1] == ps[..i + 1] {
    }
  }

  lemma {:induction false} CodesSized(coder: Coder, nbytes: nat, history: seq<Block>, frames: seq<Block>)
    requires Sized(coder)
    ensures AllSized(Codes(coder, nbytes, history, frames), nbytes)
  {
    if frames != [] { CodesSized(coder, nbytes, history, frames[..|frames| - 1]); }
  }

  /** The next packet: its frames are the front of the buffer, its payload what the codec
      made of them. */
  ghost predicate Emits(s: State, t: State, frames: seq<Block>, codes: seq<Block>, p: Packet) {
    && t == s.(buffer := t.buffer, frames := s.frames + frames, coded := s.coded + codes, ts := p.timestamp,
               packets := s.packets + [p])
    && Flatten(frames) + t.buffer == s.buffer && |frames| == |codes|
    && AllSized(frames, FrameBytes(s)) && AllSized(codes, s.config.nbytes)
    && p.payload == Flatten(codes) && |Flatten(frames)| == 2 * p.samples
    && p.timestamp == (s.ts + p.samples) % 0x1_0000_0000
    && Framed(p, s.config)
  }

  lemma PacketEmitted(s: State, coder: Coder) returns (frames: seq<Block>, codes: seq<Block>, p: Packet)
    requires Sized(coder) && Configured(s) && Ready(s) && |s.buffer| >= PacketBytes(s)
    ensures Emits(s, EncodePacket(s, coder), frames, codes, p)
  {
    hide FramesPerPacket, Slices, Codes, Sized;
    var b, k := PacketBytes(s), PacketFrames(s);
    SlicesExact(s.buffer[..b], FrameBytes(s), k);
    frames := Slices(s.buffer[..b], FrameBytes(s), 0);
    CodesSized(coder, s.config.nbytes, s.frames[s.codecStart..], frames);
    codes := Codes(coder, s.config.nbytes, s.frames[s.codecStart..], frames);
    FlattenSize(codes, s.config.nbytes);
    p := EncodePacket(s, coder).packets[|s.packets|];
    assert s.buffer == s.buffer[..b] + s.buffer[b..];
    assert Framed(p, s.config) by { assert |p.payload| == k * s.config.nbytes && p.samples == k * s.config.nsamples; }
  }

  lemma StampAdds(a: nat, b: nat)
    ensures (a % 0x1_0000_0000 + b) % 0x1_0000_0000 == (a + b) % 0x1_0000_0000
  {
  }

  lemma EmissionKeeps(s: State, t: State, frames: seq<Block>, codes: seq<Block>, p: Packet)
    requires Inv(s) && Emits(s, t, frames, codes, p)
    ensures Inv(t)
  {
    hide Flatten, SamplesIn, Payloads, Framed, AllSized;
    PacketSnoc(s.packets, p);
    StampAdds(SamplesIn(s.packets), p.samples);
    FlattenConcat(s.frames, frames);
    FlattenConcat(s.coded, codes);
    AppendMiddle(Flatten(s.frames), Flatten(frames), t.buffer);
  }

  lemma PacketKeeps(s: State, coder: Coder)
    requires Sized(coder) && Inv(s) && |s.buffer| >= PacketBytes(s)
    ensures Inv(EncodePacket(s, coder))
  {
    hide EncodePacket, Sized, PacketBytes, Emits;
    var frames, codes, p := PacketEmitted(s, coder);
    EmissionKeeps(s, EncodePacket(s, coder), frames, codes, p);
  }

  lemma AppendMiddle(a: Block, b: Block, c: Block)
    ensures (a + b) + c == a + (b + c)
  {
  }

  lemma {:induction false} DrainKeeps(s: State, coder: Coder)
    requires Sized(coder) && Inv(s)
    ensures var t := Drain(s, coder); Inv(t) && |t.buffer| < PacketBytes(t)
    decreases |s.buffer|
  {
    if |s.buffer| >= PacketBytes(s) {
      PacketNotEmpty(s);
      PacketKeeps(s, coder);
      DrainKeeps(EncodePacket(s, coder), coder);
    }
  }

  lemma FeedKeeps(s: State, b: Block)
    requires Inv(s)
    ensures Inv(Feed(s, b))
  {
    assert Flatten(s.frames) + (s.buffer + b) == (Flatten(s.frames) + s.buffer) + b;
  }

  lemma StepKeeps(s: State, e: Event, coder: Coder)
    requires Sized(coder) && Inv(s) && Legal(s, e)
    ensures Inv(Step(s, e, coder))
  {
    match e {
      case Tick(blocks) =>
        FeedKeeps(s, Flatten(blocks));
        DrainKeeps(Feed(s, Flatten(blocks)), coder);
      case Start =>
      case Fmtp(mode, ptime) => FmtpKeeps(s, mode, ptime);
      case Attr(attr) => AttrKeeps(s, attr);
    }
  }

  lemma FmtpKeeps(s: State, mode: Option<string>, ptime: Option<string>)
    requires Inv(s)
    ensures Inv(AddFmtp(s, mode, ptime))
  {
    hide Contains, Atoi;
    SettingKeeps(s, AddFmtp(s, mode, ptime));
  }

  lemma AttrKeeps(s: State, attr: string)
    requires Inv(s)
    ensures Inv(AddAttr(s, attr))
  {
    hide Contains;
    SettingKeeps(s, AddAttr(s, attr));
  }

  lemma SettingKeeps(s: State, t: State)
    requires Inv(s) && t == s.(config := t.config, ptime := t.ptime) && Configured(t)
    ensures Inv(t)
  {
  }

  lemma {:induction false} Reachable(use20ms: bool, es: seq<Event>, coder: Coder)
    requires Sized(coder) && Run(Init(use20ms), es, coder).Some?
    ensures Inv(Run(Init(use20ms), es, coder).value)
  {
    if es != [] {
      Reachable(use20ms, es[..|es| - 1], coder);
      StepKeeps(Run(Init(use20ms), es[..|es| - 1], coder).value, es[|es| - 1], coder);
    }
  }

  /** Everything queued over a run, in order. */
  function InputOf(es: seq<Event>): Block {
    if es == [] then []
    else InputOf(es[..|es| - 1]) + if es[|es| - 1].Tick? then Flatten(es[|es| - 1].blocks) else []
  }

  lemma {:induction false} DrainTakesNoInput(s: State, coder: Coder)
    requires Ready(s)
    ensures Drain(s, coder).input == s.input
    decreases |s.buffer|
  {
    if |s.buffer| >= PacketBytes(s) {
      PacketNotEmpty(s);
      DrainTakesNoInput(EncodePacket(s, coder), coder);
    }
  }

  lemma {:induction false} InputLogged(use20ms: bool, es: seq<Event>, coder: Coder)
    requires Run(Init(use20ms), es, coder).Some?
    ensures Run(Init(use20ms), es, coder).value.input == InputOf(es)
  {
    if es != [] {
      var m, e := Run(Init(use20ms), es[..|es| - 1], coder).value, es[|es| - 1];
      InputLogged(use20ms, es[..|es| - 1], coder);
      if e.Tick? { DrainTakesNoInput(Feed(m, Flatten(e.blocks)), coder); }
    }
  }

  // ---------- what holds over every run ----------

  /** Under any sequence of parameter and attribute settings a packet fits the sample buffer. */
  lemma BufferBound(use20ms: bool, es: seq<Event>, coder: Coder)
    requires Sized(coder) && Run(Init(use20ms), es, coder).Some?
    ensures var s := Run(Init(use20ms), es, coder).value;
            Configured(s) && s.config.nsamples * PacketFrames(s) <= 1120 <= SAMPLES_SIZE
  {
    Reachable(use20ms, es, coder);
    PacketFits(Run(Init(use20ms), es, coder).value);
  }

  /** Samples are conserved and stamped: the encoded frames and the residue are the input, the
      payloads are the frames' codes in order, and every timestamp is the number of samples
      encoded up to the end of its packet, mod 2^32, through any change of settings. */
  lemma Conservation(use20ms: bool, es: seq<Event>, coder: Coder)
    requires Sized(coder) && Run(Init(use20ms), es, coder).Some?
    ensures var s := Run(Init(use20ms), es, coder).value;
            && Flatten(s.frames) + s.buffer == InputOf(es)
            && Payloads(s.packets) == Flatten(s.coded) && |s.coded| == |s.frames|
            && |Flatten(s.frames)| == 2 * SamplesIn(s.packets)
            && Stamped(s.packets)
  {
    InputLogged(use20ms, es, coder);
    Reachable(use20ms, es, coder);
  }

  /** After every tick less than one packet is left over. */
  lemma ResidueUnderOnePacket(use20ms: bool, es: seq<Event>, coder: Coder)
    requires Sized(coder) && es != [] && es[|es| - 1].Tick? && Run(Init(use20ms), es, coder).Some?
    ensures var s := Run(Init(use20ms), es, coder).value; |s.buffer| < PacketBytes(s)
  {
    var m := Run(Init(use20ms), es[..|es| - 1], coder).value;
    Reachable(use20ms, es[..|es| - 1], coder);
    FeedKeeps(m, Flatten(es[|es| - 1].blocks));
    DrainKeeps(Feed(m, Flatten(es[|es| - 1].blocks)), coder);
  }

  // ---------- a fixed mode ----------

  /** No event of the run sets a mode. */
  predicate ModeFixed(es: seq<Event>) {
    forall i :: 0 <= i < |es| ==> es[i].Fmtp? ==> es[i].mode.None?
  }

  function InitialMode(use20ms: bool): Config { if use20ms then MODE20 else MODE30 }

  ghost predicate InMode(s: State, c: Config) {
    s.config == c && AllSized(s.frames, 2 * c.nsamples) && AllSized(s.coded, c.nbytes)
    && forall i :: 0 <= i < |s.packets| ==> Framed(s.packets[i], c)
  }

  lemma PacketInMode(s: State, c: Config, coder: Coder)
    requires Sized(coder) && Inv(s) && InMode(s, c) && |s.buffer| >= PacketBytes(s)
    ensures Ready(s) && InMode(EncodePacket(s, coder), c)
  {
    hide EncodePacket, Sized, PacketBytes, Framed, Flatten;
    var frames, codes, p := PacketEmitted(s, coder);
  }

  lemma {:induction false} DrainInMode(s: State, c: Config, coder: Coder)
    requires Sized(coder) && Inv(s) && InMode(s, c)
    ensures InMode(Drain(s, coder), c)
    decreases |s.buffer|
  {
    if |s.buffer| >= PacketBytes(s) {
      PacketNotEmpty(s);
      PacketKeeps(s, coder);
      PacketInMode(s, c, coder);
      DrainInMode(EncodePacket(s, coder), c, coder);
    }
  }

  lemma {:induction false} RunInMode(use20ms: bool, es: seq<Event>, coder: Coder)
    requires Sized(coder) && ModeFixed(es) && Run(Init(use20ms), es, coder).Some?
    ensures InMode(Run(Init(use20ms), es, coder).value, InitialMode(use20ms))
  {
    if es != [] {
      var m, e := Run(Init(use20ms), es[..|es| - 1], coder).value, es[|es| - 1];
      RunInMode(use20ms, es[..|es| - 1], coder);
      Reachable(use20ms, es[..|es| - 1], coder);
      if e.Tick? {
        FeedKeeps(m, Flatten(e.blocks));
        DrainInMode(Feed(m, Flatten(e.blocks)), InitialMode(use20ms), coder);
      }
    }
  }

  /** With the mode fixed the codec is given the consecutive frame-sized slices of the input,
      whatever the block boundaries, the schedule of process calls and the packet times. */
  lemma FramesAreSlices(use20ms: bool, es: seq<Event>, coder: Coder)
    requires Sized(coder) && ModeFixed(es) && Run(Init(use20ms), es, coder).Some?
    ensures var s := Run(Init(use20ms), es, coder).value;
            s.frames <= Slices(InputOf(es), 2 * InitialMode(use20ms).nsamples, 0)
  {
    InputLogged(use20ms, es, coder);
    var s, n := Run(Init(use20ms), es, coder).value, 2 * InitialMode(use20ms).nsamples;
    Reachable(use20ms, es, coder);
    RunInMode(use20ms, es, coder);
    SizedAreSlices(s.frames, s.buffer, n);
  }

  lemma {:induction false} SizedAreSlices(frames: seq<Block>, rest: Block, n: nat)
    requires n > 0 && AllSized(frames, n)
    ensures Slices(Flatten(frames) + rest, n, 0) == frames + Slices(rest, n, 0)
  {
    if frames == [] {
      assert Flatten(frames) + rest == rest;
    } else {
      var first, others := frames[0], frames[1..];
      FlattenConcat([first], others);
      FlattenOne(first);
      assert frames == [first] + others;
      SizedAreSlices(others, rest, n);
      var all := Flatten(frames) + rest;
      assert all[..n] == first && all[n..] == Flatten(others) + rest;
      assert [first] + (others + Slices(rest, n, 0)) == frames + Slices(rest, n, 0);
    }
  }

  // ---------- scheduling ----------

  lemma FeedLater(s: State, b: Block, coder: Coder)
    requires Ready(s) && |s.buffer| >= PacketBytes(s)
    ensures EncodePacket(Feed(s, b), coder) == Feed(EncodePacket(s, coder), b)
  {
    hide Slices, Codes, FramesPerPacket;
    var n, t := PacketBytes(s), Feed(s, b);
    assert t.buffer[..n] == s.buffer[..n] && t.buffer[n..] == s.buffer[n..] + b;
  }

  lemma {:induction false} DrainAppend(s: State, b: Block, coder: Coder)
    requires Ready(s)
    ensures Drain(Feed(s, b), coder) == Drain(Feed(Drain(s, coder), b), coder)
    decreases |s.buffer|
  {
    if |s.buffer| >= PacketBytes(s) {
      PacketNotEmpty(s);
      FeedLater(s, b, coder);
      DrainAppend(EncodePacket(s, coder), b, coder);
    }
  }

  /** Two process calls are one process call on all the blocks: packets, timestamps and residue
      do not depend on how the input is scheduled. */
  lemma ScheduleIndependent(s: State, first: seq<Block>, second: seq<Block>, coder: Coder)
    requires Ready(s)
    ensures Process(Process(s, first, coder), second, coder) == Process(s, first + second, coder)
  {
    var a, b := Flatten(first), Flatten(second);
    FlattenConcat(first, second);
    DrainAppend(Feed(s, a), b, coder);
    assert Feed(Feed(s, a), b) == Feed(s, a + b) by {
      assert s.buffer + a + b == s.buffer + (a + b) && s.input + a + b == s.input + (a + b);
    }
  }
}
