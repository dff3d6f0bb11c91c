/** What the iLBC codec instance was given for every frame it encoded over a run. */
module IlbcEncoderHistory {
  import opened Streams
  import opened Reframing
  import opened IlbcEncoder
  import opened IlbcEncoderTheorems

  /** The frames from `start` on were coded one after the other by one codec instance: each code
      is what the codec, in the mode with this frame size, makes of the frame and those before
      it. */
  ghost predicate CodedInSequence(frames: seq<Block>, coded: seq<Block>, start: nat, nbytes: nat, coder: Coder) {
    && start <= |frames| == |coded|
    && forall i :: start <= i < |frames| ==> coded[i] == coder(nbytes, frames[start..i + 1])
  }

  lemma {:induction false} CodesAt(coder: Coder, nbytes: nat, history: seq<Block>, frames: seq<Block>, i: nat)
    requires i < |frames|
    ensures Codes(coder, nbytes, history, frames)[i] == coder(nbytes, history + frames[..i + 1])
  {
    if i == |frames| - 1 {
      assert frames[..i + 1] == frames;
    } else {
      assert frames[..|frames| - 1][..i + 1] == frames[..i + 1];
      CodesAt(coder, nbytes, history, frames[..|frames| - 1], i);
    }
  }

  lemma SequenceContinues(frames: seq<Block>, coded: seq<Block>, start: nat, nbytes: nat, coder: Coder,
                          more: seq<Block>)
    requires CodedInSequence(frames, coded, start, nbytes, coder)
    ensures CodedInSequence(frames + more, coded + Codes(coder, nbytes, frames[start..], more), start, nbytes, coder)
  {
    hide Codes;
    var codes := Codes(coder, nbytes, frames[start..], more);
    forall i | start <= i < |frames + more|
      ensures (coded + codes)[i] == coder(nbytes, (frames + more)[start..i + 1])
    {
      if i < |frames| {
        assert (frames + more)[start..i + 1] == frames[start..i + 1];
      } else {
        CodesAt(coder, nbytes, frames[start..], more, i - |frames|);
        assert (frames + more)[start..i + 1] == frames[start..] + more[..i - |frames| + 1];
      }
    }
  }

  /** What the run has done since the state `m` in which the codec was last initialised. */
  ghost predicate Since(m: State, s: State, coder: Coder) {
    && s.codecMs == m.config.msPerFrame && s.codecStart == |m.frames|
    && m.frames <= s.frames && m.coded <= s.coded
    && CodedInSequence(s.frames, s.coded, |m.frames|, m.config.nbytes, coder)
  }

  lemma PacketSince(m: State, s: State, coder: Coder)
    requires Configured(m) && Configured(s) && Ready(s) && Since(m, s, coder)
    requires s.codecMs == s.config.msPerFrame && |s.buffer| >= PacketBytes(s)
    ensures Since(m, EncodePacket(s, coder), coder)
  {
    hide CodedInSequence, Slices, Codes, FramesPerPacket;
    var frames := Slices(s.buffer[..PacketBytes(s)], FrameBytes(s), 0);
    SequenceContinues(s.frames, s.coded, |m.frames|, m.config.nbytes, coder, frames);
  }

  lemma {:induction false} DrainSince(m: State, s: State, coder: Coder)
    requires Configured(m) && Configured(s) && Ready(s) && Since(m, s, coder) && s.codecMs == s.config.msPerFrame
    ensures Since(m, Drain(s, coder), coder)
    decreases |s.buffer|
  {
    hide Since;
    if |s.buffer| >= PacketBytes(s) {
      PacketNotEmpty(s);
      PacketSince(m, s, coder);
      DrainSince(m, EncodePacket(s, coder), coder);
    }
  }

  lemma StepSince(m: State, s: State, e: Event, coder: Coder)
    requires Configured(m) && Inv(s) && Legal(s, e) && !e.Start? && Since(m, s, coder)
    ensures Since(m, Step(s, e, coder), coder)
  {
    hide Contains, Atoi, CodedInSequence;
    match e {
      case Tick(blocks) => DrainSince(m, Feed(s, Flatten(blocks)), coder);
      case Fmtp(mode, ptime) =>
      case Attr(attr) =>
    }
  }

  lemma {:induction false} PrefixRuns(use20ms: bool, es: seq<Event>, coder: Coder, k: nat)
    requires Run(Init(use20ms), es, coder).Some? && k <= |es|
    ensures Run(Init(use20ms), es[..k], coder).Some?
  {
    if k == |es| {
      assert es[..k] == es;
    } else {
      assert es[..|es| - 1][..k] == es[..k];
      PrefixRuns(use20ms, es[..|es| - 1], coder, k);
    }
  }

  /** From any initialisation of the codec to the next, with settings changed or not: every frame
      encoded is coded by the mode then in force, given all frames since and no others.  The
      codec is initialised by event `k`. */
  lemma {:induction false} CodecHistory(use20ms: bool, es: seq<Event>, coder: Coder, k: nat)
    requires Sized(coder) && Run(Init(use20ms), es, coder).Some?
    requires k < |es| && es[k].Start? && forall i :: k < i < |es| ==> !es[i].Start?
    ensures Run(Init(use20ms), es[..k], coder).Some?
    ensures var m, s := Run(Init(use20ms), es[..k], coder).value, Run(Init(use20ms), es, coder).value;
            && m.frames <= s.frames && m.coded <= s.coded && s.codecMs == m.config.msPerFrame
            && CodedInSequence(s.frames, s.coded, |m.frames|, m.config.nbytes, coder)
            && s.codecStart == |m.frames|
  {
    PrefixRuns(use20ms, es, coder, k);
    Reachable(use20ms, es[..k], coder);
    var init := es[..|es| - 1];
    var m, s := Run(Init(use20ms), es[..k], coder).value, Run(Init(use20ms), init, coder).value;
    if k < |es| - 1 {
      assert init[..k] == es[..k];
      CodecHistory(use20ms, init, coder, k);
      Reachable(use20ms, init, coder);
      StepSince(m, s, es[|es| - 1], coder);
    }
  }

  /** Nothing is encoded before the codec is initialised. */
  lemma {:induction false} NothingBeforeStart(use20ms: bool, es: seq<Event>, coder: Coder)
    requires Sized(coder) && Run(Init(use20ms), es, coder).Some?
    requires forall i :: 0 <= i < |es| ==> !es[i].Start?
    ensures var s := Run(Init(use20ms), es, coder).value; s.frames == [] && s.coded == [] && s.codecMs == 0
  {
    hide Contains, Atoi, Inv;
    if es != [] {
      var init, e := es[..|es| - 1], es[|es| - 1];
      NothingBeforeStart(use20ms, init, coder);
      BufferBound(use20ms, init, coder);
      assert !e.Start?;
    }
  }

  /** A run in one mode with one initialisation: the i-th code is what the codec makes of the
      first i + 1 frame-sized slices of the input, however the input was scheduled and
      packetised. */
  lemma CodesOfInput(use20ms: bool, es: seq<Event>, coder: Coder, k: nat)
    requires Sized(coder) && ModeFixed(es) && Run(Init(use20ms), es, coder).Some?
    requires k < |es| && es[k].Start? && forall i :: 0 <= i < |es| && i != k ==> !es[i].Start?
    ensures var s, c := Run(Init(use20ms), es, coder).value, InitialMode(use20ms);
            var slices := Slices(InputOf(es), 2 * c.nsamples, 0);
            && |s.coded| <= |slices|
            && forall i :: 0 <= i < |s.coded| ==> s.coded[i] == coder(c.nbytes, slices[..i + 1])
  {
    PrefixRuns(use20ms, es, coder, k);
    NothingBeforeStart(use20ms, es[..k], coder);
    RunInMode(use20ms, es[..k], coder);
    CodecHistory(use20ms, es, coder, k);
    FramesAreSlices(use20ms, es, coder);
    var s, c := Run(Init(use20ms), es, coder).value, InitialMode(use20ms);
    var slices := Slices(InputOf(es), 2 * c.nsamples, 0);
    forall i | 0 <= i < |s.coded| ensures s.coded[i] == coder(c.nbytes, slices[..i + 1]) {
      assert s.frames[0..i + 1] == slices[..i + 1];
    }
  }

  // ---------- how many frames a packet takes ----------

  lemma PacketSpan(s: State, coder: Coder)
    requires Configured(s) && Ready(s) && |s.buffer| >= PacketBytes(s)
    ensures var t, ms := EncodePacket(s, coder), s.config.msPerFrame;
            && t.config == s.config && t.ptime == s.ptime && |t.buffer| < |s.buffer| && |t.packets| == |s.packets| + 1 && s.packets <= t.packets
            && t.packets[|s.packets|].samples == 8 * (if s.ptime > 0 && s.ptime % ms == 0 then s.ptime else ms)
  {
    hide Slices, Codes;
    PacketFits(s);
    PacketNotEmpty(s);
  }

  lemma {:induction false} DrainSpans(s: State, coder: Coder)
    requires Configured(s) && Ready(s)
    ensures var t, ms := Drain(s, coder), s.config.msPerFrame;
            && s.packets <= t.packets
            && forall i :: |s.packets| <= i < |t.packets| ==>
                 t.packets[i].samples == 8 * (if s.ptime > 0 && s.ptime % ms == 0 then s.ptime else ms)
    decreases |s.buffer|
  {
    hide EncodePacket, FramesPerPacket;
    if |s.buffer| >= PacketBytes(s) {
      PacketSpan(s, coder);
      DrainSpans(EncodePacket(s, coder), coder);
    }
  }

  /** Every packet of a process call spans the packet time then in force, eight samples a
      millisecond, when that is set and a whole number of frames, and one frame otherwise. */
  lemma PacketsSpan(use20ms: bool, es: seq<Event>, coder: Coder)
    requires Sized(coder) && es != [] && es[|es| - 1].Tick? && Run(Init(use20ms), es, coder).Some?
    ensures var m, t := Run(Init(use20ms), es[..|es| - 1], coder).value, Run(Init(use20ms), es, coder).value;
            && m.packets <= t.packets && m.config.msPerFrame > 0
            && forall i :: |m.packets| <= i < |t.packets| ==>
                 t.packets[i].samples
                 == 8 * (if m.ptime > 0 && m.ptime % m.config.msPerFrame == 0 then m.ptime else m.config.msPerFrame)
  {
    var m := Run(Init(use20ms), es[..|es| - 1], coder).value;
    Reachable(use20ms, es[..|es| - 1], coder);
    DrainSpans(Feed(m, Flatten(es[|es| - 1].blocks)), coder);
  }
}
