/** The echo canceller's stream synchroniser as a state machine on values.

    The state holds the filter's fields and a log of everything that crossed its boundary
    since the current session began.  `EchoCanceller` (Aec.dfy) is the imperative filter;
    each of its methods is proved to take exactly the step defined here. */
module AecSpec {
  import opened Streams

  const BASE_FRAMESIZE := 80
  const FLOW_CONTROL_INTERVAL_MS := 5000

  /** A block on output 0 or in the delay line, labelled with where it came from.
      A silence remembers the bytes that `ref` was holding back when it was injected. */
  datatype Chunk = Silence(len: nat, residue: Block) | Voice(bytes: Block) | Through(passed: Block)

  /** A block on output 1: what the canceller made of one far-end and one echo frame
      (a block of `outLen` bytes), or, in bypass mode, an input block handed on. */
  datatype Clean = Cancelled(far: Block, near: Block, outLen: nat) | Forwarded(block: Block)

  /** A far-end block and the flow controller's answer: the block to keep, if any. */
  datatype RefBlock = RefBlock(arrived: Block, kept: Option<Block>)

  /** One processed frame: was silence injected, and how many bytes `ref` held before it. */
  datatype Frame = Frame(silent: bool, backlog: nat)

  /** A purge request, with the session parameters and the frames of the window it judges. */
  datatype Request = Request(time: nat, purge: int, interval: nat,
                             window: seq<Frame>, nominal: int, framesize: nat)

  datatype Phase = Idle | Running | Failed

  datatype Log = Log(clock: nat, accepted: Block, echoIn: Block,
                     pushed: seq<Chunk>, played: seq<Chunk>, cleaned: seq<Clean>,
                     window: seq<Frame>, requests: seq<Request>)

  datatype Aec = Aec(delayedRef: Block, ref: Block, echo: Block,
                     framesize: nat, samplerate: nat, delayMs: int,
                     nominal: int, minRef: int, flowControlTime: nat,
                     echoStarted: bool, bypass: bool, usingZeroes: bool,
                     phase: Phase, fatal: bool, log: Log)
  {
    function FrameBytes(): nat { 2 * framesize }
  }

  /** What the sound card hears: pass-through blocks are not the synchroniser's. */
  function Sound(cs: seq<Chunk>): Block {
    if cs == [] then [] else
    Sound(cs[..|cs| - 1]) + match cs[|cs| - 1] {
      case Silence(len, _) => Zeros(len)
      case Voice(bytes) => bytes
      case Through(_) => []
    }
  }

  /** The far-end bytes only, injected silence deleted. */
  function Speech(cs: seq<Chunk>): Block {
    if cs == [] then [] else
    Speech(cs[..|cs| - 1]) + match cs[|cs| - 1] {
      case Silence(_, _) => []
      case Voice(bytes) => bytes
      case Through(_) => []
    }
  }

  /** How many bytes of silence were injected. */
  function SilentBytes(cs: seq<Chunk>): nat {
    if cs == [] then 0 else
    SilentBytes(cs[..|cs| - 1]) + match cs[|cs| - 1] {
      case Silence(len, _) => len
      case Voice(_) => 0
      case Through(_) => 0
    }
  }

  /** The far-end stream the canceller was fed. */
  function Far(cs: seq<Clean>): Block {
    if cs == [] then [] else
    Far(cs[..|cs| - 1]) + if cs[|cs| - 1].Cancelled? then cs[|cs| - 1].far else []
  }

  /** The echo stream the canceller was fed. */
  function Near(cs: seq<Clean>): Block {
    if cs == [] then [] else
    Near(cs[..|cs| - 1]) + if cs[|cs| - 1].Cancelled? then cs[|cs| - 1].near else []
  }

  /** Bytes of cleaned signal written on output 1. */
  function CleanBytes(cs: seq<Clean>): nat {
    if cs == [] then 0 else
    CleanBytes(cs[..|cs| - 1]) + if cs[|cs| - 1].Cancelled? then cs[|cs| - 1].outLen else 0
  }

  // ---------- preprocess ----------

  function EmptyLog(l: Log, now: nat): Log {
    l.(clock := now, accepted := [], echoIn := [], pushed := [], played := [], cleaned := [], window := [])
  }

  function FrameSamples(rate: nat): nat { BASE_FRAMESIZE * rate / 8000 }

  function DelaySamples(ms: nat, rate: nat): nat { ms * rate / 1000 }

  function Reset(s: Aec, now: nat): Aec {
    s.(echoStarted := false, framesize := FrameSamples(s.samplerate), log := EmptyLog(s.log, now))
  }

  function FillDelay(s: Aec, delaySamples: nat, now: nat): Aec {
    s.(delayedRef := s.delayedRef + Zeros(2 * delaySamples),
       minRef := -1, nominal := delaySamples, flowControlTime := now, phase := Running,
       log := s.log.(pushed := [Silence(2 * delaySamples, [])]))
  }

  /** `ok` says whether the canceller instance could be created and initialised. */
  function Preprocess(s: Aec, ok: bool, now: nat): Aec
    requires s.delayMs >= 0
  {
    if ok then FillDelay(Reset(s, now), DelaySamples(s.delayMs, s.samplerate), now)
    else Reset(s, now).(bypass := true, phase := Failed)
  }

  // ---------- process ----------

  function PassBoth(s: Aec, in0: seq<RefBlock>, in1: seq<Block>): Aec {
    s.(log := s.log.(
         played := s.log.played + seq(|in0|, i requires 0 <= i < |in0| => Through(in0[i].arrived)),
         cleaned := s.log.cleaned + seq(|in1|, i requires 0 <= i < |in1| => Forwarded(in1[i]))))
  }

  function PutRef(s: Aec, b: Block): Aec {
    s.(delayedRef := s.delayedRef + b, ref := s.ref + b,
       log := s.log.(accepted := s.log.accepted + b, pushed := s.log.pushed + [Voice(b)]))
  }

  function Accept(s: Aec, in0: seq<RefBlock>): Aec {
    if in0 == [] then s else
    var s' := Accept(s, in0[..|in0| - 1]);
    match in0[|in0| - 1].kept {
      case None => s'
      case Some(b) => PutRef(s', b)
    }
  }

  function PutEcho(s: Aec, in1: seq<Block>): Aec {
    s.(echo := s.echo + Flatten(in1), log := s.log.(echoIn := s.log.echoIn + Flatten(in1)))
  }

  function InjectSilence(s: Aec): Aec {
    var z := Silence(s.FrameBytes(), s.ref);
    s.(delayedRef := s.delayedRef + Zeros(s.FrameBytes()), usingZeroes := true,
       log := s.log.(pushed := s.log.pushed + [z], played := s.log.played + [z]))
  }

  /** A short read here is the first "should never happen". */
  function PlayRef(s: Aec): Aec {
    if |s.ref| < s.FrameBytes() then s.(fatal := true)
    else s.(ref := s.ref[s.FrameBytes()..], usingZeroes := false,
            log := s.log.(played := s.log.played + [Voice(s.ref[..s.FrameBytes()])]))
  }

  /** Feeds the canceller; a short read of the delay line is the second "should never happen".
      `avail` is the length of the delay line when the frame began. */
  function Cancel(s: Aec, near: Block, avail: int, frame: Frame): Aec {
    if |s.delayedRef| < s.FrameBytes() then s.(fatal := true)
    else
      var samples := Half(avail - s.FrameBytes());
      s.(delayedRef := s.delayedRef[s.FrameBytes()..],
         minRef := if samples < s.minRef || s.minRef == -1 then samples else s.minRef,
         log := s.log.(cleaned := s.log.cleaned + [Cancelled(s.delayedRef[..s.FrameBytes()], near, s.FrameBytes())],
                       window := s.log.window + [frame]))
  }

  predicate Starved(s: Aec) { |s.delayedRef| < s.nominal * 2 + s.FrameBytes() }

  function ProcessFrame(s: Aec): Aec
    requires |s.echo| >= s.FrameBytes()
  {
    var near := s.echo[..s.FrameBytes()];
    var s1 := s.(echo := s.echo[s.FrameBytes()..], echoStarted := true);
    var s2 := if Starved(s1) then InjectSilence(s1) else PlayRef(s1);
    if s2.fatal then s2 else Cancel(s2, near, |s.delayedRef|, Frame(Starved(s1), |s.ref|))
  }

  function Drain(s: Aec): Aec
    requires s.framesize > 0
    decreases |s.echo|
  {
    if s.fatal || |s.echo| < s.FrameBytes() then s else Drain(ProcessFrame(s))
  }

  /** The end-of-call check.  The ticker's 64-bit difference is truncated to 32 bits. */
  function CheckFlow(s: Aec, now: nat): Aec {
    if (now - s.flowControlTime) % 0x1_0000_0000 >= FLOW_CONTROL_INTERVAL_MS && s.minRef != -1 then
      var diff := s.minRef - s.nominal;
      var s1 := if diff > s.framesize
        then s.(log := s.log.(requests := s.log.requests + [
                   Request(now, diff - s.framesize, FLOW_CONTROL_INTERVAL_MS * s.samplerate / 1000,
                           s.log.window, s.nominal, s.framesize)]))
        else s;
      s1.(minRef := -1, flowControlTime := now, log := s1.log.(window := []))
    else s
  }

  function Tick(s: Aec, now: nat): Aec { s.(log := s.log.(clock := now)) }

  /** One ticker call.  `in0` is absent when input 0 is not connected. */
  function Process(s: Aec, in0: Option<seq<RefBlock>>, in1: seq<Block>, now: nat): Aec
    requires s.framesize > 0
    requires s.bypass ==> in0.Some?
  {
    var s0 := Tick(s, now);
    if s.bypass then PassBoth(s0, in0.value, in1)
    else
      var s1 := if in0.Some? && s.echoStarted then Accept(s0, in0.value) else s0;
      AcceptKeepsFrame(s0, if in0.Some? then in0.value else []);
      var s2 := Drain(PutEcho(s1, in1));
      if s2.fatal then s2 else CheckFlow(s2, now)
  }

  lemma {:induction false} AcceptKeepsFrame(s: Aec, in0: seq<RefBlock>)
    ensures var t := Accept(s, in0);
            t == s.(delayedRef := t.delayedRef, ref := t.ref,
                    log := s.log.(accepted := t.log.accepted, pushed := t.log.pushed))
  {
    if in0 != [] {
      AcceptKeepsFrame(s, in0[..|in0| - 1]);
    }
  }

  // ---------- postprocess and the setters ----------

  function Postprocess(s: Aec): Aec {
    s.(delayedRef := [], echo := [], ref := [], phase := Idle)
  }

  function SetRate(s: Aec, rate: int): Aec {
    if rate != 8000 && rate != 16000 then s else s.(samplerate := rate)
  }

  // ---------- runs ----------

  datatype Event =
    | Start(ok: bool, now: nat)
    | Ticked(in0: Option<seq<RefBlock>>, in1: seq<Block>, time: nat)
    | Stop
    | Rate(rate: int)
    | Delay(ms: int)
    | Bypass(on: bool)

  /** The framework's side of the contract: preprocess, then process calls, then postprocess,
      with a clock that never runs backwards; setters at any time.  Bypass must still be on
      when a filter whose preprocess failed is ticked. */
  predicate Legal(s: Aec, e: Event) {
    match e {
      case Start(_, now) => s.phase == Idle && s.delayMs >= 0 && now >= s.log.clock
      case Ticked(in0, _, time) =>
        && s.phase != Idle && time >= s.log.clock && s.framesize > 0
        && (s.phase == Failed ==> s.bypass) && (s.bypass ==> in0.Some?)
      case Stop => s.phase != Idle
      case Rate(_) => true
      case Delay(_) => true
      case Bypass(_) => true
    }
  }

  function Step(s: Aec, e: Event): Aec
    requires Legal(s, e)
  {
    match e {
      case Start(ok, now) => Preprocess(s, ok, now)
      case Ticked(in0, in1, time) => Process(s, in0, in1, time)
      case Stop => Postprocess(s)
      case Rate(rate) => SetRate(s, rate)
      case Delay(ms) => s.(delayMs := ms)
      case Bypass(on) => s.(bypass := on)
    }
  }

  /** A filter fresh from init: fields init does not assign may hold anything. */
  predicate Initial(s: Aec) {
    && s.samplerate == 8000 && s.framesize == BASE_FRAMESIZE && s.delayMs == 0
    && !s.echoStarted && !s.bypass && !s.usingZeroes && s.phase == Idle && !s.fatal
    && s.delayedRef == [] && s.ref == [] && s.echo == []
    && s.log == Log(s.log.clock, [], [], [], [], [], [], [])
  }

  /** The state after a run, or None when some event of it was not legal. */
  function Run(s: Aec, es: seq<Event>): Option<Aec> {
    if es == [] then Some(s) else
    match Run(s, es[..|es| - 1]) {
      case None => None
      case Some(m) => if Legal(m, es[|es| - 1]) then Some(Step(m, es[|es| - 1])) else None
    }
  }
}
