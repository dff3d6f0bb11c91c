/** The echo-canceller filter of mediastreamer2's WebRTC plugin, field by field and loop by
    loop.  Every method takes exactly the step of the state machine in `AecSpec`, and keeps
    its invariant. */
module EchoCancellation {
  import opened Streams
  import opened AecSpec
  import opened AecInvariant

  class EchoCanceller {
    const delayedRef: Bufferizer
    const ref: Bufferizer
    const echo: Bufferizer
    var framesize: nat
    var samplerate: nat
    var delayMs: int
    var nominalRefSamples: int
    var minRefSamples: int
    var flowControlTime: nat
    var echoStarted: bool
    var bypassMode: bool
    var usingZeroes: bool

    /** Set where the C code calls ms_fatal, which ends the program. */
    var fatal: bool
    /** What this session has put on output 0 and output 1, every block labelled with its
        origin; whoever reads the outputs has emptied them by the next session. */
    var out0: seq<Chunk>
    var out1: seq<Clean>

    ghost var phase: Phase
    /** Everything else that crossed the filter's boundary since the session began. */
    ghost var log: Log

    ghost predicate Separate()
      reads this
    {
      delayedRef != ref && delayedRef != echo && ref != echo
    }

    /** The fields as a state of the specification. */
    ghost function State(): Aec
      reads this, delayedRef, ref, echo
    {
      Aec(delayedRef.bytes, ref.bytes, echo.bytes, framesize, samplerate, delayMs,
          nominalRefSamples, minRefSamples, flowControlTime, echoStarted, bypassMode, usingZeroes,
          phase, fatal, log.(played := out0, cleaned := out1))
    }

    ghost predicate Valid()
      reads this, delayedRef, ref, echo
    {
      Separate() && Inv(State())
    }

    /** The arguments stand for what the fields init does not assign happen to hold. */
    constructor (nominal: int, minimum: int, time: nat, clock: nat)
      ensures Valid() && Initial(State())
      ensures fresh(delayedRef) && fresh(ref) && fresh(echo)
    {
      samplerate, delayMs, framesize := 8000, 0, BASE_FRAMESIZE;
      delayedRef := new Bufferizer();
      echo := new Bufferizer();
      ref := new Bufferizer();
      usingZeroes, echoStarted, bypassMode := false, false, false;
      nominalRefSamples, minRefSamples, flowControlTime := nominal, minimum, time;
      fatal, out0, out1 := false, [], [];
      phase, log := Idle, Log(clock, [], [], [], [], [], [], []);
    }

    method Preprocess(ok: bool, now: nat)
      requires Valid() && Legal(State(), Start(ok, now))
      modifies this, delayedRef
      ensures Valid() && State() == Step(old(State()), Start(ok, now))
    {
      StepKeeps(State(), Start(ok, now));
      hide Inv, Reset, FillDelay;
      var delaySamples := DelaySamples(delayMs, samplerate);
      ResetFields(now);
      if ok {
        FillDelayLine(delaySamples, now);
      } else {
        bypassMode := true;
        phase := Failed;
      }
    }

    method ResetFields(now: nat)
      requires Separate()
      modifies this
      ensures State() == Reset(old(State()), now)
    {
      hide FrameSamples;
      echoStarted := false;
      framesize := FrameSamples(samplerate);
      out0, out1, log := [], [], EmptyLog(log, now);
    }

    /** The canceller is ready: fill the delay line with silence for the time of the delay. */
    method FillDelayLine(delaySamples: nat, now: nat)
      requires Separate()
      modifies this, delayedRef
      ensures State() == FillDelay(old(State()), delaySamples, now)
    {
      delayedRef.Put(Zeros(2 * delaySamples));
      log := log.(pushed := [Silence(2 * delaySamples, [])]);
      minRefSamples := -1;
      nominalRefSamples := delaySamples;
      flowControlTime := now;
      phase := Running;
    }

    /** Silence instead of a frame the far end has not delivered. */
    method PlaySilence(nbytes: nat)
      requires Separate() && nbytes == 2 * framesize
      modifies this, delayedRef
      ensures State() == InjectSilence(old(State()))
    {
      delayedRef.Put(Zeros(nbytes));
      log := log.(pushed := log.pushed + [Silence(nbytes, ref.bytes)]);
      out0 := out0 + [Silence(nbytes, ref.bytes)];
      usingZeroes := true;
    }

    /** The next frame of the undelayed far-end signal. */
    method PlayFarEnd(nbytes: nat)
      requires Separate() && nbytes == 2 * framesize && nbytes > 0
      modifies this, ref
      ensures State() == PlayRef(old(State()))
    {
      var got, frame := ref.Read(nbytes);
      if got == 0 {
        fatal := true;
        return;
      }
      usingZeroes := false;
      out0 := out0 + [Voice(frame)];
    }

    /** Feeds the canceller one delayed far-end frame and one echo frame. */
    method FeedCanceller(nbytes: nat, near: Block, avail: int, ghost frame: Frame)
      requires Separate() && nbytes == 2 * framesize && nbytes > 0
      modifies this, delayedRef
      ensures State() == Cancel(old(State()), near, avail, frame)
    {
      var got, far := delayedRef.Read(nbytes);
      if got == 0 {
        fatal := true;
        return;
      }
      var availSamples := Half(avail - nbytes);
      if availSamples < minRefSamples || minRefSamples == -1 {
        minRefSamples := availSamples;
      }
      out1 := out1 + [Cancelled(far, near, nbytes)];
      log := log.(window := log.window + [frame]);
    }

    /** One pass of the frame loop, the frame of echo having been read. */
    method OneFrame(nbytes: nat, near: Block)
      requires Separate() && nbytes == 2 * framesize && nbytes > 0 && !fatal
      modifies this, delayedRef, ref
      ensures var s := old(State());
              State() == (var s1 := s.(echoStarted := true);
                          var s2 := if Starved(s1) then InjectSilence(s1) else PlayRef(s1);
                          if s2.fatal then s2
                          else Cancel(s2, near, |s.delayedRef|, Frame(Starved(s1), |s.ref|)))
    {
      ghost var backlog := |ref.bytes|;
      if !echoStarted { echoStarted := true; }
      var avail := |delayedRef.bytes|;
      var starved := avail < nominalRefSamples * 2 + nbytes;
      if starved {
        PlaySilence(nbytes);
      } else {
        PlayFarEnd(nbytes);
      }
      if fatal { return; }
      FeedCanceller(nbytes, near, avail, Frame(starved, backlog));
    }

    /** Drains the echo queue frame by frame. */
    method ProcessFrames()
      requires Separate() && framesize > 0
      modifies this, delayedRef, ref, echo
      ensures State() == Drain(old(State())) && log.requests == old(log.requests)
    {
      var nbytes := framesize * 2;
      while !fatal && |echo.bytes| >= nbytes
        invariant Separate() && framesize > 0 && nbytes == framesize * 2
        invariant Drain(State()) == Drain(old(State())) && log.requests == old(log.requests)
        decreases |echo.bytes|
      {
        ghost var before := State();
        var got, near := echo.Read(nbytes);
        assert State() == before.(echo := before.echo[nbytes..]);
        OneFrame(nbytes, near);
        assert State() == ProcessFrame(before);
      }
    }

    method AcceptReference(in0: seq<RefBlock>)
      requires Separate()
      modifies this, delayedRef, ref
      ensures State() == Accept(old(State()), in0)
    {
      var i := 0;
      while i < |in0|
        invariant 0 <= i <= |in0| && Separate()
        invariant State() == Accept(old(State()), in0[..i])
      {
        ghost var before := State();
        match in0[i].kept {
          case None =>
          case Some(b) =>
            delayedRef.Put(b);
            ref.Put(b);
            log := log.(accepted := log.accepted + b, pushed := log.pushed + [Voice(b)]);
            assert State() == PutRef(before, b);
        }
        assert in0[..i + 1][..i] == in0[..i];
        i := i + 1;
      }
      assert in0[..i] == in0;
    }

    method BypassBoth(in0: seq<RefBlock>, in1: seq<Block>)
      requires Separate()
      modifies this`out0, this`out1
      ensures State() == PassBoth(old(State()), in0, in1)
    {
      var i := 0;
      while i < |in0|
        invariant 0 <= i <= |in0| && out1 == old(out1)
        invariant out0 == old(out0) + seq(i, k requires 0 <= k < i => Through(in0[k].arrived))
      {
        out0 := out0 + [Through(in0[i].arrived)];
        i := i + 1;
      }
      i := 0;
      while i < |in1|
        invariant 0 <= i <= |in1|
        invariant out0 == old(out0) + seq(|in0|, k requires 0 <= k < |in0| => Through(in0[k].arrived))
        invariant out1 == old(out1) + seq(i, k requires 0 <= k < i => Forwarded(in1[k]))
      {
        out1 := out1 + [Forwarded(in1[i])];
        i := i + 1;
      }
    }

    /** Asks the flow controller to drop surplus; returns the target it is given, if any. */
    method CheckBacklog(now: nat) returns (target: Option<(int, nat)>)
      requires Separate()
      modifies this
      ensures State() == CheckFlow(old(State()), now)
      ensures target.Some? <==> |log.requests| == |old(log.requests)| + 1
      ensures target.Some? ==>
        var r := log.requests[|old(log.requests)|]; target.value == (r.purge, r.interval)
    {
      target := None;
      if (now - flowControlTime) % 0x1_0000_0000 >= FLOW_CONTROL_INTERVAL_MS && minRefSamples != -1 {
        var nbytes := framesize * 2;
        var diff := minRefSamples - nominalRefSamples;
        if diff > nbytes / 2 {
          var purge := diff - nbytes / 2;
          target := Some((purge, FLOW_CONTROL_INTERVAL_MS * samplerate / 1000));
          log := log.(requests := log.requests + [
                        Request(now, purge, target.value.1, log.window, nominalRefSamples, framesize)]);
        }
        minRefSamples := -1;
        flowControlTime := now;
        log := log.(window := []);
      }
    }

    method Process(in0: Option<seq<RefBlock>>, in1: seq<Block>, now: nat)
      returns (target: Option<(int, nat)>)
      requires Valid() && Legal(State(), Ticked(in0, in1, now))
      modifies this, delayedRef, ref, echo
      ensures Valid() && State() == Step(old(State()), Ticked(in0, in1, now))
      ensures target.Some? <==> |log.requests| == |old(log.requests)| + 1
      ensures target.Some? ==>
        var r := log.requests[|old(log.requests)|]; target.value == (r.purge, r.interval)
    {
      StepKeeps(State(), Ticked(in0, in1, now));
      target := Drive(in0, in1, now);
    }

    method Drive(in0: Option<seq<RefBlock>>, in1: seq<Block>, now: nat)
      returns (target: Option<(int, nat)>)
      requires Separate() && framesize > 0 && (bypassMode ==> in0.Some?)
      modifies this, delayedRef, ref, echo
      ensures State() == AecSpec.Process(old(State()), in0, in1, now)
      ensures target.Some? <==> |log.requests| == |old(log.requests)| + 1
      ensures target.Some? ==>
        var r := log.requests[|old(log.requests)|]; target.value == (r.purge, r.interval)
    {
      target := None;
      log := log.(clock := now);
      assert State() == Tick(old(State()), now);
      if bypassMode {
        BypassBoth(in0.value, in1);
        return;
      }
      AcceptKeepsFrame(Tick(State(), now), if in0.Some? then in0.value else []);
      if in0.Some? && echoStarted {
        AcceptReference(in0.value);
      }
      ghost var s1 := State();
      echo.PutFromQueue(in1);
      log := log.(echoIn := log.echoIn + Flatten(in1));
      assert State() == PutEcho(s1, in1);
      ProcessFrames();
      if fatal { return; }
      target := CheckBacklog(now);
    }

    method Postprocess()
      requires Valid() && Legal(State(), Stop)
      modifies this, delayedRef, ref, echo
      ensures Valid() && State() == Step(old(State()), Stop)
    {
      StepKeeps(State(), Stop);
      hide Inv;
      delayedRef.Flush();
      echo.Flush();
      ref.Flush();
      phase := Idle;
    }

    method SetSampleRate(rate: int) returns (status: int)
      requires Valid()
      modifies this`samplerate
      ensures Valid() && State() == Step(old(State()), Rate(rate))
      ensures status == if rate == 8000 || rate == 16000 then 0 else -1
    {
      StepKeeps(State(), Rate(rate));
      hide Inv;
      if rate != 8000 && rate != 16000 { return -1; }
      samplerate := rate;
      return 0;
    }

    method SetDelay(ms: int)
      requires Valid()
      modifies this`delayMs
      ensures Valid() && State() == Step(old(State()), Delay(ms))
    {
      StepKeeps(State(), Delay(ms));
      hide Inv;
      delayMs := ms;
    }

    method SetBypassMode(on: bool)
      requires Valid()
      modifies this`bypassMode
      ensures Valid() && State() == Step(old(State()), Bypass(on))
    {
      StepKeeps(State(), Bypass(on));
      hide Inv;
      bypassMode := on;
    }
  }
}
