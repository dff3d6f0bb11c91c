/** What a run of the synchroniser can be read off its events: the settings in force, where
    bypassed blocks went, and what a purge request carries. */
module AecRuns {
  import opened Streams
  import opened AecSpec
  import opened AecInvariant
  import opened AecTheorems

  // ---------- the settings in force ----------

  /** The last bypass setting; a start that fails is one too. */
  function BypassInForce(es: seq<Event>): bool {
    if es == [] then false else
    match es[|es| - 1] {
      case Bypass(on) => on
      case Start(ok, _) => !ok || BypassInForce(es[..|es| - 1])
      case _ => BypassInForce(es[..|es| - 1])
    }
  }

  /** The last sampling rate asked for that is supported. */
  function RateInForce(es: seq<Event>): int {
    if es == [] then 8000 else
    match es[|es| - 1] {
      case Rate(rate) => if rate == 8000 || rate == 16000 then rate else RateInForce(es[..|es| - 1])
      case _ => RateInForce(es[..|es| - 1])
    }
  }

  function DelayInForce(es: seq<Event>): int {
    if es == [] then 0 else
    match es[|es| - 1] {
      case Delay(ms) => ms
      case _ => DelayInForce(es[..|es| - 1])
    }
  }

  lemma {:induction false} DrainKeepsSettings(s: Aec)
    requires s.framesize > 0
    ensures var t := Drain(s);
            && t.bypass == s.bypass && t.samplerate == s.samplerate && t.delayMs == s.delayMs
            && t.phase == s.phase && t.framesize == s.framesize && t.nominal == s.nominal
            && t.flowControlTime == s.flowControlTime && t.log.requests == s.log.requests
    decreases |s.echo|
  {
    if !s.fatal && |s.echo| >= s.FrameBytes() { DrainKeepsSettings(ProcessFrame(s)); }
  }

  lemma TickKeepsSettings(s: Aec, in0: Option<seq<RefBlock>>, in1: seq<Block>, now: nat)
    requires Legal(s, Ticked(in0, in1, now))
    ensures var t := Process(s, in0, in1, now);
            && t.bypass == s.bypass && t.samplerate == s.samplerate && t.delayMs == s.delayMs
            && t.phase == s.phase && t.framesize == s.framesize && t.nominal == s.nominal
  {
    if !s.bypass {
      var s0 := Tick(s, now);
      AcceptKeepsFrame(s0, if in0.Some? then in0.value else []);
      var s1 := if in0.Some? && s.echoStarted then Accept(s0, in0.value) else s0;
      DrainKeepsSettings(PutEcho(s1, in1));
    }
  }

  /** After any run the rate, the delay and the bypass switch are what was last set; a failed
      start leaves bypass on until it is set again. */
  lemma {:induction false} SettingsInForce(s0: Aec, es: seq<Event>)
    requires Initial(s0) && Run(s0, es).Some?
    ensures var s := Run(s0, es).value;
            s.bypass == BypassInForce(es) && s.samplerate == RateInForce(es) && s.delayMs == DelayInForce(es)
  {
    if es != [] {
      var init, e := es[..|es| - 1], es[|es| - 1];
      SettingsInForce(s0, init);
      if e.Ticked? { TickKeepsSettings(Run(s0, init).value, e.in0, e.in1, e.time); }
    }
  }

  /** The events up to the last start. */
  function BeforeStart(es: seq<Event>): seq<Event> {
    if es == [] || es[|es| - 1].Start? then es[..if es == [] then 0 else |es| - 1]
    else BeforeStart(es[..|es| - 1])
  }

  lemma StepKeepsSession(s: Aec, e: Event)
    requires Legal(s, e) && !e.Start? && Step(s, e).phase == Running
    ensures s.phase == Running && Step(s, e).framesize == s.framesize && Step(s, e).nominal == s.nominal
  {
    hide Process;
    if e.Ticked? { TickKeepsSettings(s, e.in0, e.in1, e.time); }
  }

  lemma StartedSession(s: Aec, ok: bool, now: nat)
    requires Legal(s, Start(ok, now)) && (s.samplerate == 8000 || s.samplerate == 16000)
    requires Preprocess(s, ok, now).phase == Running
    ensures 100 * Preprocess(s, ok, now).framesize == s.samplerate
    ensures Preprocess(s, ok, now).nominal == DelaySamples(s.delayMs, s.samplerate)
  {
  }

  /** A session runs with the rate and delay in force when it started, whatever is set later. */
  lemma {:induction false} SessionSettings(s0: Aec, es: seq<Event>)
    requires Initial(s0) && Run(s0, es).Some? && Run(s0, es).value.phase == Running
    ensures var s, before := Run(s0, es).value, BeforeStart(es);
            && 100 * s.framesize == RateInForce(before)
            && DelayInForce(before) >= 0 && RateInForce(before) >= 0
            && s.nominal == DelaySamples(DelayInForce(before), RateInForce(before))
  {
    hide DelaySamples, Preprocess, Process, Inv, Initial;
    if es == [] {
      NotYetRunning(s0);
    } else {
      var init, e := es[..|es| - 1], es[|es| - 1];
      SettingsInForce(s0, init);
      if e.Start? {
        Reachable(s0, init);
        RateSupported(Run(s0, init).value);
        StartedSession(Run(s0, init).value, e.ok, e.now);
      } else {
        StepKeepsSession(Run(s0, init).value, e);
        SessionSettings(s0, init);
      }
    }
  }

  lemma NotYetRunning(s: Aec)
    requires Initial(s)
    ensures s.phase != Running
  {
  }

  lemma RateSupported(s: Aec)
    requires Inv(s)
    ensures s.samplerate == 8000 || s.samplerate == 16000
  {
  }

  // ---------- bypass ----------

  /** The blocks on output 0 that were handed through. */
  function Throughs(cs: seq<Chunk>): seq<Block> {
    if cs == [] then []
    else Throughs(cs[..|cs| - 1]) + if cs[|cs| - 1].Through? then [cs[|cs| - 1].passed] else []
  }

  /** The blocks on output 1 that were handed through. */
  function Forwards(cs: seq<Clean>): seq<Block> {
    if cs == [] then []
    else Forwards(cs[..|cs| - 1]) + if cs[|cs| - 1].Forwarded? then [cs[|cs| - 1].block] else []
  }

  function Arrived(in0: seq<RefBlock>): seq<Block> {
    if in0 == [] then [] else Arrived(in0[..|in0| - 1]) + [in0[|in0| - 1].arrived]
  }

  /** The far-end blocks that arrived in this session while bypass was on. */
  function BypassedFar(es: seq<Event>): seq<Block> {
    if es == [] then [] else
    match es[|es| - 1] {
      case Start(_, _) => []
      case Ticked(in0, _, _) =>
        BypassedFar(es[..|es| - 1]) +
        if BypassInForce(es[..|es| - 1]) && in0.Some? then Arrived(in0.value) else []
      case _ => BypassedFar(es[..|es| - 1])
    }
  }

  /** The microphone blocks that arrived in this session while bypass was on. */
  function BypassedNear(es: seq<Event>): seq<Block> {
    if es == [] then [] else
    match es[|es| - 1] {
      case Start(_, _) => []
      case Ticked(_, in1, _) =>
        BypassedNear(es[..|es| - 1]) + if BypassInForce(es[..|es| - 1]) then in1 else []
      case _ => BypassedNear(es[..|es| - 1])
    }
  }

  lemma PassedSnoc(cs: seq<Chunk>, c: Chunk, ds: seq<Clean>, d: Clean)
    ensures Throughs(cs + [c]) == Throughs(cs) + if c.Through? then [c.passed] else []
    ensures Forwards(ds + [d]) == Forwards(ds) + if d.Forwarded? then [d.block] else []
  {
    assert (cs + [c])[..|cs|] == cs && (ds + [d])[..|ds|] == ds;
  }

  lemma {:induction false} FarHandedOn(cs: seq<Chunk>, in0: seq<RefBlock>)
    ensures var ts := seq(|in0|, i requires 0 <= i < |in0| => Through(in0[i].arrived));
            Throughs(cs + ts) == Throughs(cs) + Arrived(in0)
  {
    var ts := seq(|in0|, i requires 0 <= i < |in0| => Through(in0[i].arrived));
    if in0 == [] {
      assert cs + ts == cs;
    } else {
      var init := in0[..|in0| - 1];
      FarHandedOn(cs, init);
      var us := seq(|init|, i requires 0 <= i < |init| => Through(init[i].arrived));
      assert cs + ts == (cs + us) + [Through(in0[|in0| - 1].arrived)];
      PassedSnoc(cs + us, Through(in0[|in0| - 1].arrived), [], Forwarded([]));
    }
  }

  lemma {:induction false} NearHandedOn(cs: seq<Clean>, in1: seq<Block>)
    ensures var ts := seq(|in1|, i requires 0 <= i < |in1| => Forwarded(in1[i]));
            Forwards(cs + ts) == Forwards(cs) + in1
  {
    var ts := seq(|in1|, i requires 0 <= i < |in1| => Forwarded(in1[i]));
    if in1 == [] {
      assert cs + ts == cs;
    } else {
      var init := in1[..|in1| - 1];
      NearHandedOn(cs, init);
      var us := seq(|init|, i requires 0 <= i < |init| => Forwarded(init[i]));
      assert cs + ts == (cs + us) + [Forwarded(in1[|in1| - 1])];
      PassedSnoc([], Through([]), cs + us, Forwarded(in1[|in1| - 1]));
      assert in1 == init + [in1[|in1| - 1]];
    }
  }

  /** The outputs have only grown, and by no block handed through. */
  ghost predicate NothingHandedOn(s: Aec, t: Aec) {
    && Throughs(t.log.played) == Throughs(s.log.played) && s.log.played <= t.log.played
    && Forwards(t.log.cleaned) == Forwards(s.log.cleaned) && s.log.cleaned <= t.log.cleaned
  }

  lemma PlayingHandsNothingOn(s: Aec)
    ensures NothingHandedOn(s, InjectSilence(s)) && NothingHandedOn(s, PlayRef(s))
  {
    hide Throughs, Forwards;
    PassedSnoc(s.log.played, Silence(s.FrameBytes(), s.ref), [], Forwarded([]));
    if |s.ref| >= s.FrameBytes() {
      PassedSnoc(s.log.played, Voice(s.ref[..s.FrameBytes()]), [], Forwarded([]));
    }
  }

  lemma CancellingHandsNothingOn(s: Aec, near: Block, avail: int, frame: Frame)
    ensures NothingHandedOn(s, Cancel(s, near, avail, frame))
  {
    hide Throughs, Forwards;
    if |s.delayedRef| >= s.FrameBytes() {
      PassedSnoc([], Through([]), s.log.cleaned, Cancelled(s.delayedRef[..s.FrameBytes()], near, s.FrameBytes()));
    }
  }

  lemma FrameHandsNothingOn(s: Aec)
    requires |s.echo| >= s.FrameBytes()
    ensures NothingHandedOn(s, ProcessFrame(s))
  {
    var s1 := s.(echo := s.echo[s.FrameBytes()..], echoStarted := true);
    var s2 := if Starved(s1) then InjectSilence(s1) else PlayRef(s1);
    PlayingHandsNothingOn(s1);
    CancellingHandsNothingOn(s2, s.echo[..s.FrameBytes()], |s.delayedRef|, Frame(Starved(s1), |s.ref|));
    hide InjectSilence, PlayRef, Cancel, Throughs, Forwards, Starved;
  }

  lemma {:induction false} DrainHandsNothingOn(s: Aec)
    requires s.framesize > 0
    ensures NothingHandedOn(s, Drain(s))
    decreases |s.echo|
  {
    hide Throughs, Forwards, ProcessFrame;
    if !s.fatal && |s.echo| >= s.FrameBytes() {
      FrameTakesEcho(s);
      FrameHandsNothingOn(s);
      DrainHandsNothingOn(ProcessFrame(s));
    }
  }

  /** A tick in bypass appends input 0 to output 0 and input 1 to output 1, and changes nothing
      else but the time. */
  lemma BypassedTick(s: Aec, in0: seq<RefBlock>, in1: seq<Block>, now: nat)
    requires Legal(s, Ticked(Some(in0), in1, now)) && s.bypass
    ensures var t := Process(s, Some(in0), in1, now);
            && t == s.(log := s.log.(clock := now, played := t.log.played, cleaned := t.log.cleaned))
            && s.log.played <= t.log.played && |t.log.played| == |s.log.played| + |in0|
            && s.log.cleaned <= t.log.cleaned && |t.log.cleaned| == |s.log.cleaned| + |in1|
            && Throughs(t.log.played) == Throughs(s.log.played) + Arrived(in0)
            && Forwards(t.log.cleaned) == Forwards(s.log.cleaned) + in1
  {
    hide Throughs, Forwards, Arrived;
    FarHandedOn(s.log.played, in0);
    NearHandedOn(s.log.cleaned, in1);
  }

  /** A tick outside bypass only appends to the outputs, and hands no block through. */
  lemma ActiveTick(s: Aec, in0: Option<seq<RefBlock>>, in1: seq<Block>, now: nat)
    requires Legal(s, Ticked(in0, in1, now)) && !s.bypass
    ensures NothingHandedOn(s, Process(s, in0, in1, now))
  {
    hide Throughs, Forwards;
    var s0 := Tick(s, now);
    AcceptKeepsFrame(s0, if in0.Some? then in0.value else []);
    var s1 := if in0.Some? && s.echoStarted then Accept(s0, in0.value) else s0;
    DrainHandsNothingOn(PutEcho(s1, in1));
  }

  lemma StepHandsOn(s: Aec, e: Event)
    requires Legal(s, e)
    ensures var t := Step(s, e);
            var far := if e.Start? then [] else Throughs(s.log.played);
            var near := if e.Start? then [] else Forwards(s.log.cleaned);
            && Throughs(t.log.played) ==
                 far + (if e.Ticked? && s.bypass && e.in0.Some? then Arrived(e.in0.value) else [])
            && Forwards(t.log.cleaned) == near + (if e.Ticked? && s.bypass then e.in1 else [])
  {
    match e {
      case Ticked(in0, in1, time) =>
        hide Process, Throughs, Forwards, Arrived;
        if s.bypass {
          BypassedTick(s, in0.value, in1, time);
        } else {
          ActiveTick(s, in0, in1, time);
        }
      case Start(ok, now) =>
      case _ =>
    }
  }

  /** Over every run: what was handed through on output 0 are exactly the far-end blocks of the
      session's bypassed ticks, in order, and on output 1 exactly their microphone blocks. */
  lemma {:induction false} BypassHandsOn(s0: Aec, es: seq<Event>)
    requires Initial(s0) && Run(s0, es).Some?
    ensures Throughs(Run(s0, es).value.log.played) == BypassedFar(es)
    ensures Forwards(Run(s0, es).value.log.cleaned) == BypassedNear(es)
  {
    if es == [] {
      NothingPlayedYet(s0);
    } else {
      hide Step, Legal, Throughs, Forwards, Arrived, Initial;
      var init, e := es[..|es| - 1], es[|es| - 1];
      BypassHandsOn(s0, init);
      SettingsInForce(s0, init);
      StepHandsOn(Run(s0, init).value, e);
    }
  }

  lemma NothingPlayedYet(s: Aec)
    requires Initial(s)
    ensures Throughs(s.log.played) == [] && Forwards(s.log.cleaned) == []
  {
  }

  // ---------- what a request carries ----------

  /** Each event of a run adds at most one purge request; only a tick does, at its own time, and
      the purge is to be spread over five seconds at the rate then in force. */
  lemma RequestedByTick(s0: Aec, es: seq<Event>, e: Event)
    requires Initial(s0) && Run(s0, es + [e]).Some?
    ensures Run(s0, es).Some?
    ensures var before, after := Run(s0, es).value.log.requests, Run(s0, es + [e]).value.log.requests;
            && before <= after && |after| <= |before| + 1
            && (|after| > |before| ==>
                  && e.Ticked? && after[|before|].time == e.time
                  && after[|before|].interval == 5 * RateInForce(es))
  {
    RunSnoc(s0, es, e);
    var s := Run(s0, es).value;
    SettingsInForce(s0, es);
    if e.Ticked? && !s.bypass {
      var t := Tick(s, e.time);
      AcceptKeepsFrame(t, if e.in0.Some? then e.in0.value else []);
      var s1 := if e.in0.Some? && s.echoStarted then Accept(t, e.in0.value) else t;
      DrainKeepsSettings(PutEcho(s1, e.in1));
      CheckRequests(Drain(PutEcho(s1, e.in1)), e.time);
    }
  }

  /** A check that is not due, or has seen no frame, changes nothing; one that is due closes the
      window and restarts the clock.  The 5000 ms are counted modulo 2^32. */
  lemma CheckRequests(s: Aec, now: nat)
    ensures var t, due := CheckFlow(s, now), (now - s.flowControlTime) % 0x1_0000_0000 >= 5000 && s.minRef != -1;
            && (!due ==> t == s)
            && (due ==>
                  && t == s.(minRef := -1, flowControlTime := now,
                             log := s.log.(window := [], requests := t.log.requests))
                  && s.log.requests <= t.log.requests && |t.log.requests| <= |s.log.requests| + 1
                  && (|t.log.requests| > |s.log.requests| ==>
                        var r := t.log.requests[|s.log.requests|];
                        r.time == now && r.interval == 5 * s.samplerate && r.window == s.log.window))
  {
    assert FLOW_CONTROL_INTERVAL_MS * s.samplerate / 1000 == 5 * s.samplerate;
  }

  /** No purge is requested within the first five seconds of a session. */
  ghost predicate Late(s: Aec, start: nat) {
    && start <= s.log.clock && start <= s.flowControlTime <= s.log.clock
    && forall i :: 0 <= i < |s.log.requests| ==> s.log.requests[i].time >= start + 5000
  }

  lemma {:induction false} NoEarlyPurge(s0: Aec, rate: int, ms: int, start: nat, es: seq<Event>)
    requires rate == 8000 || rate == 16000
    requires OneSession(s0, rate, ms, start, es)
    ensures Late(Run(s0, Setup(rate, ms, start) + es).value, start)
  {
    var all := Setup(rate, ms, start) + es;
    if es == [] {
      assert all == Setup(rate, ms, start);
      SetupState(s0, rate, ms, start);
    } else {
      var init, e := es[..|es| - 1], es[|es| - 1];
      assert all[..|all| - 1] == Setup(rate, ms, start) + init;
      NoEarlyPurge(s0, rate, ms, start, init);
      LateStep(Run(s0, Setup(rate, ms, start) + init).value, e, start);
    }
  }

  lemma LateStep(s: Aec, e: Event, start: nat)
    requires Late(s, start) && Legal(s, e) && !e.Start?
    ensures Late(Step(s, e), start)
  {
    if e.Ticked? && !s.bypass {
      var t := Tick(s, e.time);
      AcceptKeepsFrame(t, if e.in0.Some? then e.in0.value else []);
      var s1 := if e.in0.Some? && s.echoStarted then Accept(t, e.in0.value) else t;
      var s2 := PutEcho(s1, e.in1);
      DrainKeepsSettings(s2);
      DrainClock(s2);
      CheckRequests(Drain(s2), e.time);
      hide Drain, CheckFlow, Accept;
    }
  }
}
