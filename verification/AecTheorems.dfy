/** What the synchroniser guarantees over whole runs. */
module AecTheorems {
  import opened Streams
  import opened AecSpec
  import opened AecInvariant

  /** A filter fresh from init, at time 0. */
  function Fresh(): Aec {
    Aec([], [], [], BASE_FRAMESIZE, 8000, 0, 0, 0, 0, false, false, false, Idle, false,
        Log(0, [], [], [], [], [], [], []))
  }

  // ---------- coupling, provenance, conservation ----------

  /** In every reachable session the delay line leads `ref` by exactly the configured delay;
      so silence is injected exactly when `ref` cannot fill a frame, and neither short read
      the code calls impossible has happened. */
  lemma BufferCoupling(s0: Aec, es: seq<Event>)
    requires Initial(s0) && Run(s0, es).Some?
    ensures var s := Run(s0, es).value;
            && !s.fatal
            && (s.phase == Running ==>
                  && |s.delayedRef| == |s.ref| + 2 * s.nominal
                  && (Starved(s) <==> |s.ref| < s.FrameBytes()))
  {
    Reachable(s0, es);
  }

  /** Both paths carry the accepted far-end stream, byte for byte and in order, once injected
      silence is deleted, and apart from the initial delay both contain the same amount of it;
      no alignment of the blocks is assumed. */
  lemma AcceptedStreamIsPlayed(s0: Aec, es: seq<Event>)
    requires Initial(s0) && Run(s0, es).Some? && Run(s0, es).value.phase == Running
    ensures var s := Run(s0, es).value;
            && Speech(s.log.played) + s.ref == s.log.accepted == Speech(s.log.pushed)
            && Far(s.log.cleaned) + s.delayedRef == Sound(s.log.pushed)
            && SilentBytes(s.log.pushed) == 2 * s.nominal + SilentBytes(s.log.played)
  {
    Reachable(s0, es);
  }

  /** Output 0, output 1, the far-end input and the echo input of the canceller all carry the
      same number of bytes; echo is fed in order and less than a frame of it is ever left. */
  lemma Conservation(s0: Aec, es: seq<Event>)
    requires Initial(s0) && Run(s0, es).Some? && Run(s0, es).value.phase == Running
    ensures var s := Run(s0, es).value;
            && |Sound(s.log.played)| == |Far(s.log.cleaned)|
            && |Far(s.log.cleaned)| == |Near(s.log.cleaned)| == CleanBytes(s.log.cleaned)
            && Near(s.log.cleaned) + s.echo == s.log.echoIn
            && |s.echo| < s.FrameBytes()
  {
    Reachable(s0, es);
  }

  /** The blocks the flow controller kept. */
  function Kept(in0: seq<RefBlock>): seq<Block> {
    if in0 == [] then []
    else Kept(in0[..|in0| - 1]) + if in0[|in0| - 1].kept.Some? then [in0[|in0| - 1].kept.value] else []
  }

  lemma {:induction false} AcceptTakesKept(s: Aec, in0: seq<RefBlock>)
    ensures Accept(s, in0).log.accepted == s.log.accepted + Flatten(Kept(in0))
  {
    if in0 != [] {
      var init, last := in0[..|in0| - 1], in0[|in0| - 1];
      AcceptTakesKept(s, init);
      if last.kept.Some? {
        FlattenSnoc(Kept(init), last.kept.value);
      } else {
        assert Kept(in0) == Kept(init);
      }
    }
  }

  lemma {:induction false} DrainTakesNothing(s: Aec)
    requires s.framesize > 0
    ensures Drain(s).log.accepted == s.log.accepted && Drain(s).log.echoIn == s.log.echoIn
    decreases |s.echo|
  {
    if !s.fatal && |s.echo| >= s.FrameBytes() { DrainTakesNothing(ProcessFrame(s)); }
  }

  /** The accepted stream grows by exactly the blocks the flow controller kept, once an echo
      frame was processed before the call, and not at all until then; the echo stream grows by
      everything queued. */
  lemma Intake(s: Aec, in0: Option<seq<RefBlock>>, in1: seq<Block>, now: nat)
    requires Inv(s) && Legal(s, Ticked(in0, in1, now)) && !s.bypass
    ensures var t := Process(s, in0, in1, now);
            && t.log.echoIn == s.log.echoIn + Flatten(in1)
            && (CleanBytes(s.log.cleaned) > 0 && in0.Some? ==>
                  t.log.accepted == s.log.accepted + Flatten(Kept(in0.value)))
            && (CleanBytes(s.log.cleaned) > 0 && in0.None? ==> t.log.accepted == s.log.accepted)
            && (CleanBytes(s.log.cleaned) == 0 ==> t.log.accepted == [])
  {
    assert Synchronised(s);
    IntakeWhenSynchronised(s, in0, in1, now);
    hide *;
  }

  lemma IntakeWhenSynchronised(s: Aec, in0: Option<seq<RefBlock>>, in1: seq<Block>, now: nat)
    requires s.framesize > 0 && !s.bypass && Synchronised(s)
    ensures var t := Process(s, in0, in1, now);
            && t.log.echoIn == s.log.echoIn + Flatten(in1)
            && (CleanBytes(s.log.cleaned) > 0 && in0.Some? ==>
                  t.log.accepted == s.log.accepted + Flatten(Kept(in0.value)))
            && (CleanBytes(s.log.cleaned) > 0 && in0.None? ==> t.log.accepted == s.log.accepted)
            && (CleanBytes(s.log.cleaned) == 0 ==> t.log.accepted == [])
  {
    hide CleanBytes, Flatten, Kept;
    var s0 := Tick(s, now);
    AcceptKeepsFrame(s0, if in0.Some? then in0.value else []);
    if in0.Some? { AcceptTakesKept(s0, in0.value); }
    var s1 := if in0.Some? && s.echoStarted then Accept(s0, in0.value) else s0;
    DrainTakesNothing(PutEcho(s1, in1));
  }

  // ---------- the delay law ----------

  /** The exact delay law holds precisely when every silence was injected while `ref` held
      back nothing but zero bytes. */
  lemma DelayLawExact(s0: Aec, es: seq<Event>)
    requires Initial(s0) && Run(s0, es).Some? && Run(s0, es).value.phase == Running
    ensures var s := Run(s0, es).value;
            s.nominal >= 0 && (DelayLaw(s) <==> CleanSilences(s.log.played))
  {
    Reachable(s0, es);
  }

  /** Every far-end block accepted this session is a whole number of frames. */
  ghost predicate Aligned(s: Aec) {
    s.framesize > 0 &&
    forall i :: 0 <= i < |s.log.pushed| ==>
      s.log.pushed[i].Voice? ==> |s.log.pushed[i].bytes| % s.FrameBytes() == 0
  }

  ghost predicate NothingHeldBack(cs: seq<Chunk>) {
    forall i :: 0 <= i < |cs| ==> cs[i].Silence? ==> cs[i].residue == []
  }

  ghost predicate Framed(s: Aec) {
    s.framesize > 0 && (Aligned(s) ==> |s.ref| % s.FrameBytes() == 0 && NothingHeldBack(s.log.played))
  }

  lemma MultiplesAdd(a: nat, b: nat, s: Aec)
    requires Configured(s)
    requires a % s.FrameBytes() == 0 && b % s.FrameBytes() == 0
    ensures (a + b) % s.FrameBytes() == 0
    ensures a >= s.FrameBytes() ==> (a - s.FrameBytes()) % s.FrameBytes() == 0
    ensures a < s.FrameBytes() ==> a == 0
  {
    if s.framesize == 80 { MultiplesOf160(a, b); } else { MultiplesOf320(a, b); }
  }

  lemma MultiplesOf160(a: nat, b: nat)
    requires a % 160 == 0 && b % 160 == 0
    ensures (a + b) % 160 == 0 && (a >= 160 ==> (a - 160) % 160 == 0) && (a < 160 ==> a == 0)
  {
  }

  lemma MultiplesOf320(a: nat, b: nat)
    requires a % 320 == 0 && b % 320 == 0
    ensures (a + b) % 320 == 0 && (a >= 320 ==> (a - 320) % 320 == 0) && (a < 320 ==> a == 0)
  {
  }

  lemma {:induction false} AcceptFramed(s: Aec, in0: seq<RefBlock>)
    requires Configured(s) && Framed(s)
    ensures Framed(Accept(s, in0))
  {
    if in0 != [] {
      var m := Accept(s, in0[..|in0| - 1]);
      AcceptFramed(s, in0[..|in0| - 1]);
      AcceptKeepsFrame(s, in0[..|in0| - 1]);
      match in0[|in0| - 1].kept {
        case None =>
        case Some(b) =>
          var t := PutRef(m, b);
          if Aligned(t) {
            assert t.log.pushed[|m.log.pushed|] == Voice(b);
            assert forall i :: 0 <= i < |m.log.pushed| ==> t.log.pushed[i] == m.log.pushed[i];
            MultiplesAdd(|m.ref|, |b|, s);
          }
      }
    }
  }

  lemma HeldBackSnoc(cs: seq<Chunk>, c: Chunk)
    requires NothingHeldBack(cs) && (c.Silence? ==> c.residue == [])
    ensures NothingHeldBack(cs + [c])
  {
  }

  lemma FrameFramed(s: Aec)
    requires Configured(s) && Framed(s) && |s.echo| >= s.FrameBytes()
    requires s.nominal >= 0 && |s.delayedRef| == |s.ref| + 2 * s.nominal
    ensures Framed(ProcessFrame(s))
  {
    FrameEffect(s);
    var t := ProcessFrame(s);
    if Aligned(t) {
      assert forall i :: 0 <= i < |s.log.pushed| ==> t.log.pushed[i] == s.log.pushed[i];
      MultiplesAdd(|s.ref|, 0, s);
      HeldBackSnoc(s.log.played, t.log.played[|s.log.played|]);
    }
  }

  lemma {:induction false} DrainFramed(s: Aec)
    requires Core(s) && s.phase == Running && Session(s) && Framed(s)
    ensures Framed(Drain(s))
    decreases |s.echo|
  {
    if |s.echo| >= s.FrameBytes() {
      FrameKeeps(s);
      FrameFramed(s);
      DrainFramed(ProcessFrame(s));
    }
  }

  lemma BypassFramed(s: Aec, in0: seq<RefBlock>, in1: seq<Block>)
    requires Framed(s)
    ensures Framed(PassBoth(s, in0, in1))
  {
    var t := PassBoth(s, in0, in1);
    assert Aligned(t) <==> Aligned(s);
    assert forall i :: |s.log.played| <= i < |t.log.played| ==> t.log.played[i].Through?;
    assert forall i :: 0 <= i < |s.log.played| ==> t.log.played[i] == s.log.played[i];
  }

  lemma ActiveFramed(s: Aec, in0: Option<seq<RefBlock>>, in1: seq<Block>)
    requires Core(s) && s.phase == Running && Session(s) && Framed(s)
    ensures var s1 := if in0.Some? && s.echoStarted then Accept(s, in0.value) else s;
            s1.framesize > 0 && Framed(Drain(PutEcho(s1, in1)))
  {
    var s1 := if in0.Some? && s.echoStarted then Accept(s, in0.value) else s;
    if in0.Some? && s.echoStarted {
      AcceptKeeps(s, in0.value);
      AcceptFramed(s, in0.value);
    }
    PutEchoKeeps(s1, in1);
    assert Framed(PutEcho(s1, in1));
    DrainFramed(PutEcho(s1, in1));
  }

  /** `Framed` reads nothing but the frame size, `ref` and two logs. */
  lemma SameFraming(s: Aec, t: Aec)
    requires Framed(s) && t.framesize == s.framesize && t.ref == s.ref
    requires t.log.pushed == s.log.pushed && t.log.played == s.log.played
    ensures Framed(t)
  {
  }

  lemma TickedFramed(s: Aec, in0: Option<seq<RefBlock>>, in1: seq<Block>, now: nat)
    requires Inv(s) && s.phase == Running && Framed(s) && (s.bypass ==> in0.Some?) && s.log.clock <= now
    ensures Framed(Process(s, in0, in1, now))
  {
    var s0 := Tick(s, now);
    SameFraming(s, s0);
    if s.bypass {
      BypassFramed(s0, in0.value, in1);
    } else {
      TickKeeps(s, now);
      ActiveFramed(s0, in0, in1);
      var d := Drain(PutEcho(if in0.Some? && s.echoStarted then Accept(s0, in0.value) else s0, in1));
      CheckFramed(d, now);
    }
  }

  lemma CheckFramed(s: Aec, now: nat)
    requires Framed(s)
    ensures Framed(CheckFlow(s, now))
  {
    hide Framed;
    SameFraming(s, CheckFlow(s, now));
  }

  lemma StepFramed(s: Aec, e: Event)
    requires Inv(s) && Legal(s, e) && (s.phase == Running ==> Framed(s))
    ensures Step(s, e).phase == Running ==> Framed(Step(s, e))
  {
    match e {
      case Ticked(in0, in1, time) =>
        if s.phase == Running { TickedFramed(s, in0, in1, time); }
      case Start(ok, now) =>
      case Stop =>
      case Rate(_) => if s.phase == Running { SameFraming(s, Step(s, e)); }
      case Delay(_) => if s.phase == Running { SameFraming(s, Step(s, e)); }
      case Bypass(_) => if s.phase == Running { SameFraming(s, Step(s, e)); }
    }
  }

  lemma {:induction false} ReachableFramed(s: Aec, es: seq<Event>)
    requires Initial(s) && Run(s, es).Some?
    ensures Run(s, es).value.phase == Running ==> Framed(Run(s, es).value)
  {
    if es != [] {
      ReachableFramed(s, es[..|es| - 1]);
      Reachable(s, es[..|es| - 1]);
      StepFramed(Run(s, es[..|es| - 1]).value, es[|es| - 1]);
    }
  }

  /** With frame-aligned far-end blocks the canceller hears exactly what was played, delayed by
      exactly the configured delay, injected silence included. */
  lemma AlignedDelayLaw(s0: Aec, es: seq<Event>)
    requires Initial(s0) && Run(s0, es).Some? && Run(s0, es).value.phase == Running
    requires Aligned(Run(s0, es).value)
    ensures var s := Run(s0, es).value;
            && s.nominal >= 0 && |s.ref| % s.FrameBytes() == 0
            && Zeros(2 * s.nominal) + Sound(s.log.played) + s.ref == Far(s.log.cleaned) + s.delayedRef
  {
    DelayLawExact(s0, es);
    ReachableFramed(s0, es);
  }

  /** The hypothesis is needed: one stray byte, held back behind a frame of silence, is enough
      to put the two streams out of step. */
  lemma StrayByteBreaksDelayLaw()
    ensures exists es: seq<Event> :: Run(Fresh(), es).Some? && Run(Fresh(), es).value.phase == Running
              && Run(Fresh(), es).value.nominal >= 0 && !DelayLaw(Run(Fresh(), es).value)
  {
    var s0, setup := Fresh(), Setup(8000, 0, 0);
    SetupState(s0, 8000, 0, 0);
    var a := Run(s0, setup).value;
    FirstSilentTick(a);
    var e1, e2 := FrameTick(a, [], 0), FrameTick(a, [1], 0);
    var b := Step(a, e1);
    StrayByteHeld(b);
    RunSnoc(s0, setup, e1);
    RunSnoc(s0, setup + [e1], e2);
    DelayLawExact(s0, setup + [e1] + [e2]);
  }

  lemma FirstSilentTick(a: Aec)
    requires a == Preprocess(Fresh(), true, 0)
    ensures a.FrameBytes() == 160
    ensures var b := Process(a, Some([RefBlock([], Some([]))]), [Zeros(160)], 0);
            && b.framesize == 80 && !b.bypass && !b.fatal && b.echo == [] && b.echoStarted
            && b.nominal == 0 && b.ref == [] && b.delayedRef == [] && b.phase == Running && b.log.clock == 0
  {
    assert a.delayedRef == [] && a.ref == [];
    TickLengths(a, [], 0);
  }

  lemma StrayByteHeld(b: Aec)
    requires b.framesize == 80 && !b.bypass && !b.fatal && b.echo == [] && b.echoStarted
    requires b.nominal == 0 && b.ref == [] && b.delayedRef == []
    ensures var c := Process(b, Some([RefBlock([1], Some([1]))]), [Zeros(160)], 0);
            c.phase == b.phase && !CleanSilences(c.log.played)
  {
    var e := Zeros(160);
    OneFrameTick(b, [1], e, 0);
    FlattenSnoc([], e);
    assert [] + [e] == [e];
    var s2 := PutEcho(PutRef(Tick(b, 0), [1]), [e]);
    FrameEffect(s2);
    var t := ProcessFrame(s2);
    var z := Silence(160, [1]);
    assert s2.ref == [1] && t.log.played[|b.log.played|] == z && z.residue[0] == 1;
    assert CheckFlow(t, 0).log.played == t.log.played;
  }

  // ---------- purging ----------

  /** Purge requests of any run are at least 5000 ms apart, although the elapsed time is
      compared after truncation to 32 bits. */
  lemma RateLimit(s0: Aec, es: seq<Event>)
    requires Initial(s0) && Run(s0, es).Some?
    ensures var requests := Run(s0, es).value.log.requests;
            forall i, j :: 0 <= i < j < |requests| ==> requests[j].time - requests[i].time >= 5000
  {
    Reachable(s0, es);
  }

  /** In any run at all, over any number of sessions and settings, a purge requested in a
      session whose delay is at least one frame was safe: see `SoundRequest`. */
  lemma PurgeSound(s0: Aec, es: seq<Event>)
    requires Initial(s0) && Run(s0, es).Some?
    ensures var requests := Run(s0, es).value.log.requests;
            forall i :: 0 <= i < |requests| ==>
              requests[i].nominal >= requests[i].framesize ==> SoundRequest(requests[i])
  {
    Reachable(s0, es);
  }

  /** With a delay of at least one frame `minRef` is -1 between windows and the least backlog of
      the current window otherwise, and a frame of it was silent exactly when `ref` was short. */
  lemma LeastBacklogTracked(s0: Aec, es: seq<Event>)
    requires Initial(s0) && Run(s0, es).Some? && Run(s0, es).value.phase == Running
    ensures var s := Run(s0, es).value;
            && (s.nominal >= s.framesize ==> IsLeast(s.minRef, s.log.window, s.nominal, s.framesize))
            && forall i :: 0 <= i < |s.log.window| ==>
                 (s.log.window[i].silent <==> s.log.window[i].backlog < s.FrameBytes())
  {
    Reachable(s0, es);
  }

  function Setup(rate: int, ms: int, start: nat): seq<Event> { [Rate(rate), Delay(ms), Start(true, start)] }

  /** One session: a run that starts the filter once, with this rate and delay. */
  predicate OneSession(s0: Aec, rate: int, ms: int, start: nat, es: seq<Event>) {
    && Initial(s0)
    && (forall i :: 0 <= i < |es| ==> !es[i].Start?)
    && Run(s0, Setup(rate, ms, start) + es).Some?
  }

  /** Every purge requested in such a session was safe. */
  ghost predicate PurgesSound(rate: int, ms: int) {
    forall s0: Aec, start: nat, es: seq<Event> :: OneSession(s0, rate, ms, start, es) ==>
      var requests := Run(s0, Setup(rate, ms, start) + es).value.log.requests;
      forall i :: 0 <= i < |requests| ==> SoundRequest(requests[i])
  }

  lemma SetupState(s0: Aec, rate: int, ms: int, start: nat)
    requires rate == 8000 || rate == 16000
    requires Initial(s0)
    ensures Run(s0, Setup(rate, ms, start)).Some? <==> ms >= 0 && s0.log.clock <= start
    ensures ms >= 0 && s0.log.clock <= start ==>
      Run(s0, Setup(rate, ms, start)).value == Preprocess(s0.(samplerate := rate, delayMs := ms), true, start)
  {
    var es := Setup(rate, ms, start);
    assert es[..2] == [Rate(rate), Delay(ms)] && es[..2][..1] == [Rate(rate)] && es[..2][..1][..0] == [];
    assert Run(s0, es[..2][..1]) == Some(s0.(samplerate := rate));
    assert Run(s0, es[..2]) == Some(s0.(samplerate := rate, delayMs := ms));
  }

  /** The session parameters are fixed when it starts, and every request carries them. */
  ghost predicate Parameters(s: Aec, nominal: int, framesize: nat) {
    && s.nominal == nominal && s.framesize == framesize
    && forall i :: 0 <= i < |s.log.requests| ==>
         s.log.requests[i].nominal == nominal && s.log.requests[i].framesize == framesize
  }

  lemma {:induction false} DrainParameters(s: Aec)
    requires s.framesize > 0
    ensures var t := Drain(s);
            t.nominal == s.nominal && t.framesize == s.framesize && t.log.requests == s.log.requests
    decreases |s.echo|
  {
    if !s.fatal && |s.echo| >= s.FrameBytes() { DrainParameters(ProcessFrame(s)); }
  }

  lemma CheckParameters(s: Aec, now: nat, nominal: int, framesize: nat)
    requires Parameters(s, nominal, framesize)
    ensures Parameters(CheckFlow(s, now), nominal, framesize)
  {
  }

  lemma StepParameters(s: Aec, e: Event, nominal: int, framesize: nat)
    requires Legal(s, e) && !e.Start? && Parameters(s, nominal, framesize)
    ensures Parameters(Step(s, e), nominal, framesize)
  {
    if e.Ticked? && !s.bypass {
      var s0 := Tick(s, e.time);
      AcceptKeepsFrame(s0, if e.in0.Some? then e.in0.value else []);
      var s1 := if e.in0.Some? && s.echoStarted then Accept(s0, e.in0.value) else s0;
      var d := Drain(PutEcho(s1, e.in1));
      DrainParameters(PutEcho(s1, e.in1));
      assert Parameters(d, nominal, framesize);
      CheckParameters(d, e.time, nominal, framesize);
    }
  }

  lemma {:induction false} SessionParameters(s0: Aec, rate: int, ms: int, start: nat, es: seq<Event>)
    requires rate == 8000 || rate == 16000
    requires OneSession(s0, rate, ms, start, es)
    ensures ms >= 0
    ensures Parameters(Run(s0, Setup(rate, ms, start) + es).value, ms * rate / 1000, rate / 100)
  {
    var all := Setup(rate, ms, start) + es;
    if es == [] {
      assert all == Setup(rate, ms, start);
      SetupState(s0, rate, ms, start);
    } else {
      assert all[..|all| - 1] == Setup(rate, ms, start) + es[..|es| - 1];
      SessionParameters(s0, rate, ms, start, es[..|es| - 1]);
      StepParameters(Run(s0, all[..|all| - 1]).value, es[|es| - 1], ms * rate / 1000, rate / 100);
    }
  }

  lemma FrameTakesEcho(s: Aec)
    requires |s.echo| >= s.FrameBytes()
    ensures ProcessFrame(s).echo == s.echo[s.FrameBytes()..] && ProcessFrame(s).framesize == s.framesize
  {
    hide Starved;
  }

  lemma OneFrameDrain(s: Aec)
    requires s.framesize > 0 && !s.fatal && |s.echo| == s.FrameBytes()
    ensures Drain(s) == ProcessFrame(s)
  {
    hide ProcessFrame;
    FrameTakesEcho(s);
    assert Drain(s) == Drain(ProcessFrame(s));
  }

  /** One tick that brings at most one kept block and exactly one frame of echo. */
  lemma OneFrameTick(s: Aec, b: Block, e: Block, now: nat)
    requires s.framesize > 0 && !s.bypass && !s.fatal && s.echo == [] && |e| == s.FrameBytes()
    ensures var s1 := if s.echoStarted then PutRef(Tick(s, now), b) else Tick(s, now);
            && |PutEcho(s1, [e]).echo| == s.FrameBytes()
            && var t := ProcessFrame(PutEcho(s1, [e]));
            Process(s, Some([RefBlock(b, Some(b))]), [e], now) == if t.fatal then t else CheckFlow(t, now)
  {
    hide ProcessFrame, CheckFlow, Drain;
    var in0 := [RefBlock(b, Some(b))];
    assert in0[..0] == [];
    assert Accept(Tick(s, now), in0) == PutRef(Tick(s, now), b);
    FlattenSnoc([], e);
    assert [] + [e] == [e];
    var s1 := if s.echoStarted then PutRef(Tick(s, now), b) else Tick(s, now);
    OneFrameDrain(PutEcho(s1, [e]));
  }

  /** The state at the end-of-call check of such a tick, on lengths alone. */
  ghost predicate TickedTo(s: Aec, t: Aec, held: nat, now: nat) {
    var n := s.FrameBytes();
    var least := Half(held + 2 * s.nominal - n);
    && !t.fatal && t.echo == [] && t.echoStarted && !t.bypass && t.phase == s.phase
    && t.nominal == s.nominal && t.framesize == s.framesize && t.samplerate == s.samplerate
    && |t.ref| == (if held < n then held else held - n)
    && |t.delayedRef| == |t.ref| + 2 * s.nominal
    && t.log.clock == now && t.flowControlTime == s.flowControlTime
    && t.minRef == (if least < s.minRef || s.minRef == -1 then least else s.minRef)
    && t.log.window == s.log.window + [Frame(held < n, held)]
    && t.log.requests == s.log.requests
  }

  lemma TickLengths(s: Aec, b: Block, now: nat)
    requires s.framesize > 0 && !s.bypass && !s.fatal && s.echo == [] && s.nominal >= 0
    requires |s.delayedRef| == |s.ref| + 2 * s.nominal
    requires s.echoStarted || b == []
    ensures exists t :: TickedTo(s, t, |s.ref| + |b|, now)
                     && Process(s, Some([RefBlock(b, Some(b))]), [Zeros(s.FrameBytes())], now) == CheckFlow(t, now)
  {
    hide Process, ProcessFrame, CheckFlow;
    var e := Zeros(s.FrameBytes());
    OneFrameTick(s, b, e, now);
    var s1 := if s.echoStarted then PutRef(Tick(s, now), b) else Tick(s, now);
    FlattenSnoc([], e);
    assert [] + [e] == [e];
    var s2 := PutEcho(s1, [e]);
    FrameEffect(s2);
    assert TickedTo(s, ProcessFrame(s2), |s.ref| + |b|, now);
  }

  /** A tick with one far-end block, kept as it is, and one frame of echo. */
  function FrameTick(s: Aec, b: Block, time: nat): Event {
    Ticked(Some([RefBlock(b, Some(b))]), [Zeros(s.FrameBytes())], time)
  }

  /** A session as it starts, with a delay under one frame. */
  predicate JustStarted(a: Aec) {
    && a.phase == Running && !a.bypass && !a.fatal && !a.echoStarted && a.log.clock == 0
    && 0 <= a.nominal <= a.framesize - 2
    && a.echo == [] && a.ref == [] && |a.delayedRef| == 2 * a.nominal
    && a.minRef == -1 && a.flowControlTime == 0 && a.log.window == [] && a.log.requests == []
  }

  /** Tick one plays silence and closes a window; tick two is silent too, but records -1. */
  lemma ForgottenSilence(a: Aec)
    requires JustStarted(a)
    ensures var held := a.FrameBytes() - 2 - 2 * a.nominal;
            var b := Process(a, Some([RefBlock([], Some([]))]), [Zeros(a.FrameBytes())], 5000);
            && b.framesize > 0 && !b.bypass && b.phase == Running && b.log.clock == 5000 && b.framesize == a.framesize
            && var c := Process(b, Some([RefBlock(Zeros(held), Some(Zeros(held)))]), [Zeros(a.FrameBytes())], 5000);
            && c.framesize == a.framesize && !c.bypass && c.phase == Running && c.log.clock == 5000
            && !c.fatal && c.echo == [] && c.echoStarted && c.nominal == a.nominal
            && |c.ref| == held && |c.delayedRef| == held + 2 * a.nominal
            && c.minRef == -1 && c.flowControlTime == 5000
            && c.log.window == [Frame(true, held)] && c.log.requests == []
  {
    TickLengths(a, [], 5000);
    var b := Process(a, Some([RefBlock([], Some([]))]), [Zeros(a.FrameBytes())], 5000);
    assert b.minRef == -1 && b.flowControlTime == 5000 && b.log.window == [] && b.log.requests == [];
    assert !b.fatal && b.echo == [] && b.echoStarted && |b.ref| == 0 && |b.delayedRef| == 2 * a.nominal;
    TickLengths(b, Zeros(a.FrameBytes() - 2 - 2 * a.nominal), 5000);
  }

  /** Tick three brings four frames, five seconds later: the purge goes out. */
  lemma FooledPurge(c: Aec, held: nat)
    requires c.framesize > 0 && !c.bypass && !c.fatal && c.echo == [] && c.echoStarted && c.nominal >= 0
    requires held == c.FrameBytes() - 2 - 2 * c.nominal && |c.ref| == held
    requires |c.delayedRef| == held + 2 * c.nominal && c.minRef == -1 && c.flowControlTime == 5000
    requires c.log.window == [Frame(true, held)] && c.log.requests == []
    ensures var long := Zeros(4 * c.FrameBytes());
            var d := Process(c, Some([RefBlock(long, Some(long))]), [Zeros(c.FrameBytes())], 10000);
            |d.log.requests| == 1 && !SoundRequest(d.log.requests[0])
  {
    TickLengths(c, Zeros(4 * c.FrameBytes()), 10000);
    var long := Zeros(4 * c.FrameBytes());
    var d := Process(c, Some([RefBlock(long, Some(long))]), [Zeros(c.FrameBytes())], 10000);
    assert |d.log.requests| == 1 && d.log.requests[0].window[0] == Frame(true, held);
  }

  function FooledEvents(a: Aec): seq<Event>
    requires JustStarted(a)
  {
    [FrameTick(a, [], 5000), FrameTick(a, Zeros(a.FrameBytes() - 2 - 2 * a.nominal), 5000),
     FrameTick(a, Zeros(4 * a.FrameBytes()), 10000)]
  }

  lemma FooledRun(a: Aec)
    requires JustStarted(a)
    ensures var es := FooledEvents(a);
            && Legal(a, es[0]) && Legal(Step(a, es[0]), es[1]) && Legal(Step(Step(a, es[0]), es[1]), es[2])
            && var d := Step(Step(Step(a, es[0]), es[1]), es[2]);
            |d.log.requests| == 1 && !SoundRequest(d.log.requests[0])
  {
    ForgottenSilence(a);
    var es := FooledEvents(a);
    FooledPurge(Step(Step(a, es[0]), es[1]), a.FrameBytes() - 2 - 2 * a.nominal);
  }

  lemma FooledExtends(s0: Aec, setup: seq<Event>, a: Aec)
    requires Run(s0, setup) == Some(a) && JustStarted(a)
    ensures var es := FooledEvents(a);
            && |es| == 3 && !es[0].Start? && !es[1].Start? && !es[2].Start?
            && Run(s0, setup + es).Some?
            && var requests := Run(s0, setup + es).value.log.requests;
            |requests| == 1 && !SoundRequest(requests[0])
  {
    FooledRun(a);
    hide Run, Legal, Step, SoundRequest;
    RunThree(s0, setup, FooledEvents(a));
  }

  lemma FooledSession(rate: int, ms: int) returns (s0: Aec, es: seq<Event>)
    requires (rate == 8000 || rate == 16000) && 0 <= ms < 10
    ensures OneSession(s0, rate, ms, 0, es)
    ensures var requests := Run(s0, Setup(rate, ms, 0) + es).value.log.requests;
            |requests| == 1 && !SoundRequest(requests[0])
  {
    s0 := Fresh();
    SetupState(s0, rate, ms, 0);
    hide Preprocess, Run, Setup, SoundRequest, FooledEvents;
    var a := Run(s0, Setup(rate, ms, 0)).value;
    SetupJustStarted(a, rate, ms);
    hide JustStarted;
    FooledExtends(s0, Setup(rate, ms, 0), a);
    es := FooledEvents(a);
  }

  /** With a delay under one frame, a silent frame can record the very value -1 that marks an
      empty window, be forgotten, and let a purge through: three ticks are enough. */
  lemma ShortDelayFooled(rate: int, ms: int)
    requires (rate == 8000 || rate == 16000) && 0 <= ms < 10
    ensures !PurgesSound(rate, ms)
  {
    hide OneSession, Run, Setup, SoundRequest;
    var s0, es := FooledSession(rate, ms);
  }

  lemma SetupJustStarted(a: Aec, rate: int, ms: int)
    requires (rate == 8000 || rate == 16000) && 0 <= ms < 10
    requires a == Preprocess(Fresh().(samplerate := rate, delayMs := ms), true, 0)
    ensures JustStarted(a)
  {
  }

  lemma RunThree(s: Aec, setup: seq<Event>, es: seq<Event>)
    requires |es| == 3 && Run(s, setup).Some?
    requires var a := Run(s, setup).value;
             Legal(a, es[0]) && Legal(Step(a, es[0]), es[1]) && Legal(Step(Step(a, es[0]), es[1]), es[2])
    ensures Run(s, setup + es) == Some(Step(Step(Step(Run(s, setup).value, es[0]), es[1]), es[2]))
  {
    RunSnoc(s, setup, es[0]);
    RunSnoc(s, setup + [es[0]], es[1]);
    RunSnoc(s, setup + [es[0]] + [es[1]], es[2]);
    assert setup + [es[0]] + [es[1]] + [es[2]] == setup + es;
  }

  lemma RunSnoc(s: Aec, es: seq<Event>, e: Event)
    ensures Run(s, es + [e]) == match Run(s, es)
                                case None => None
                                case Some(m) => if Legal(m, e) then Some(Step(m, e)) else None
  {
    assert (es + [e])[..|es|] == es;
  }

  /** Purging is safe in every session exactly when the configured delay is at least 10 ms,
      that is at least one frame at either rate. */
  lemma PurgeSoundIffTenMs(rate: int, ms: int)
    requires (rate == 8000 || rate == 16000) && ms >= 0
    ensures PurgesSound(rate, ms) <==> ms >= 10
  {
    if ms < 10 {
      ShortDelayFooled(rate, ms);
    } else {
      forall s0: Aec, start: nat, es: seq<Event> | OneSession(s0, rate, ms, start, es)
        ensures Justified(Run(s0, Setup(rate, ms, start) + es).value.log.requests)
        ensures Parameters(Run(s0, Setup(rate, ms, start) + es).value, ms * rate / 1000, rate / 100)
      {
        Reachable(s0, Setup(rate, ms, start) + es);
        SessionParameters(s0, rate, ms, start, es);
      }
    }
  }
}
