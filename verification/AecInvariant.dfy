/** What every step of the synchroniser keeps. */
module AecInvariant {
  import opened Streams
  import opened AecSpec

  // ---------- the logs, one entry at a time ----------

  lemma ChunkSnoc(cs: seq<Chunk>, c: Chunk)
    ensures Sound(cs + [c]) == Sound(cs) + if c.Silence? then Zeros(c.len) else if c.Voice? then c.bytes else []
    ensures Speech(cs + [c]) == Speech(cs) + if c.Voice? then c.bytes else []
    ensures SilentBytes(cs + [c]) == SilentBytes(cs) + if c.Silence? then c.len else 0
  {
    assert (cs + [c])[..|cs|] == cs;
  }

  lemma CleanSnoc(cs: seq<Clean>, c: Clean)
    ensures Far(cs + [c]) == Far(cs) + if c.Cancelled? then c.far else []
    ensures Near(cs + [c]) == Near(cs) + if c.Cancelled? then c.near else []
    ensures CleanBytes(cs + [c]) == CleanBytes(cs) + if c.Cancelled? then c.outLen else 0
  {
    assert (cs + [c])[..|cs|] == cs;
  }

  lemma {:induction false} ThroughAddsNothing(cs: seq<Chunk>, ts: seq<Chunk>)
    requires forall i :: 0 <= i < |ts| ==> ts[i].Through?
    ensures Sound(cs + ts) == Sound(cs) && Speech(cs + ts) == Speech(cs)
    ensures SilentBytes(cs + ts) == SilentBytes(cs)
  {
    if ts == [] {
      assert cs + ts == cs;
    } else {
      var ts' := ts[..|ts| - 1];
      ThroughAddsNothing(cs, ts');
      assert cs + ts == (cs + ts') + [ts[|ts| - 1]];
      ChunkSnoc(cs + ts', ts[|ts| - 1]);
    }
  }

  lemma {:induction false} ForwardedAddsNothing(cs: seq<Clean>, ts: seq<Clean>)
    requires forall i :: 0 <= i < |ts| ==> ts[i].Forwarded?
    ensures Far(cs + ts) == Far(cs) && Near(cs + ts) == Near(cs) && CleanBytes(cs + ts) == CleanBytes(cs)
  {
    if ts == [] {
      assert cs + ts == cs;
    } else {
      var ts' := ts[..|ts| - 1];
      ForwardedAddsNothing(cs, ts');
      assert cs + ts == (cs + ts') + [ts[|ts| - 1]];
      CleanSnoc(cs + ts', ts[|ts| - 1]);
    }
  }

  // ---------- the stream invariant ----------

  /** Every silence was injected while `ref` held back nothing but zeros. */
  ghost predicate CleanSilences(cs: seq<Chunk>) {
    forall i :: 0 <= i < |cs| ==> cs[i].Silence? ==> AllZero(cs[i].residue)
  }

  /** The canceller's far-end input is the played stream delayed by the configured delay. */
  ghost predicate DelayLaw(s: Aec)
    requires s.nominal >= 0
  {
    Zeros(2 * s.nominal) + Sound(s.log.played) + s.ref == Far(s.log.cleaned) + s.delayedRef
  }

  /** With injected silence deleted, both paths carry exactly the accepted stream, in order. */
  ghost predicate Provenance(s: Aec) {
    && Speech(s.log.played) + s.ref == s.log.accepted
    && Speech(s.log.pushed) == s.log.accepted
    && Sound(s.log.pushed) == Far(s.log.cleaned) + s.delayedRef
    && SilentBytes(s.log.pushed) == 2 * s.nominal + SilentBytes(s.log.played)
  }

  /** The streams balance, with `ahead` bytes played but not yet fed to the canceller. */
  ghost predicate Balanced(s: Aec, ahead: nat) {
    && s.nominal >= 0
    && |s.delayedRef| == |s.ref| + 2 * s.nominal + ahead
    && |Sound(s.log.played)| == |Far(s.log.cleaned)| + ahead
    && Provenance(s)
    && (DelayLaw(s) <==> CleanSilences(s.log.played))
  }

  lemma SameTail(x: Block, y: Block, b: Block)
    requires |x| == |y|
    ensures x + b == y + b <==> x == y
  {
    assert (x + b)[..|x|] == x && (y + b)[..|y|] == y;
  }

  /** Inserting silence before a held-back residue, and appending it at the end, give the
      same stream exactly when the residue is itself silent. */
  lemma SilenceCommutes(p: Block, r: Block, f: Block, n: nat)
    requires |r| < n && |p| + |r| == |f|
    ensures p + Zeros(n) + r == f + Zeros(n) <==> p + r == f && AllZero(r)
  {
    var lhs, rhs := p + Zeros(n) + r, f + Zeros(n);
    if AllZero(r) {
      assert Zeros(n) + r == r + Zeros(n);
      assert lhs == (p + r) + Zeros(n);
      SameTail(p + r, f, Zeros(n));
    } else if lhs == rhs {
      forall i | 0 <= i < |r| ensures r[i] == 0 {
        assert r[i] == lhs[|p| + n + i] == rhs[|p| + n + i] == 0;
      }
    }
  }

  lemma CleanSilencesSnoc(cs: seq<Chunk>, c: Chunk)
    ensures CleanSilences(cs + [c]) <==> CleanSilences(cs) && (c.Silence? ==> AllZero(c.residue))
  {
    assert (cs + [c])[|cs|] == c;
    assert forall i :: 0 <= i < |cs| ==> (cs + [c])[i] == cs[i];
  }

  lemma AppendBoth(z: Block, p: Block, r: Block, f: Block, d: Block, b: Block)
    requires |z| + |p| + |r| == |f| + |d|
    ensures z + p + (r + b) == f + (d + b) <==> z + p + r == f + d
    ensures p + (r + b) == (p + r) + b && f + (d + b) == (f + d) + b
  {
    SameTail(z + p + r, f + d, b);
    assert z + p + (r + b) == (z + p + r) + b;
  }

  lemma PutRefBalanced(s: Aec, b: Block, ahead: nat)
    requires Balanced(s, ahead)
    ensures Balanced(PutRef(s, b), ahead)
  {
    hide Sound, Speech, SilentBytes, Far, Near, CleanBytes, CleanSilences, AllZero;
    ChunkSnoc(s.log.pushed, Voice(b));
    AppendBoth(Zeros(2 * s.nominal), Sound(s.log.played), s.ref, Far(s.log.cleaned), s.delayedRef, b);
  }

  lemma {:induction false} AcceptBalanced(s: Aec, in0: seq<RefBlock>)
    requires Balanced(s, 0)
    ensures Balanced(Accept(s, in0), 0)
  {
    if in0 != [] {
      AcceptBalanced(s, in0[..|in0| - 1]);
      match in0[|in0| - 1].kept {
        case None =>
        case Some(b) => PutRefBalanced(Accept(s, in0[..|in0| - 1]), b, 0);
      }
    }
  }

  lemma InjectBoth(z: Block, p: Block, r: Block, f: Block, d: Block, n: nat)
    requires |z| + |p| + |r| == |f| + |d| && |r| < n
    ensures z + (p + Zeros(n)) + r == f + (d + Zeros(n)) <==> z + p + r == f + d && AllZero(r)
    ensures f + (d + Zeros(n)) == (f + d) + Zeros(n)
  {
    SilenceCommutes(z + p, r, f + d, n);
    assert z + (p + Zeros(n)) + r == (z + p) + Zeros(n) + r;
  }

  lemma InjectBalanced(s: Aec)
    requires Balanced(s, 0) && |s.ref| < s.FrameBytes()
    ensures Balanced(InjectSilence(s), s.FrameBytes())
  {
    hide Sound, Speech, SilentBytes, Far, Near, CleanBytes, CleanSilences, AllZero;
    var z := Silence(s.FrameBytes(), s.ref);
    ChunkSnoc(s.log.pushed, z);
    ChunkSnoc(s.log.played, z);
    CleanSilencesSnoc(s.log.played, z);
    InjectBoth(Zeros(2 * s.nominal), Sound(s.log.played), s.ref, Far(s.log.cleaned), s.delayedRef, s.FrameBytes());
  }

  lemma MoveFront(z: Block, p: Block, r: Block, n: nat)
    requires n <= |r|
    ensures z + (p + r[..n]) + r[n..] == z + p + r
    ensures (p + r[..n]) + r[n..] == p + r
  {
    assert r == r[..n] + r[n..];
  }

  lemma PlayBalanced(s: Aec)
    requires Balanced(s, 0) && |s.ref| >= s.FrameBytes() && !s.fatal
    ensures !PlayRef(s).fatal && Balanced(PlayRef(s), s.FrameBytes())
  {
    hide Sound, Speech, SilentBytes, Far, Near, CleanBytes, CleanSilences, AllZero;
    var n := s.FrameBytes();
    ChunkSnoc(s.log.played, Voice(s.ref[..n]));
    CleanSilencesSnoc(s.log.played, Voice(s.ref[..n]));
    MoveFront(Zeros(2 * s.nominal), Sound(s.log.played), s.ref, n);
    MoveFront([], Speech(s.log.played), s.ref, n);
  }

  lemma CancelBalanced(s: Aec, near: Block, avail: int, frame: Frame)
    requires Balanced(s, s.FrameBytes()) && !s.fatal
    ensures !Cancel(s, near, avail, frame).fatal && Balanced(Cancel(s, near, avail, frame), 0)
  {
    hide Sound, Speech, SilentBytes, Far, Near, CleanBytes, CleanSilences, AllZero;
    var n := s.FrameBytes();
    CleanSnoc(s.log.cleaned, Cancelled(s.delayedRef[..n], near, n));
    MoveFront([], Far(s.log.cleaned), s.delayedRef, n);
  }

  // ---------- the window and the purge requests ----------

  /** The backlog of the delay line, in samples, that a frame records for the purge decision. */
  function Recorded(f: Frame, nominal: int, framesize: nat): int {
    Half(f.backlog + 2 * nominal - 2 * framesize)
  }

  /** `m` is the smallest backlog recorded in a window, -1 standing for an empty one. */
  ghost predicate IsLeast(m: int, window: seq<Frame>, nominal: int, framesize: nat) {
    if window == [] then m == -1
    else
      && m != -1
      && (forall i :: 0 <= i < |window| ==> m <= Recorded(window[i], nominal, framesize))
      && (exists i :: 0 <= i < |window| && m == Recorded(window[i], nominal, framesize))
  }

  /** A frame is silent exactly when `ref` cannot fill it; with a delay of at least one frame,
      `minRef` is the least backlog of the window. */
  ghost predicate WindowTracked(s: Aec) {
    && (forall i :: 0 <= i < |s.log.window| ==>
          (s.log.window[i].silent <==> s.log.window[i].backlog < s.FrameBytes()))
    && (s.nominal >= s.framesize ==> IsLeast(s.minRef, s.log.window, s.nominal, s.framesize))
  }

  /** Every frame of the window was real far-end signal and left at least one frame in `ref`
      beyond what is purged; in the tightest frame exactly that was left (give or take the
      half sample of an odd backlog). */
  ghost predicate SoundRequest(r: Request) {
    && r.purge > 0 && r.window != []
    && (forall i :: 0 <= i < |r.window| ==>
          !r.window[i].silent && r.window[i].backlog >= 2 * r.purge + 4 * r.framesize)
    && (exists i :: 0 <= i < |r.window| && r.window[i].backlog <= 2 * r.purge + 4 * r.framesize + 1)
  }

  ghost predicate Justified(requests: seq<Request>) {
    forall i :: 0 <= i < |requests| ==>
      requests[i].nominal >= requests[i].framesize ==> SoundRequest(requests[i])
  }

  /** Requests are at least five seconds of ticker time apart. */
  ghost predicate Spaced(requests: seq<Request>) {
    forall i, j :: 0 <= i < j < |requests| ==>
      requests[j].time >= requests[i].time + FLOW_CONTROL_INTERVAL_MS
  }

  ghost predicate Paced(s: Aec) {
    && Spaced(s.log.requests)
    && (forall i :: 0 <= i < |s.log.requests| ==> s.log.requests[i].time <= s.log.clock)
    && (s.phase == Running ==>
          && s.flowControlTime <= s.log.clock
          && forall i :: 0 <= i < |s.log.requests| ==> s.log.requests[i].time <= s.flowControlTime)
  }

  lemma LeastSnoc(m: int, window: seq<Frame>, f: Frame, nominal: int, framesize: nat)
    requires nominal >= framesize
    requires IsLeast(m, window, nominal, framesize)
    ensures IsLeast(var v := Recorded(f, nominal, framesize); if v < m || m == -1 then v else m,
                    window + [f], nominal, framesize)
  {
    var v, w := Recorded(f, nominal, framesize), window + [f];
    assert w[|window|] == f;
    if window != [] && !(v < m) {
      var i :| 0 <= i < |window| && m == Recorded(window[i], nominal, framesize);
      assert w[i] == window[i];
    }
  }

  /** The decision itself, read off the window: with a delay of at least one frame, a due check
      asks for a purge exactly when every frame since the last check began with more than two
      frames of far-end signal in `ref`. */
  lemma PurgeDecision(s: Aec, now: nat)
    requires s.nominal >= s.framesize && WindowTracked(s)
    ensures |CheckFlow(s, now).log.requests| == |s.log.requests| + 1 <==>
            && (now - s.flowControlTime) % 0x1_0000_0000 >= FLOW_CONTROL_INTERVAL_MS
            && s.log.window != []
            && forall i :: 0 <= i < |s.log.window| ==> s.log.window[i].backlog >= 2 * s.FrameBytes() + 2
    ensures |CheckFlow(s, now).log.requests| == |s.log.requests| + 1 ==>
            SoundRequest(CheckFlow(s, now).log.requests[|s.log.requests|])
  {
    var window := s.log.window;
    if window != [] {
      var i :| 0 <= i < |window| && s.minRef == Recorded(window[i], s.nominal, s.framesize);
      assert forall j :: 0 <= j < |window| ==> s.minRef <= Recorded(window[j], s.nominal, s.framesize);
      assert s.minRef - s.nominal > s.framesize <==> window[i].backlog >= 2 * s.FrameBytes() + 2;
    }
  }

  // ---------- the invariant of every reachable state ----------

  /** Echo is consumed in order, a frame of it for every frame fed and every frame written. */
  ghost predicate EchoKept(s: Aec) {
    && Near(s.log.cleaned) + s.echo == s.log.echoIn
    && |Near(s.log.cleaned)| == |Far(s.log.cleaned)| == CleanBytes(s.log.cleaned)
  }

  ghost predicate Configured(s: Aec) {
    && (s.samplerate == 8000 || s.samplerate == 16000)
    && (s.framesize == 80 || s.framesize == 160)
    && !s.fatal
  }

  ghost predicate Core(s: Aec) {
    Configured(s) && Paced(s) && Justified(s.log.requests)
  }

  /** Far-end signal is accepted only once there is echo to synchronise on. */
  ghost predicate Synchronised(s: Aec) {
    && (s.echoStarted <==> CleanBytes(s.log.cleaned) > 0)
    && (!s.echoStarted ==> s.log.accepted == [])
  }

  ghost predicate Session(s: Aec) {
    Balanced(s, 0) && EchoKept(s) && WindowTracked(s) && Synchronised(s)
  }

  ghost predicate Inv(s: Aec) {
    && Core(s)
    && if s.phase == Running then Session(s) && |s.echo| < s.FrameBytes()
       else s.delayedRef == [] && s.ref == [] && s.echo == []
  }

  /** The streams stay balanced over a frame, neither "should never happen" being reached. */
  lemma FrameBalanced(s: Aec)
    requires !s.fatal && Balanced(s, 0) && |s.echo| >= s.FrameBytes()
    ensures !ProcessFrame(s).fatal && Balanced(ProcessFrame(s), 0)
  {
    var n := s.FrameBytes();
    var s1 := s.(echo := s.echo[n..], echoStarted := true);
    assert Balanced(s1, 0);
    var s2 := if Starved(s1) then InjectSilence(s1) else PlayRef(s1);
    if Starved(s1) { InjectBalanced(s1); } else { PlayBalanced(s1); }
    CancelBalanced(s2, s.echo[..n], |s.delayedRef|, Frame(Starved(s1), |s.ref|));
  }

  /** A frame's effect in a coupled state, where no read can fall short. */
  lemma FrameEffect(s: Aec)
    requires !s.fatal && |s.echo| >= s.FrameBytes()
    requires s.nominal >= 0 && |s.delayedRef| == |s.ref| + 2 * s.nominal
    ensures var n, short := s.FrameBytes(), |s.ref| < s.FrameBytes();
            var line := if short then s.delayedRef + Zeros(n) else s.delayedRef;
            var least := Half(|s.delayedRef| - n);
            && |line| >= n
            && ProcessFrame(s) == s.(
                 echo := s.echo[n..], echoStarted := true, usingZeroes := short,
                 delayedRef := line[n..], ref := if short then s.ref else s.ref[n..],
                 minRef := if least < s.minRef || s.minRef == -1 then least else s.minRef,
                 log := s.log.(
                   pushed := s.log.pushed + if short then [Silence(n, s.ref)] else [],
                   played := s.log.played + [if short then Silence(n, s.ref) else Voice(s.ref[..n])],
                   cleaned := s.log.cleaned + [Cancelled(line[..n], s.echo[..n], n)],
                   window := s.log.window + [Frame(short, |s.ref|)]))
  {
    assert s.log.pushed + [] == s.log.pushed;
  }

  lemma FrameEcho(s: Aec)
    requires !s.fatal && |s.echo| >= s.FrameBytes() && EchoKept(s)
    requires s.nominal >= 0 && |s.delayedRef| == |s.ref| + 2 * s.nominal
    ensures EchoKept(ProcessFrame(s))
  {
    FrameEffect(s);
    TakeFrame(s.log.cleaned, ProcessFrame(s).log.cleaned[|s.log.cleaned|].far, s.echo, s.FrameBytes());
  }

  /** Moving a frame from the echo queue to the canceller keeps the echo stream whole. */
  lemma TakeFrame(cs: seq<Clean>, far: Block, echo: Block, n: nat)
    requires |far| == n <= |echo|
    ensures var cs' := cs + [Cancelled(far, echo[..n], n)];
            && Near(cs') + echo[n..] == Near(cs) + echo
            && |Near(cs')| == |Near(cs)| + n && |Far(cs')| == |Far(cs)| + n
            && CleanBytes(cs') == CleanBytes(cs) + n
  {
    CleanSnoc(cs, Cancelled(far, echo[..n], n));
    assert echo == echo[..n] + echo[n..];
  }

  lemma FrameWindow(s: Aec)
    requires !s.fatal && |s.echo| >= s.FrameBytes() && WindowTracked(s)
    requires s.nominal >= 0 && |s.delayedRef| == |s.ref| + 2 * s.nominal
    ensures WindowTracked(ProcessFrame(s))
  {
    FrameEffect(s);
    var f := Frame(|s.ref| < s.FrameBytes(), |s.ref|);
    if s.nominal >= s.framesize { LeastSnoc(s.minRef, s.log.window, f, s.nominal, s.framesize); }
  }

  lemma FrameSynchronises(s: Aec)
    requires !s.fatal && |s.echo| >= s.FrameBytes() > 0
    requires s.nominal >= 0 && |s.delayedRef| == |s.ref| + 2 * s.nominal
    ensures Synchronised(ProcessFrame(s))
  {
    FrameEffect(s);
    CleanSnoc(s.log.cleaned, ProcessFrame(s).log.cleaned[|s.log.cleaned|]);
  }

  /** The stream invariants read nothing but the buffers, the delay and the stream logs. */
  lemma SameStreams(s: Aec, t: Aec)
    requires Balanced(s, 0) && EchoKept(s)
    requires t.nominal == s.nominal && t.delayedRef == s.delayedRef && t.ref == s.ref && t.echo == s.echo
    requires t.log == s.log.(clock := t.log.clock, window := t.log.window, requests := t.log.requests)
    ensures Balanced(t, 0) && EchoKept(t)
  {
  }

  lemma FrameKeeps(s: Aec)
    requires Core(s) && s.phase == Running && Session(s) && |s.echo| >= s.FrameBytes()
    ensures Core(ProcessFrame(s)) && ProcessFrame(s).phase == Running && Session(ProcessFrame(s))
  {
    var t := ProcessFrame(s);
    assert Session(t) by {
      FrameBalanced(s);
      FrameEcho(s);
      FrameWindow(s);
      FrameSynchronises(s);
    }
    FrameEffect(s);
    SameCore(s, t);
  }

  lemma SameCore(s: Aec, t: Aec)
    requires Core(s) && s.phase == Running && !t.fatal
    requires t.samplerate == s.samplerate && t.framesize == s.framesize && t.phase == s.phase
    requires t.flowControlTime == s.flowControlTime
    requires t.log.requests == s.log.requests && t.log.clock == s.log.clock
    ensures Core(t)
  {
  }

  lemma {:induction false} DrainKeeps(s: Aec)
    requires Core(s) && s.phase == Running && Session(s)
    ensures var t := Drain(s); Inv(t) && t.phase == Running
    decreases |s.echo|
  {
    if |s.echo| >= s.FrameBytes() {
      FrameKeeps(s);
      DrainKeeps(ProcessFrame(s));
    }
  }

  lemma CheckPaced(s: Aec, now: nat)
    requires Paced(s) && s.phase == Running && s.log.clock == now
    ensures Paced(CheckFlow(s, now))
  {
    var t := CheckFlow(s, now);
    var k := |s.log.requests|;
    if |t.log.requests| > k {
      assert t.log.requests[..k] == s.log.requests;
      assert now >= s.flowControlTime + FLOW_CONTROL_INTERVAL_MS;
      assert forall i :: 0 <= i < k ==> t.log.requests[i] == s.log.requests[i];
    }
  }

  lemma CheckJustified(s: Aec, now: nat)
    requires WindowTracked(s) && Justified(s.log.requests)
    ensures Justified(CheckFlow(s, now).log.requests)
  {
    if s.nominal >= s.framesize { PurgeDecision(s, now); }
  }

  lemma CheckKeeps(s: Aec, now: nat)
    requires Inv(s) && s.phase == Running && s.log.clock == now
    ensures Inv(CheckFlow(s, now)) && CheckFlow(s, now).phase == Running
  {
    CheckPaced(s, now);
    CheckJustified(s, now);
    SameStreams(s, CheckFlow(s, now));
  }

  lemma BypassKeeps(s: Aec, in0: seq<RefBlock>, in1: seq<Block>)
    requires Inv(s)
    ensures Inv(PassBoth(s, in0, in1))
  {
    var t := PassBoth(s, in0, in1);
    var ps := seq(|in0|, i requires 0 <= i < |in0| => Through(in0[i].arrived));
    var cs := seq(|in1|, i requires 0 <= i < |in1| => Forwarded(in1[i]));
    ThroughAddsNothing(s.log.played, ps);
    ForwardedAddsNothing(s.log.cleaned, cs);
    if s.phase == Running {
      assert CleanSilences(t.log.played) <==> CleanSilences(s.log.played) by {
        assert forall i :: 0 <= i < |s.log.played| ==> t.log.played[i] == s.log.played[i];
      }
      assert Balanced(t, 0);
    }
  }

  lemma AcceptKeeps(s: Aec, in0: seq<RefBlock>)
    requires Core(s) && s.phase == Running && Session(s) && s.echoStarted
    ensures var t := Accept(s, in0);
            Core(t) && t.phase == Running && Session(t) && t.log.clock == s.log.clock
  {
    AcceptBalanced(s, in0);
    AcceptKeepsFrame(s, in0);
  }

  lemma PutEchoKeeps(s: Aec, in1: seq<Block>)
    requires Core(s) && s.phase == Running && Session(s)
    ensures var t := PutEcho(s, in1);
            Core(t) && t.phase == Running && Session(t) && t.log.clock == s.log.clock
  {
    hide Sound, Speech, SilentBytes, Far, Near, CleanBytes, CleanSilences, Flatten, IsLeast;
    var t := PutEcho(s, in1);
    assert Balanced(t, 0);
    assert Near(t.log.cleaned) + t.echo == (Near(s.log.cleaned) + s.echo) + Flatten(in1);
  }

  lemma TickKeeps(s: Aec, now: nat)
    requires Inv(s) && s.log.clock <= now
    ensures Inv(Tick(s, now))
  {
    if s.phase == Running { SameStreams(s, Tick(s, now)); }
  }

  lemma ProcessKeeps(s: Aec, in0: Option<seq<RefBlock>>, in1: seq<Block>, now: nat)
    requires Inv(s) && Legal(s, Ticked(in0, in1, now))
    ensures Inv(Process(s, in0, in1, now))
  {
    var s0 := Tick(s, now);
    TickKeeps(s, now);
    if s.bypass {
      BypassKeeps(s0, in0.value, in1);
    } else {
      var s1 := if in0.Some? && s.echoStarted then Accept(s0, in0.value) else s0;
      if in0.Some? && s.echoStarted { AcceptKeeps(s0, in0.value); }
      PutEchoKeeps(s1, in1);
      var s2 := PutEcho(s1, in1);
      DrainKeeps(s2);
      DrainClock(s2);
      CheckKeeps(Drain(s2), now);
    }
  }

  lemma {:induction false} DrainClock(s: Aec)
    requires s.framesize > 0
    ensures Drain(s).log.clock == s.log.clock
    decreases |s.echo|
  {
    if !s.fatal && |s.echo| >= s.FrameBytes() {
      DrainClock(ProcessFrame(s));
    }
  }

  lemma StartKeeps(s: Aec, ok: bool, now: nat)
    requires Inv(s) && Legal(s, Start(ok, now))
    ensures Inv(Preprocess(s, ok, now))
  {
    var t := Preprocess(s, ok, now);
    if ok {
      var d := 2 * t.nominal;
      ChunkSnoc([], Silence(d, []));
      assert [] + [Silence(d, [])] == [Silence(d, [])];
      assert t.delayedRef == Zeros(d) && Far([]) + t.delayedRef == Zeros(d);
      assert Zeros(d) + Sound([]) + t.ref == Zeros(d);
      assert Balanced(t, 0);
    }
  }

  lemma StepKeeps(s: Aec, e: Event)
    requires Inv(s) && Legal(s, e)
    ensures Inv(Step(s, e))
  {
    hide Process, Preprocess;
    match e {
      case Start(ok, now) => StartKeeps(s, ok, now);
      case Ticked(in0, in1, time) => ProcessKeeps(s, in0, in1, time);
      case Stop => StopKeeps(s);
      case Rate(rate) => SetterKeeps(s, Step(s, e));
      case Delay(ms) => SetterKeeps(s, Step(s, e));
      case Bypass(on) => SetterKeeps(s, Step(s, e));
    }
  }

  lemma StopKeeps(s: Aec)
    requires Inv(s)
    ensures Inv(Postprocess(s))
  {
  }

  /** Nothing the invariant speaks of depends on the configured delay, the bypass switch, or
      which supported rate is set. */
  lemma SetterKeeps(s: Aec, t: Aec)
    requires Inv(s)
    requires t == s.(samplerate := t.samplerate, delayMs := t.delayMs, bypass := t.bypass)
    requires t.samplerate == 8000 || t.samplerate == 16000
    ensures Inv(t)
  {
    if s.phase == Running { SameStreams(s, t); }
  }

  /** Every reachable state satisfies the invariant. */
  lemma {:induction false} Reachable(s: Aec, es: seq<Event>)
    requires Initial(s) && Run(s, es).Some?
    ensures Inv(Run(s, es).value)
  {
    if es != [] {
      Reachable(s, es[..|es| - 1]);
      StepKeeps(Run(s, es[..|es| - 1]).value, es[|es| - 1]);
    }
  }
}
