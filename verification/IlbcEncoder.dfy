/** The iLBC encoder filter: configuration, packetising, timestamps. */
module IlbcEncoder {
  import opened Streams
  import opened Reframing

  // Frame sizes of section 3.8 of RFC 3951, in samples and bytes.
  const BLOCKL_20MS := 160
  const BLOCKL_30MS := 240
  const NO_OF_BYTES_20MS := 38
  const NO_OF_BYTES_30MS := 50
  /** Samples the stack buffer of one packet can hold. */
  const SAMPLES_SIZE := 1610
  const BLOCKL_MAX := 240

  datatype Config = Config(nsamples: nat, nbytes: nat, msPerFrame: nat)

  const MODE20 := Config(BLOCKL_20MS, NO_OF_BYTES_20MS, 20)
  const MODE30 := Config(BLOCKL_30MS, NO_OF_BYTES_30MS, 30)

  datatype Packet = Packet(timestamp: nat, payload: Block, samples: nat)

  /** What the codec writes for its newest input frame depends on its mode, given by the frame
      size, and on every frame since it was initialised. */
  type Coder = (nat, seq<Block>) -> Block

  ghost predicate Sized(coder: Coder) { forall nbytes: nat, h: seq<Block> :: |coder(nbytes, h)| == nbytes }

  /** The filter's fields, the codec's instance (its mode and the frames since it was
      initialised are `frames[codecStart..]`), and logs of input, frames, and output. */
  datatype State = State(config: Config, ptime: int, ts: nat, buffer: Block, codecMs: nat, codecStart: nat,
                         input: Block, frames: seq<Block>, coded: seq<Block>, packets: seq<Packet>)

  function Init(use20ms: bool): State {
    State(if use20ms then MODE20 else MODE30, 0, 0, [], 0, 0, [], [], [], [])
  }

  // ---------- configuration ----------

  /** C's strstr: does the text occur? */
  predicate Contains(s: string, part: string) { part <= s || (s != [] && Contains(s[1..], part)) }

  predicate IsSpace(c: char) { c == ' ' || '\t' <= c <= '\r' }

  function Digits(s: string, acc: nat): nat {
    if s == [] || !('0' <= s[0] <= '9') then acc else Digits(s[1..], acc * 10 + (s[0] - '0') as int)
  }

  /** C's atoi. */
  function Atoi(s: string): int {
    if s == [] then 0
    else if IsSpace(s[0]) then Atoi(s[1..])
    else if s[0] == '-' then 0 as int - Digits(s[1..], 0)
    else if s[0] == '+' then Digits(s[1..], 0)
    else Digits(s, 0)
  }

  /** `mode` and `ptime` are what the parameter string gives for them, if anything. */
  function AddFmtp(s: State, mode: Option<string>, ptime: Option<string>): State {
    if mode == Some("") then s
    else
      var s1 := if mode.None? then s
                else if Contains(mode.value, "20") then s.(config := MODE20)
                else if Contains(mode.value, "30") then s.(config := MODE30)
                else s;
      if ptime.None? || ptime == Some("") then s1
      else if 20 <= Atoi(ptime.value) <= 140 then s1.(ptime := Atoi(ptime.value))
      else s1
  }

  function AddAttr(s: State, attr: string): State {
    if Contains(attr, "ptime:20") then s.(ptime := 20)
    else if Contains(attr, "ptime:30") then s.(ptime := 30)
    else if Contains(attr, "ptime:40") then s.(ptime := 40)
    else if Contains(attr, "ptime:60") then s.(ptime := 60)
    else if Contains(attr, "ptime:80") then s.(ptime := 80)
    else if Contains(attr, "ptime:90") then s.(ptime := 90)
    else if Contains(attr, "ptime:100") then s.(ptime := 100)
    else if Contains(attr, "ptime:120") then s.(ptime := 120)
    else if Contains(attr, "ptime:140") then s.(ptime := 140)
    else s
  }

  function FramesPerPacket(ptime: int, ms: nat): (k: nat)
    ensures 1 <= k <= 7
  {
    var k := if ptime >= 20 && ms > 0 && ptime % ms == 0 then ptime / ms else 1;
    if k <= 0 then 1 else if k > 7 then 7 else k
  }

  // ---------- encoding ----------

  function Preprocess(s: State): State { s.(codecMs := s.config.msPerFrame, codecStart := |s.frames|) }

  /** The codec's outputs for further frames, given the frames before them. */
  function Codes(coder: Coder, nbytes: nat, history: seq<Block>, frames: seq<Block>): (codes: seq<Block>)
    ensures |codes| == |frames|
  {
    if frames == [] then []
    else Codes(coder, nbytes, history, frames[..|frames| - 1]) + [coder(nbytes, history + frames)]
  }

  function PacketFrames(s: State): nat { FramesPerPacket(s.ptime, s.config.msPerFrame) }

  function FrameBytes(s: State): nat { 2 * s.config.nsamples }

  function PacketBytes(s: State): nat { FrameBytes(s) * PacketFrames(s) }

  predicate Ready(s: State) { s.codecStart <= |s.frames| && s.config.nsamples > 0 }

  function EncodePacket(s: State, coder: Coder): (t: State)
    requires Ready(s) && |s.buffer| >= PacketBytes(s)
    ensures Ready(t)
  {
    var frames := Slices(s.buffer[..PacketBytes(s)], FrameBytes(s), 0);
    var codes := Codes(coder, s.config.nbytes, s.frames[s.codecStart..], frames);
    var samples := s.config.nsamples * PacketFrames(s);
    var ts := (s.ts + samples) % 0x1_0000_0000;
    s.(buffer := s.buffer[PacketBytes(s)..], frames := s.frames + frames, coded := s.coded + codes,
       ts := ts, packets := s.packets + [Packet(ts, Flatten(codes), samples)])
  }

  function Drain(s: State, coder: Coder): (t: State)
    requires Ready(s)
    ensures Ready(t)
    decreases |s.buffer|
  {
    if |s.buffer| < PacketBytes(s) then s
    else
      assert PacketBytes(s) > 0 by { PacketNotEmpty(s); }
      Drain(EncodePacket(s, coder), coder)
  }

  lemma PacketNotEmpty(s: State)
    requires s.config.nsamples > 0
    ensures PacketBytes(s) > 0
  {
  }

  function Feed(s: State, b: Block): State { s.(buffer := s.buffer + b, input := s.input + b) }

  function Process(s: State, blocks: seq<Block>, coder: Coder): (t: State)
    requires Ready(s)
    ensures Ready(t)
  {
    Drain(Feed(s, Flatten(blocks)), coder)
  }

  // ---------- runs ----------

  datatype Event =
    | Fmtp(mode: Option<string>, ptime: Option<string>)
    | Attr(attr: string)
    | Start
    | Tick(blocks: seq<Block>)

  /** Ticks come with the codec initialised for the mode now configured. */
  predicate Legal(s: State, e: Event) {
    e.Tick? ==> s.codecMs == s.config.msPerFrame && Ready(s)
  }

  function Step(s: State, e: Event, coder: Coder): State
    requires Legal(s, e)
  {
    match e {
      case Fmtp(mode, ptime) => AddFmtp(s, mode, ptime)
      case Attr(attr) => AddAttr(s, attr)
      case Start => Preprocess(s)
      case Tick(blocks) => Process(s, blocks, coder)
    }
  }

  function Run(s: State, es: seq<Event>, coder: Coder): Option<State> {
    if es == [] then Some(s) else
    match Run(s, es[..|es| - 1], coder) {
      case None => None
      case Some(m) => if Legal(m, es[|es| - 1]) then Some(Step(m, es[|es| - 1], coder)) else None
    }
  }
}
