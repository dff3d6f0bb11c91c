/** The iLBC decoder filter: mode inference, de-packetising, concealment accounting. */
module IlbcDecoder {
  import opened Streams
  import opened Reframing
  import opened IlbcEncoder

  /** What the filter asks of the codec. */
  datatype Call = InitDecode(ms: nat) | Decode(frame: Block) | Conceal

  /** The filter's fields, and logs: calls to the codec, accepted payload bytes, samples put
      out, milliseconds reported to the concealer, and packets reported as bad. */
  datatype DecState = DecState(config: Config, ready: bool, calls: seq<Call>,
                               accepted: Block, emitted: nat, reported: nat, bad: nat)

  const UNKNOWN := Config(0, 0, 0)
  const FRESH_DECODER := DecState(UNKNOWN, false, [], [], 0, 0, 0)

  predicate Known(c: Config) { c == UNKNOWN || c == MODE20 || c == MODE30 }

  predicate Acceptable(n: nat) { n != 0 && (n % 38 == 0 || n % 50 == 0) }

  /** The mode the decoder is in after looking at a payload's length. */
  function ModeFor(c: Config, n: nat): Config {
    if n % 38 == 0 && c.nbytes != NO_OF_BYTES_20MS then MODE20
    else if n % 50 == 0 && c.nbytes != NO_OF_BYTES_30MS then MODE30
    else c
  }

  function SelectMode(s: DecState, n: nat): DecState {
    var c := ModeFor(s.config, n);
    if c == s.config then s else s.(config := c, ready := true, calls := s.calls + [InitDecode(c.msPerFrame)])
  }

  function DecodeCalls(frames: seq<Block>): (calls: seq<Call>)
    ensures |calls| == |frames|
  {
    seq(|frames|, i requires 0 <= i < |frames| => Decode(frames[i]))
  }

  /** One received packet; `plc` says whether the filter has a concealer. */
  function DecodePacket(s: DecState, p: Block, plc: bool): DecState {
    if !Acceptable(|p|) then s
    else
      var t := SelectMode(s, |p|);
      if t.config.nbytes > 0 && |p| >= t.config.nbytes then
        var frames := Slices(p, t.config.nbytes, 0);
        t.(calls := t.calls + DecodeCalls(frames), accepted := t.accepted + p,
           emitted := t.emitted + |frames| * t.config.nsamples,
           reported := t.reported + if plc then |frames| * t.config.msPerFrame else 0)
      else t.(bad := t.bad + 1)
  }

  function DecodePackets(s: DecState, ps: seq<Block>, plc: bool): DecState {
    if ps == [] then s else DecodePacket(DecodePackets(s, ps[..|ps| - 1], plc), ps[|ps| - 1], plc)
  }

  /** `required` is the concealer's answer to whether a frame is missing by now. */
  function ConcealIfRequired(s: DecState, plc: bool, required: bool): DecState {
    if plc && s.ready && required then
      s.(calls := s.calls + [Conceal], emitted := s.emitted + s.config.nsamples,
         reported := s.reported + s.config.msPerFrame)
    else s
  }

  function DecProcess(s: DecState, ps: seq<Block>, plc: bool, required: bool): DecState {
    ConcealIfRequired(DecodePackets(s, ps, plc), plc, required)
  }

  /** A process call: the packets queued and the concealer's answer. */
  datatype DecTick = DecTick(packets: seq<Block>, required: bool)

  function DecRun(ticks: seq<DecTick>, plc: bool): DecState {
    if ticks == [] then FRESH_DECODER
    else DecProcess(DecRun(ticks[..|ticks| - 1], plc), ticks[|ticks| - 1].packets, plc, ticks[|ticks| - 1].required)
  }

  /** All packets of a run, in order. */
  function Received(ticks: seq<DecTick>): seq<Block> {
    if ticks == [] then [] else Received(ticks[..|ticks| - 1]) + ticks[|ticks| - 1].packets
  }
}
