/** The two iLBC filters, field by field and loop by loop, proved against `IlbcEncoder` and
    `IlbcDecoder`. */
module IlbcFilters {
  import opened Streams
  import opened Reframing
  import opened IlbcEncoder
  import opened IlbcDecoder
  import Theorems = IlbcEncoderTheorems
  import opened IlbcDecoderTheorems

  lemma {:induction false} SliceAt(b: Block, n: nat, k: nat)
    requires n > 0 && k < |Slices(b, n, 0)|
    ensures n * k + n <= |b| && Slices(b, n, 0)[k] == b[n * k..n * k + n]
    decreases k
  {
    if k > 0 {
      var at := n * (k - 1);
      SliceAt(b[n..], n, k - 1);
      assert n * k == n + at;
      assert b[n..][at..at + n] == b[n + at..n + at + n];
    }
  }

  class IlbcEncoderFilter {
    var nsamples: nat
    var nbytes: nat
    var msPerFrame: nat
    var ptime: int
    var ts: nat
    const bufferizer: Bufferizer
    /** The codec instance: the mode it was initialised for and the frames it was given since. */
    var codecMs: nat
    var history: seq<Block>
    var output: seq<Packet>

    ghost var input: Block
    ghost var frames: seq<Block>
    ghost var coded: seq<Block>

    ghost function Abstract(): State
      reads this, bufferizer
    {
      State(Config(nsamples, nbytes, msPerFrame), ptime, ts, bufferizer.bytes, codecMs,
            if |history| <= |frames| then |frames| - |history| else 0, input, frames, coded, output)
    }

    ghost predicate Consistent()
      reads this, bufferizer
    {
      Theorems.Configured(Abstract()) && |history| <= |frames| && history == frames[|frames| - |history|..]
    }

    /** The filter's invariant over every run. */
    ghost predicate Valid()
      reads this, bufferizer
    {
      Consistent() && Theorems.Inv(Abstract())
    }

    constructor (use20ms: bool)
      ensures Valid() && Abstract() == Init(use20ms) && fresh(bufferizer)
    {
      if use20ms {
        nsamples, nbytes, msPerFrame := BLOCKL_20MS, NO_OF_BYTES_20MS, 20;
      } else {
        nsamples, nbytes, msPerFrame := BLOCKL_30MS, NO_OF_BYTES_30MS, 30;
      }
      ptime, ts, codecMs, history, output := 0, 0, 0, [], [];
      input, frames, coded := [], [], [];
      bufferizer := new Bufferizer();
    }

    method Preprocess()
      requires Valid()
      modifies this
      ensures Valid() && Abstract() == IlbcEncoder.Preprocess(old(Abstract()))
    {
      codecMs := msPerFrame;
      history := [];
    }

    method AddFmtp(mode: Option<string>, ptimeText: Option<string>)
      requires Valid()
      modifies this
      ensures Valid() && Abstract() == IlbcEncoder.AddFmtp(old(Abstract()), mode, ptimeText)
    {
      Theorems.FmtpKeeps(Abstract(), mode, ptimeText);
      hide Theorems.Inv;
      ApplyFmtp(mode, ptimeText);
    }

    method ApplyFmtp(mode: Option<string>, ptimeText: Option<string>)
      requires Consistent()
      modifies this
      ensures Consistent() && Abstract() == IlbcEncoder.AddFmtp(old(Abstract()), mode, ptimeText)
    {
      hide Contains, Atoi;
      if mode.Some? {
        if mode.value == "" { return; }
        if Contains(mode.value, "20") {
          nsamples, nbytes, msPerFrame := BLOCKL_20MS, NO_OF_BYTES_20MS, 20;
        } else if Contains(mode.value, "30") {
          nsamples, nbytes, msPerFrame := BLOCKL_30MS, NO_OF_BYTES_30MS, 30;
        }
      }
      if ptimeText.Some? {
        if ptimeText.value == "" { return; }
        var p := Atoi(ptimeText.value);
        if p >= 20 && p <= 140 {
          ptime := p;
        }
      }
    }

    method AddAttr(attr: string)
      requires Valid()
      modifies this`ptime
      ensures Valid() && Abstract() == IlbcEncoder.AddAttr(old(Abstract()), attr)
    {
      hide Contains;
      Theorems.AttrKeeps(Abstract(), attr);
      hide Theorems.Inv;
      if Contains(attr, "ptime:20") {
        ptime := 20;
      } else if Contains(attr, "ptime:30") {
        ptime := 30;
      } else if Contains(attr, "ptime:40") {
        ptime := 40;
      } else if Contains(attr, "ptime:60") {
        ptime := 60;
      } else if Contains(attr, "ptime:80") {
        ptime := 80;
      } else if Contains(attr, "ptime:90") {
        ptime := 90;
      } else if Contains(attr, "ptime:100") {
        ptime := 100;
      } else if Contains(attr, "ptime:120") {
        ptime := 120;
      } else if Contains(attr, "ptime:140") {
        ptime := 140;
      }
    }

    /** Copies one frame of the packet's samples, two bytes a sample; `offset` is in samples. */
    static method CopyFrame(samples: array<byte>, samples2: array<byte>, nsamples: nat, offset: nat)
      requires samples != samples2 && 2 * nsamples <= samples2.Length
      requires 2 * offset + 2 * nsamples <= samples.Length
      modifies samples2
      ensures samples2[..2 * nsamples] == samples[2 * offset..2 * offset + 2 * nsamples]
    {
      var i := 0;
      while i < nsamples
        invariant 0 <= i <= nsamples
        invariant forall j :: 0 <= j < 2 * i ==> samples2[j] == samples[2 * offset + j]
      {
        samples2[2 * i] := samples[2 * (i + offset)];
        samples2[2 * i + 1] := samples[2 * (i + offset) + 1];
        i := i + 1;
      }
    }

    /** Loads the i-th frame of the packet. */
    static method LoadFrame(samples: array<byte>, samples2: array<byte>, nsamples: nat, i: nat, ghost data: Block)
      requires samples != samples2 && 0 < 2 * nsamples <= samples2.Length
      requires |data| <= samples.Length && samples[..|data|] == data && i < |Slices(data, 2 * nsamples, 0)|
      modifies samples2
      ensures samples2[..2 * nsamples] == Slices(data, 2 * nsamples, 0)[i]
    {
      hide Slices;
      SliceAt(data, 2 * nsamples, i);
      var offset := nsamples * i;
      ghost var at := 2 * offset;
      assert 2 * nsamples * i == at;
      PartOfPrefix(samples[..], data, at, at + 2 * nsamples);
      CopyFrame(samples, samples2, nsamples, offset);
    }

    static lemma PartOfPrefix(whole: Block, prefix: Block, lo: nat, hi: nat)
      requires |prefix| <= |whole| && whole[..|prefix|] == prefix && lo <= hi <= |prefix|
      ensures whole[lo..hi] == prefix[lo..hi]
    {
      assert forall i :: 0 <= i < |prefix| ==> whole[..|prefix|][i] == whole[i];
    }

    /** Feeds the packet's frames to the codec, one after the other. */
    method EncodeFrames(samples: array<byte>, k: nat, coder: Coder, ghost data: Block)
      returns (payload: Block, ghost codes: seq<Block>)
      requires 0 < 2 * nsamples <= 2 * BLOCKL_MAX
      requires |data| == 2 * nsamples * k && |data| <= samples.Length && samples[..|data|] == data
      modifies this`history
      ensures var slices := Slices(data, 2 * nsamples, 0);
              && history == old(history) + slices
              && codes == Codes(coder, nbytes, old(history), slices) && payload == Flatten(codes)
    {
      hide Slices, Codes, Flatten;
      ghost var n, slices := 2 * nsamples, Slices(data, 2 * nsamples, 0);
      SlicesExact(data, n, k);
      var samples2 := new byte[2 * BLOCKL_MAX];
      payload, codes := [], [];
      NoFrames(coder, nbytes, history);
      var i := 0;
      while i < k
        invariant 0 <= i <= k && samples[..|data|] == data
        invariant history == old(history) + slices[..i]
        invariant codes == Codes(coder, nbytes, old(history), slices[..i]) && payload == Flatten(codes)
      {
        LoadFrame(samples, samples2, nsamples, i, data);
        history := history + [samples2[..2 * nsamples]];
        var code := coder(nbytes, history);
        CodesSnoc(coder, nbytes, old(history), slices, i);
        FlattenSnoc(codes, code);
        payload := payload + code;
        codes := codes + [code];
        assert slices[..i + 1] == slices[..i] + [slices[i]];
        i := i + 1;
      }
      assert slices[..k] == slices;
    }

    static lemma NoFrames(coder: Coder, nbytes: nat, h: seq<Block>)
      ensures Codes(coder, nbytes, h, []) == [] && Flatten<byte>([]) == []
    {
    }

    /** One packet: encodes the frames in `samples` and stamps the result. */
    method EncodeOnePacket(samples: array<byte>, k: nat, coder: Coder, ghost data: Block)
      requires Consistent() && k == PacketFrames(Abstract())
      requires |data| == PacketBytes(Abstract()) && |data| <= samples.Length && samples[..|data|] == data
      modifies this
      ensures Consistent()
      ensures var s := old(Abstract());
              Abstract() == EncodePacket(s.(buffer := data + s.buffer), coder)
    {
      hide FramesPerPacket, Slices, Codes, Flatten;
      ghost var s := Abstract();
      ghost var slices := Slices(data, 2 * nsamples, 0);
      ghost var codes;
      var payload;
      payload, codes := EncodeFrames(samples, k, coder, data);
      ts := (ts + nsamples * k) % 0x1_0000_0000;
      output := output + [Packet(ts, payload, nsamples * k)];
      assert frames + slices == frames[..|frames| - |s.frames[s.codecStart..]|] + history;
      frames := frames + slices;
      coded := coded + codes;
      assert (data + s.buffer)[..|data|] == data && (data + s.buffer)[|data|..] == s.buffer;
    }

    static lemma CodesSnoc(coder: Coder, nbytes: nat, h: seq<Block>, slices: seq<Block>, i: nat)
      requires i < |slices|
      ensures Codes(coder, nbytes, h, slices[..i + 1])
           == Codes(coder, nbytes, h, slices[..i]) + [coder(nbytes, h + slices[..i] + [slices[i]])]
    {
      assert slices[..i + 1][..i] == slices[..i] && slices[..i + 1] == slices[..i] + [slices[i]];
      assert h + slices[..i + 1] == h + slices[..i] + [slices[i]];
    }

    method FramePerPacket() returns (k: nat)
      ensures k == PacketFrames(Abstract())
    {
      k := 1;
      if ptime >= 20 && msPerFrame > 0 && ptime % msPerFrame == 0 {
        k := ptime / msPerFrame;
      }
      if k <= 0 {
        k := 1;
      }
      if k > 7 {
        k := 7;
      }
    }

    method Process(blocks: seq<Block>, coder: Coder)
      requires Valid() && Sized(coder) && Legal(Abstract(), Tick(blocks))
      modifies this, bufferizer
      ensures Valid() && Abstract() == IlbcEncoder.Process(old(Abstract()), blocks, coder)
    {
      Theorems.StepKeeps(Abstract(), Tick(blocks), coder);
      hide FramesPerPacket, Theorems.Inv;
      var size := nsamples * 2;
      var samples := new byte[2 * SAMPLES_SIZE];
      var framePerPacket := FramePerPacket();
      bufferizer.PutFromQueue(blocks);
      input := input + Flatten(blocks);
      DrainBuffer(size * framePerPacket, framePerPacket, samples, coder);
    }

    /** Encodes packets for as long as the buffer holds one. */
    method DrainBuffer(bytes: nat, framePerPacket: nat, samples: array<byte>, coder: Coder)
      requires Consistent() && framePerPacket == PacketFrames(Abstract()) && bytes == PacketBytes(Abstract())
      requires samples.Length == 2 * SAMPLES_SIZE
      modifies this, bufferizer, samples
      ensures Consistent() && Abstract() == Drain(old(Abstract()), coder)
    {
      hide FramesPerPacket, EncodePacket;
      Theorems.PacketFits(Abstract());
      var more := true;
      while more
        invariant Consistent() && framePerPacket == PacketFrames(Abstract()) && bytes == PacketBytes(Abstract()) > 0
        invariant bytes <= samples.Length && (!more ==> |bufferizer.bytes| < bytes)
        invariant Drain(Abstract(), coder) == Drain(old(Abstract()), coder)
        decreases |bufferizer.bytes|, more
      {
        more := ReadAndEncode(bytes, framePerPacket, samples, coder);
      }
    }

    /** Reads one packet's worth of samples and encodes it; false when there is not enough. */
    method ReadAndEncode(bytes: nat, framePerPacket: nat, samples: array<byte>, coder: Coder) returns (read: bool)
      requires Consistent() && framePerPacket == PacketFrames(Abstract()) && bytes == PacketBytes(Abstract()) > 0
      requires bytes <= samples.Length
      modifies this, bufferizer, samples
      ensures Consistent() && read == (|old(Abstract()).buffer| >= bytes)
      ensures Abstract() == if read then EncodePacket(old(Abstract()), coder) else old(Abstract())
      ensures Abstract().config == old(Abstract()).config && ptime == old(ptime)
      ensures read ==> |bufferizer.bytes| == |old(bufferizer.bytes)| - bytes
    {
      hide FramesPerPacket, Slices, Codes;
      ghost var before := Abstract();
      var got, data := bufferizer.Read(bytes);
      read := got == bytes;
      if read {
        forall i | 0 <= i < |data| { samples[i] := data[i]; }
        ghost var s := Abstract();
        assert s == before.(buffer := before.buffer[bytes..]);
        assert s.(buffer := data + s.buffer) == before by { assert before.buffer == data + s.buffer; }
        assert samples[..|data|] == data;
        EncodeOnePacket(samples, framePerPacket, coder, data);
      }
    }
  }

  class IlbcDecoderFilter {
    var nsamples: nat
    var nbytes: nat
    var msPerFrame: nat
    var ready: bool
    /** Whether a concealer could be created. */
    const plc: bool
    /** Calls made to the codec instance. */
    var calls: seq<Call>
    /** Blocks put on the output, by their length in samples; and milliseconds reported to the
        concealer. */
    var output: seq<nat>
    var reported: nat

    ghost var accepted: Block
    ghost var bad: nat

    /** Samples in a queue of output blocks. */
    static function Total(blocks: seq<nat>): nat {
      if blocks == [] then 0 else Total(blocks[..|blocks| - 1]) + blocks[|blocks| - 1]
    }

    static lemma TotalSnoc(blocks: seq<nat>, n: nat)
      ensures Total(blocks + [n]) == Total(blocks) + n
    {
      assert (blocks + [n])[..|blocks|] == blocks;
    }

    ghost function Abstract(): DecState
      reads this
    {
      DecState(Config(nsamples, nbytes, msPerFrame), ready, calls, accepted, Total(output), reported, bad)
    }

    ghost predicate Valid()
      reads this
    {
      DecInv(Abstract(), plc)
    }

    constructor (plc: bool)
      ensures Valid() && Abstract() == FRESH_DECODER && this.plc == plc
    {
      nsamples, nbytes, msPerFrame, ready := 0, 0, 0, false;
      calls, output, reported, accepted, bad := [], [], 0, [], 0;
      this.plc := plc;
    }

    method Process(packets: seq<Block>, required: bool)
      requires Valid()
      modifies this
      ensures Valid() && Abstract() == DecProcess(old(Abstract()), packets, plc, required)
    {
      PacketsInv(Abstract(), packets, plc);
      ConcealInv(DecodePackets(Abstract(), packets, plc), plc, required);
      assert Known(Abstract().config);
      hide DecInv, DecodePacket, Total;
      var i := 0;
      while i < |packets|
        invariant 0 <= i <= |packets| && Known(Abstract().config)
        invariant Abstract() == DecodePackets(old(Abstract()), packets[..i], plc)
      {
        assert packets[..i + 1][..i] == packets[..i];
        OnePacket(packets[i]);
        i := i + 1;
      }
      assert packets[..i] == packets;
      if plc && ready && required {
        calls := calls + [Conceal];
        TotalSnoc(output, nsamples);
        output := output + [nsamples];
        reported := reported + msPerFrame;
      }
    }

    method OnePacket(im: Block)
      requires Known(Abstract().config)
      modifies this
      ensures Known(Abstract().config) && Abstract() == DecodePacket(old(Abstract()), im, plc)
    {
      hide Slices, DecodeCalls, Total;
      if |im| == 0 || (|im| % 38 != 0 && |im| % 50 != 0) {
        return;
      }
      SelectModeFor(|im|);
      if nbytes > 0 && |im| >= nbytes {
        DecodeFrames(im);
      } else {
        bad := bad + 1;
      }
    }

    method SelectModeFor(length: nat)
      requires Known(Abstract().config)
      modifies this
      ensures Known(Abstract().config) && Abstract() == SelectMode(old(Abstract()), length)
    {
      if length % 38 == 0 && nbytes != NO_OF_BYTES_20MS {
        msPerFrame, nbytes, nsamples, ready := 20, NO_OF_BYTES_20MS, BLOCKL_20MS, true;
        calls := calls + [InitDecode(msPerFrame)];
      } else if length % 50 == 0 && nbytes != NO_OF_BYTES_30MS {
        msPerFrame, nbytes, nsamples, ready := 30, NO_OF_BYTES_30MS, BLOCKL_30MS, true;
        calls := calls + [InitDecode(msPerFrame)];
      }
    }

    static lemma NoCalls()
      ensures DecodeCalls([]) == []
    {
    }

    method DecodeFrames(im: Block)
      requires nbytes > 0
      modifies this
      ensures var s := old(Abstract());
              var frames := Slices(im, s.config.nbytes, 0);
              Abstract() == s.(calls := s.calls + DecodeCalls(frames), accepted := s.accepted + im,
                               emitted := s.emitted + |frames| * s.config.nsamples,
                               reported := s.reported + if plc then |frames| * s.config.msPerFrame else 0)
    {
      hide Slices, Total, DecodeCalls;
      ghost var frames := Slices(im, nbytes, 0);
      NoCalls();
      var framePerPacket := |im| / nbytes;
      SliceCount(im, nbytes);
      var k := 0;
      while k < framePerPacket
        invariant 0 <= k <= framePerPacket && nbytes == old(nbytes)
        invariant calls == old(calls) + DecodeCalls(frames[..k])
        invariant Total(output) == Total(old(output)) + k * nsamples
        modifies this`calls, this`output
      {
        SliceAt(im, nbytes, k);
        assert nbytes * k == k * nbytes;
        calls := calls + [Decode(im[k * nbytes..k * nbytes + nbytes])];
        assert frames[..k + 1] == frames[..k] + [frames[k]];
        DecodeCallsSnoc(frames[..k], frames[k]);
        TotalSnoc(output, nsamples);
        output := output + [nsamples];
        k := k + 1;
      }
      assert frames[..k] == frames;
      if plc {
        reported := reported + framePerPacket * msPerFrame;
      }
      accepted := accepted + im;
    }
  }

  /** The division in the loop bound counts exactly the whole slices. */
  lemma SliceCount(b: Block, n: nat)
    requires n > 0
    ensures |Slices(b, n, 0)| == |b| / n
  {
    hide Slices;
    SlicesPartition(b, n, 0);
    QuotientIs(|b|, n, |Slices(b, n, 0)|, |Residue(b, n, 0)|);
  }

  lemma QuotientIs(a: nat, n: nat, q: nat, r: nat)
    requires n > 0 && r < n && a == q * n + r
    ensures a / n == q
  {
    var d := a / n - q;
    assert a == a / n * n + a % n;
    assert d * n == r - a % n;
    assert d >= 1 ==> d * n >= n;
    assert d <= -1 ==> d * n + n <= 0;
  }
}
