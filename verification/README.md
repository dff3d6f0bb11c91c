# Lechee native filters: a verified model

A Dafny model of the C code this repository adds to the libraries it ships: the
echo canceller's stream synchroniser, the Base64 codec and the string pipeline
around the cipher, the iLBC and iSAC packetising filters, and the bignum
normalisation macro with the predicates that depend on it.

Each filter is written twice. A specification module holds its state as a value
and its operations as functions; the theorems are about whole runs of these. A
class holds its fields and loops as the C code has them, and each method is
proved to take exactly the specified step.

| files | what they hold |
|---|---|
| `Streams`, `Reframing`, `Bits` | byte streams and the FIFO, cutting a stream into frames, C's `\|` and bit strings |
| `AecSpec`, `AecInvariant`, `AecTheorems`, `AecRuns`, `Aec` | echo canceller: state machine, step invariants, theorems over runs, what a run's events determine, the filter |
| `Base64`, `Base64Bits`, `Base64Theorems`, `Base64Codec` | tables and values, RFC 4648 on bits, round trips, the three C functions |
| `CipherStrings` | C string, padded ciphertext, Base64 text, and back |
| `IlbcEncoder`, `IlbcEncoderTheorems`, `IlbcSettings`, `IlbcEncoderHistory` | iLBC encoder: state machine, framing and timestamps, the settings in force, what the codec is given |
| `IlbcDecoder`, `IlbcDecoderTheorems`, `IlbcConcealment`, `IlbcFilters` | iLBC decoder: mode and framing, concealment and output, end to end; both filters |
| `Isac` | iSAC re-framing |
| `BigNum` | `bn_correct_top` and its predicates |

Standards: RFC 4648 (sections 3.2, 3.5, 4), RFC 3951 (section 3.8, frame
sizes), RFC 3952 (section 3, packets), RFC 5652 (section 6.3, padding).

## How the outside is represented

- `MSBufferizer` is a byte FIFO whose read is all or nothing.
- The audio flow controller is any answer, block by block: keep this block, or nothing.
- Codecs log what they are given. The iLBC encoder's output and the iSAC
  encoder's return value are arbitrary functions of everything given so far;
  the canceller's output block is a symbol holding the two frames it came from.
- The ticker's clock is a parameter that never runs backwards.
- The cipher is any length-preserving invertible map of whole 16-byte blocks,
  with the padding written out.
- The concealer's verdict and whether it exists are parameters.

## Where a promise needs a condition

Each of these is proved both ways.

- The far-end signal the canceller hears is the played signal delayed by the
  configured delay exactly when every silence was injected while `ref` held back
  nothing but zero bytes; frame-aligned blocks guarantee it.
- Purging surplus is safe in all sessions exactly when the configured delay is at
  least 10 ms. Below that a silent frame can record -1, the value that marks
  an empty window.
- The two Base64 decoders agree exactly on well-formed texts.
- The iLBC decoder tells the mode from a payload's length exactly when the length
  is not a multiple of 950; encoder packets never are.
- A string fits the encrypting side's buffers exactly up to 174 bytes.
- `BN_is_word` and `BN_is_zero` are right without normalisation exactly in the
  stated cases.

Where comment and code differ: `aes-jni.c:302` says a ciphertext is at most 15
bytes longer than the plaintext; the allocation of 16 more, on the next line, is
what is needed, and what the model uses.

## Model

| member | source | states |
|---|---|---|
| `EchoCancellation.EchoCanceller.constructor` | linlivehd/submodules/mswebrtc/aec.c:66-97 | a fresh filter satisfies the invariant, whatever the fields init leaves unset hold |
| `EchoCancellation.EchoCanceller.Preprocess` | linlivehd/submodules/mswebrtc/aec.c:113-152 | starts a session: frame size and delay from the settings, delay line filled with silence, or bypass when the canceller cannot be set up; keeps the invariant |
| `EchoCancellation.EchoCanceller.Process` | linlivehd/submodules/mswebrtc/aec.c:159-266 | one ticker call is exactly one step of the state machine, keeps the invariant, and hands the flow controller the target logged in the request |
| `EchoCancellation.EchoCanceller.ProcessFrames` | linlivehd/submodules/mswebrtc/aec.c:196-253 | the frame loop drains the echo queue |
| `EchoCancellation.EchoCanceller.AcceptReference` | linlivehd/submodules/mswebrtc/aec.c:178-185 | every block the flow controller keeps goes to both far-end buffers |
| `EchoCancellation.EchoCanceller.BypassBoth` | linlivehd/submodules/mswebrtc/aec.c:166-174 | in bypass the loops take the specified step, input 0 to output 0 and input 1 to output 1, and touch no buffer |
| `EchoCancellation.EchoCanceller.CheckBacklog` | linlivehd/submodules/mswebrtc/aec.c:256-265 | the end-of-call check, with the target given to the flow controller |
| `EchoCancellation.EchoCanceller.Postprocess` | linlivehd/submodules/mswebrtc/aec.c:268-279 | all three buffers are emptied; the invariant is kept |
| `EchoCancellation.EchoCanceller.SetSampleRate` | linlivehd/submodules/mswebrtc/aec.c:281-292 | only 8000 and 16000 are taken, others are refused with -1; mid-session it disturbs nothing |
| `EchoCancellation.EchoCanceller.SetDelay` | linlivehd/submodules/mswebrtc/aec.c:307-312 | a delay set mid-session leaves the running session alone |
| `EchoCancellation.EchoCanceller.SetBypassMode` | linlivehd/submodules/mswebrtc/aec.c:319-325 | toggling bypass keeps the invariant |
| `AecInvariant.FrameEffect` | linlivehd/submodules/mswebrtc/aec.c:196-253 | in a coupled state neither read of a frame falls short; silence is played exactly when `ref` cannot fill a frame, and the canceller gets the front of the delay line |
| `AecInvariant.SilenceCommutes` | linlivehd/submodules/mswebrtc/aec.c:202-208 | silence before a held-back residue equals silence after it exactly when the residue is silent |
| `AecInvariant.FrameBalanced` | linlivehd/submodules/mswebrtc/aec.c:202-230 | coupling, provenance and the exact form of the delay law survive every frame |
| `AecInvariant.PurgeDecision` | linlivehd/submodules/mswebrtc/aec.c:255-265 | a due check asks for a purge exactly when every frame of the window began with more than two frames of far-end signal, and the purge leaves a frame in the tightest of them |
| `AecInvariant.StepKeeps` | linlivehd/submodules/mswebrtc/aec.c:113-331 | every event, in any legal order, keeps the invariant |
| `AecInvariant.Reachable` | linlivehd/submodules/mswebrtc/aec.c:113-331 | the invariant holds after every legal run of a fresh filter |
| `AecTheorems.BufferCoupling` | linlivehd/submodules/mswebrtc/aec.c:202-230 | in every reachable session the delay line is longer than `ref` by exactly the delay, silence is due exactly when `ref` is short of a frame, and neither "should never happen" was reached |
| `AecTheorems.AcceptedStreamIsPlayed` | linlivehd/submodules/mswebrtc/aec.c:176-230 | with injected silence deleted, played plus `ref` and fed plus delay line are both the accepted stream, in order, with equal amounts of silence beyond the initial delay |
| `AecTheorems.Intake` | linlivehd/submodules/mswebrtc/aec.c:176-192 | the accepted stream grows by exactly what the flow controller kept, and only once an echo frame has been processed; the echo stream grows by everything queued |
| `AecTheorems.Conservation` | linlivehd/submodules/mswebrtc/aec.c:192-253 | bytes on output 0, output 1, far-end fed and echo fed are equal; echo is fed in order; less than a frame of echo is left |
| `AecTheorems.DelayLawExact` | linlivehd/submodules/mswebrtc/aec.c:144-149 | after every run: the canceller's far-end input is the played stream delayed by the configured delay if and only if every silence was injected over an all-zero residue |
| `AecTheorems.AlignedDelayLaw` | linlivehd/submodules/mswebrtc/aec.c:176-230 | with frame-aligned far-end blocks the exact delay law holds |
| `AecTheorems.StrayByteBreaksDelayLaw` | linlivehd/submodules/mswebrtc/aec.c:202-208 | a concrete run with one stray byte in which the delay law fails |
| `AecTheorems.RateLimit` | linlivehd/submodules/mswebrtc/aec.c:256-264 | two purge requests of any run are at least 5000 ms apart, the truncation to 32 bits notwithstanding |
| `AecTheorems.LeastBacklogTracked` | linlivehd/submodules/mswebrtc/aec.c:231-235 | with a delay of at least one frame the tracked minimum is -1 exactly between windows and the least recorded backlog of the window otherwise |
| `AecTheorems.PurgeSound` | linlivehd/submodules/mswebrtc/aec.c:231-265 | in any run, a purge requested with a delay of at least one frame judges only frames of real signal, each of which began with the purge and two frames more in `ref` |
| `AecTheorems.SessionParameters` | linlivehd/submodules/mswebrtc/aec.c:121-122 | frame size and delay are those of the rate and delay set when the session started, whatever is set later |
| `AecTheorems.ShortDelayFooled` | linlivehd/submodules/mswebrtc/aec.c:233-234 | for every delay under 10 ms a run in which a silent frame records the sentinel -1 and an unsafe purge follows |
| `AecTheorems.PurgeSoundIffTenMs` | linlivehd/submodules/mswebrtc/aec.c:231-265 | in all sessions with a given rate and delay every purge is safe, if and only if the delay is at least 10 ms |
| `AecRuns.SettingsInForce` | linlivehd/submodules/mswebrtc/aec.c:113-325 | after every run the bypass switch, the rate and the delay are what the events last set: an unsupported rate is passed over, and a failed start leaves bypass on until it is set again |
| `AecRuns.SessionSettings` | linlivehd/submodules/mswebrtc/aec.c:113-152 | a running session has the frame size and delay of the settings in force when it started, read off the events |
| `AecRuns.BypassedTick` | linlivehd/submodules/mswebrtc/aec.c:166-174 | a bypassed tick appends input 0 to output 0 and input 1 to output 1, and changes no other field |
| `AecRuns.BypassHandsOn` | linlivehd/submodules/mswebrtc/aec.c:159-174 | over every run the blocks handed through on output 0 are exactly the far-end blocks of the session's bypassed ticks, in order, and on output 1 exactly their microphone blocks |
| `AecRuns.RequestedByTick` | linlivehd/submodules/mswebrtc/aec.c:256-264 | only a tick requests a purge, one at most, at its own time, to be spread over five seconds at the rate then in force |
| `AecRuns.CheckRequests` | linlivehd/submodules/mswebrtc/aec.c:256-265 | a check that is not due changes nothing; one that is closes the window and restarts the clock |
| `AecRuns.NoEarlyPurge` | linlivehd/submodules/mswebrtc/aec.c:151-264 | no purge is requested within five seconds of a session's start |
| `Base64Codec.Encode` | linlivehd/jni/aes-jni.c:188-216 | the loop and the padding overwrite produce exactly the specified text |
| `Base64Codec.TableDecoder.BuildDecodingTable` | linlivehd/jni/aes-jni.c:256-263 | the 64 entries are filled in; the other 192 hold anything |
| `Base64Codec.TableDecoder.Decode` | linlivehd/jni/aes-jni.c:219-253 | NULL exactly for lengths not a multiple of four, else the specified bytes filling exactly the computed length, for any non-empty text |
| `Base64Codec.RvDecodeB64` | linlivehd/jni/aes-jni.c:444-489 | the specified bytes or -1, nothing written beyond the bytes returned or the stated capacity |
| `Base64Codec.OrGivesBytes` | linlivehd/jni/aes-jni.c:474-479 | the shift-and-or expressions are the bytes the sextets carry |
| `Base64Codec.TripleSextets` | linlivehd/jni/aes-jni.c:204-209 | shifting and masking the 24-bit triple yields the four sextets |
| `Base64.TablesAgree` | linlivehd/jni/aes-jni.c:34-173 | the two static tables are inverse on the alphabet, with '=' and all other characters marked |
| `Base64Bits.EncoderKeepsBits` | linlivehd/jni/aes-jni.c:188-216 | section 4 of RFC 4648 on bits: the sextets are the input's bits in order, then zero bits to fill the last sextet |
| `Base64Bits.DecoderKeepsBits` | linlivehd/jni/aes-jni.c:457-488 | decoding reads the whole bytes off the front of the sextets' bits and drops fewer than eight |
| `Base64Theorems.RvRoundTrip` | linlivehd/jni/aes-jni.c:444-489 | decoding an encoded text returns the bytes when they fit and -1 otherwise, for every byte string and capacity |
| `Base64Theorems.RvRoundTripUnpadded` | linlivehd/jni/aes-jni.c:457-488 | the same with the '=' removed |
| `Base64Theorems.RvIgnoresTail` | linlivehd/jni/aes-jni.c:464-485 | after a prefix of 2 or 3 mod 4 characters, nothing behind the first '=' matters |
| `Base64Theorems.TableDecodesBody` | linlivehd/jni/aes-jni.c:228-250 | on a well-formed text base64_decode yields the bytes wholly contained in its characters, whatever the unused bits and the rest of the table are |
| `Base64Theorems.DecodersAgreeIff` | linlivehd/jni/aes-jni.c:219-253 | on texts of alphabet characters and '=' that both can take, the two decoders agree if and only if '=' is only the last or the last two characters |
| `Base64Theorems.CanonicalIff` | linlivehd/jni/aes-jni.c:188-253 | re-encoding a decoded well-formed text gives it back if and only if its unused bits are zero (section 3.5 of RFC 4648) |
| `Base64Theorems.EncoderBijective` | linlivehd/jni/aes-jni.c:188-253 | base64_encode is a bijection from non-empty byte strings onto canonical texts with base64_decode as inverse |
| `CipherStrings.UnpaddedPadded` | linlivehd/jni/aes-jni.c:300-332 | full-block padding can always be removed |
| `CipherStrings.CipherRecovers` | linlivehd/jni/aes-jni.c:300-332 | the ciphertext has the padded length and decrypts to the plaintext |
| `CipherStrings.StoresInRangeIff` | linlivehd/jni/aes-jni.c:303-316 | the ciphertext fits its buffer, and the text with its terminator fits enUSER if and only if the string has at most 174 bytes |
| `CipherStrings.PipelineRecovers` | linlivehd/jni/aes-jni.c:506-531 | every NUL-free string of at most 174 bytes survives encrypting and decrypting, and what encrypting leaves is fit for decrypting |
| `CipherStrings.NativeStrings.Strncpy` | linlivehd/jni/aes-jni.c:512 | copies up to the terminator and fills up with zeros |
| `CipherStrings.NativeStrings.TestEncrypt` | linlivehd/jni/aes-jni.c:506-517 | enUSER holds the encrypted text as a terminated string, all stores in range |
| `CipherStrings.NativeStrings.TestDecrypt` | linlivehd/jni/aes-jni.c:519-531 | enUSER holds the decrypted string, all stores in range |
| `IlbcFilters.IlbcEncoderFilter.constructor` | linlivehd/submodules/msilbc/ilbc.c:26-41 | a fresh encoder satisfies the invariant in either compiled-in mode |
| `IlbcFilters.IlbcEncoderFilter.AddFmtp` | linlivehd/submodules/msilbc/ilbc.c:54-89 | mode and packet time from the parameters, including the early return; keeps the invariant |
| `IlbcFilters.IlbcEncoderFilter.AddAttr` | linlivehd/submodules/msilbc/ilbc.c:91-114 | packet time from the attribute; keeps the invariant |
| `IlbcFilters.IlbcEncoderFilter.CopyFrame` | linlivehd/submodules/msilbc/ilbc.c:143-145 | the copy loop takes one frame out of the packet's samples, all indices in range |
| `IlbcFilters.IlbcEncoderFilter.EncodeFrames` | linlivehd/submodules/msilbc/ilbc.c:141-148 | the codec gets the packet's consecutive frames, and the payload is its outputs in order |
| `IlbcFilters.IlbcEncoderFilter.Process` | linlivehd/submodules/msilbc/ilbc.c:116-153 | one process call is one step of the specification and keeps the invariant, all buffer accesses in range |
| `IlbcFilters.IlbcDecoderFilter.DecodeFrames` | linlivehd/submodules/msilbc/ilbc.c:257-277 | the decode loop covers exactly the whole frames of the payload |
| `IlbcFilters.IlbcDecoderFilter.Process` | linlivehd/submodules/msilbc/ilbc.c:226-293 | one process call is one step of the specification and keeps the invariant |
| `IlbcSettings.ContainsIffOccurs` | linlivehd/submodules/msilbc/ilbc.c:66 | the search finds a text exactly when it occurs at some index |
| `IlbcSettings.NumberRead` | linlivehd/submodules/msilbc/ilbc.c:83 | blanks and a sign are skipped, the digits give the number, what follows has no influence |
| `IlbcSettings.ModeSet` | linlivehd/submodules/msilbc/ilbc.c:61-74 | a mode text in which "20" occurs selects 160 samples, 38 bytes and 20 ms, one with "30" alone 240 samples, 50 bytes and 30 ms; any other leaves the mode alone |
| `IlbcSettings.EmptyModeIgnored` | linlivehd/submodules/msilbc/ilbc.c:62-65 | an empty mode makes the filter ignore all parameters, the packet time included |
| `IlbcSettings.DecimalPtime` | linlivehd/submodules/msilbc/ilbc.c:76-87 | the decimal text of n sets the packet time to n exactly for n from 20 to 140 |
| `IlbcSettings.PtimeAttribute` | linlivehd/submodules/msilbc/ilbc.c:91-114 | an attribute sets the first of the nine packet times, in the order of the tests, whose text occurs in it, and nothing if none does |
| `IlbcSettings.LastModeInForce` | linlivehd/submodules/msilbc/ilbc.c:26-89 | the mode in force after any run is the one last selected, or the compiled-in one |
| `IlbcSettings.LastPtimeInForce` | linlivehd/submodules/msilbc/ilbc.c:36-114 | the packet time in force after any run is the one last set by parameter or attribute, or none |
| `IlbcEncoderHistory.CodecHistory` | linlivehd/submodules/msilbc/ilbc.c:49-152 | from one initialisation of the codec to the next, code i is what the codec, in the mode it was initialised for, makes of frame i and all frames since the initialisation |
| `IlbcEncoderHistory.CodesOfInput` | linlivehd/submodules/msilbc/ilbc.c:116-152 | in one mode with one initialisation, code i is what the codec makes of the first i + 1 frame-sized slices of the input, whatever the schedule and packet times |
| `IlbcEncoderHistory.PacketsSpan` | linlivehd/submodules/msilbc/ilbc.c:120-151 | every packet of a process call spans the packet time in force when that is whole frames, one frame otherwise, at eight samples a millisecond |
| `IlbcEncoderTheorems.PacketFits` | linlivehd/submodules/msilbc/ilbc.c:120-138 | in a configured filter a packet spans exactly its packet time when that is whole frames, one frame otherwise, and at most 1120 samples |
| `IlbcEncoderTheorems.ClampIsNotEnough` | linlivehd/submodules/msilbc/ilbc.c:130-133 | the clamp to seven alone would overrun the buffer, and 1120 is reached |
| `IlbcEncoderTheorems.BufferBound` | linlivehd/submodules/msilbc/ilbc.c:54-138 | under any sequence of settings a packet fits the sample buffer |
| `IlbcEncoderTheorems.Conservation` | linlivehd/submodules/msilbc/ilbc.c:135-152 | frames plus residue are the input, payloads are the frames' codes in order, every timestamp counts the samples up to its packet's end mod 2^32 |
| `IlbcEncoderTheorems.ResidueUnderOnePacket` | linlivehd/submodules/msilbc/ilbc.c:138 | after a process call less than one packet is left |
| `IlbcEncoderTheorems.FramesAreSlices` | linlivehd/submodules/msilbc/ilbc.c:119-152 | in a fixed mode the codec gets the consecutive frame-sized slices of the input, whatever the blocks, calls and packet times |
| `IlbcEncoderTheorems.ScheduleIndependent` | linlivehd/submodules/msilbc/ilbc.c:135-152 | two process calls equal one on all the blocks: packets, timestamps and residue |
| `IlbcDecoderTheorems.DecoderConservation` | linlivehd/submodules/msilbc/ilbc.c:235-292 | every run: consistent configuration, ready exactly when configured, no bad frame, every accepted byte decoded once in order, eight samples per reported millisecond |
| `IlbcDecoderTheorems.DecodesWhatWasReceived` | linlivehd/submodules/msilbc/ilbc.c:233-271 | what is decoded is what was received, in order, less exactly the packets whose length is zero or no multiple of 38 or 50 |
| `IlbcDecoderTheorems.SelectedModeDivides` | linlivehd/submodules/msilbc/ilbc.c:239-257 | after mode selection the frame size divides every accepted payload |
| `IlbcDecoderTheorems.LengthDeterminesModeIff` | linlivehd/submodules/msilbc/ilbc.c:239-256 | the length alone determines the mode if and only if it is not a multiple of 950, where the decoder changes mode, or starts with 20 ms |
| `IlbcDecoderTheorems.FramingRoundTrip` | linlivehd/submodules/msilbc/ilbc.c:233-271 | a fresh decoder fed the packets of any fixed-mode encoder run decodes exactly the frames encoded, in order, set up once in the encoder's mode |
| `IlbcDecoderTheorems.DecodesCodesOfInput` | linlivehd/submodules/msilbc/ilbc.c:116-271 | from samples to codec: the i-th frame decoded is what the encoding codec makes of the first i + 1 frame-sized slices of the encoder's input |
| `IlbcConcealment.ConcealsWhenDue` | linlivehd/submodules/msilbc/ilbc.c:283-292 | over every run a frame is concealed exactly once in each tick that has a concealer asking for it and a decodable packet received by then, and in no other |
| `IlbcConcealment.TickCalls` | linlivehd/submodules/msilbc/ilbc.c:233-292 | a tick first decodes the bytes of its decodable packets, in order, then conceals one frame exactly if that is due |
| `IlbcConcealment.PutsOutWhatIsCalled` | linlivehd/submodules/msilbc/ilbc.c:263-291 | over every run, with a concealer or without, the samples put out are eight for each millisecond of the frames decoded and concealed, each in the mode last set up, and the concealer is told that time |
| `IlbcConcealment.ProtocolKept` | linlivehd/submodules/msilbc/ilbc.c:239-292 | over every run the codec is set up before it decodes or conceals, is set up again only to change its mode, and gets only frames of the mode it is in |
| `Reframing.SlicesPartition` | linlivehd/submodules/mswebrtc/isac_enc.c:104-108 | cutting a stream loses, invents and reorders nothing, and the residue fixes the number of slices |
| `Reframing.SlicesAppend` | linlivehd/submodules/mswebrtc/isac_enc.c:98-108 | cutting what has arrived and then the rest is cutting everything at once |
| `Isac.IsacEncoder.Process` | linlivehd/submodules/mswebrtc/isac_enc.c:84-144 | one process call is one step of the specification |
| `Isac.ScheduleIndependent` | linlivehd/submodules/mswebrtc/isac_enc.c:98-139 | every run ends in the state one call on the whole input reaches |
| `Isac.EncodesConsecutiveSlices` | linlivehd/submodules/mswebrtc/isac_enc.c:104-139 | T > 0 bytes give (T-1)/320 encode calls on consecutive slices, a residue of 1 to 320 bytes and 160 samples of timestamp per successful call mod 2^32 |
| `Isac.PacketsPutOut` | linlivehd/submodules/mswebrtc/isac_enc.c:114-137 | over every run the packets put out are exactly those of the calls the codec answers with a length, each once and in order, of that length and stamped with 160 samples for every successful call up to it, mod 2^32 |
| `Isac.EveryFinishedCallIsSent` | linlivehd/submodules/mswebrtc/isac_enc.c:123-134 | each call answered with a length has its packet at the place its number among such calls gives |
| `BigNum.BigNumber.CorrectTop` | linlivehd/jni/include/openssl/bn.h:751-760 | terminates, strips only zero words, leaves none leading and keeps the value |
| `BigNum.BigNumber.PredicatesDecide` | linlivehd/jni/include/openssl/bn.h:379-383 | on a normalised number the predicates decide equality with a word and with zero of its value |
| `BigNum.BigNumber.IsWordExact` | linlivehd/jni/include/openssl/bn.h:379-383 | without normalisation BN_is_word is right for all words if and only if there is no leading zero word above the lowest or the value is no word |
| `BigNum.BigNumber.IsZeroExact` | linlivehd/jni/include/openssl/bn.h:381 | without normalisation BN_is_zero is right if and only if no words are in use or one of them is not zero |
| `BigNum.BigNumber.OddDecides` | linlivehd/jni/include/openssl/bn.h:384 | BN_is_odd decides parity, normalised or not |
| `BigNum.NormalisedUnique` | linlivehd/jni/include/openssl/bn.h:751-760 | equal values have equal normalised word arrays |

## Left out

- Widths: sizes, lengths and sample counts are unbounded, and so is the product of delay and rate; timestamps, the ticker difference and the decoder's 32-bit triple wrap as in C.
- Preconditions the C code leaves to its callers: a delay that is not negative, both inputs connected in bypass, no processing outside bypass after a failed preprocess, non-empty input to `base64_decode`, and for `rvDecodeB64` bytes below 128 and no decoded group of fewer than two characters.
- `char` is unsigned, as on ARM, where it indexes the decoding table.
- CipherStrings.NativeStrings.TestDecrypt: takes only texts that decode to a ciphertext with valid padding whose plaintext is terminated; for others the C code reads memory it never wrote, or stores outside `enUSER`.
- IlbcFilters.IlbcEncoderFilter.Process: a mode set after the codec was initialised is not processed until it is initialised again, because what the codec then writes is not known.
- `fmtp_get_value`: the encoder's parameters arrive as the mode and packet-time texts found in the string.
- Contents of decoded and cleaned audio, packet metadata and the codecs, concealer, cipher and flow controller themselves.
- `base64_cleanup`, `test_openssl` (the encrypting side on a fixed string), key derivation, the JNI entry points, logging and allocation failure.
- EC_DUMP files, filter descriptors, plugin registration, the canceller's state string, iSAC bit-rate and packet-time settings.
- The Silk filters and the iSAC decoder: single-branch facts around unseen codecs, or single-precision bit-rate arithmetic.
- All other OpenSSL headers: declarations and constants.
