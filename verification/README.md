# Chronus gateway: a verified model

This project models, in Dafny, how the Chronus gateway turns a radio link's octets into telemetry
packets, and the other parts of the repository that keep state under load or do exact arithmetic. It
proves what the code promises about them for all inputs, all runs and all interleavings.

`dafny verify dfyconfig.toml` checks everything.

## What is modelled

**The telemetry link** (CCSDS 132.0-B-3, 131.0-B-4 and 133.0-B-2).

- `Octets`, `BitStrings`, `Crc`, `CrcDivision`, `Bursts`, `Randomizer`, `TmFrame`, `SpacePackets`,
  `Layouts`: octets and bits, the frame checksum, the division it is the remainder of and the errors it
  catches, the pseudo-randomizer, the frame format, the packet parser and encoder, and where in the
  octets each field lies.
- `Reassembly`, `Deframing`: the receiver as functions on its state, one virtual channel and the whole
  deframer. `DeframerObjects` is the same receiver in the form the gateway has
  it: objects that are updated in place, and loops. Each method is proved to do what the functions
  say, and everything else is proved about the functions.
- `Provenance`, `MarkerSearch`, `Accounting`, `Channels`, `VirtualChannels`, `FrameCounts`: arbitrary
  input. Packets never mix octets across a break, cutting the stream differently changes nothing,
  octets are conserved, memory is bounded, intact frames are found again after noise, and channels do
  not disturb each other.
- `Builder`, `PacketStream`, `LossLocality`, `LossExactly`, `EndToEnd`, `RoundTrip`: input that a frame
  builder made. What is packed comes back, and a lost frame costs only the packets it carried parts of.
- `Pipeline`: one deframer that sees every datagram and is reset after a lag.

**Orbit ephemeris messages.** `Lagrange` is the mathematics, `Instants` how instants are
compared and subtracted, leap seconds included, `Doubles` how durations are rounded, `Oem` the window,
the interpolation and the choice of a segment, `ZeroDivisors` when a weight divides by zero, and
`OemParsing` the reader.

**History.** `HistoryFile` is the file as octets and the reader that brings its newest lines back;
`History` the ring, the queue and the writer.

**Admission** to the demo server, as single atomic steps of any number of threads.

**Time codes** (CCSDS 301.0-B-4, sections 3.2 and 3.3), and the instant a packet is evaluated at.

## Where the code does not do what one would expect

- A loss of a nonzero multiple of 256 frames on a channel is invisible to the 8-bit counter, and the
  receiver can then join octets of different packets (`LossLocality.HiddenLossForgesPacket`).
  `LossExactly.LocalityExactly` shows that loss locality holds exactly for the other losses.
- `flush` documents that it sends what is queued. With a data field of 3 to 5 octets the end of its
  idle packet can stay queued; `Builder.FlushTailExactly` lists the four cases.
- `encode_tm` cuts the payload length to 16 bits; a payload of more than 65536 octets is not read back
  whole (`SpacePackets.ParseEncoded`).
- The weights of the interpolation can divide by zero although epochs strictly increase. In a window of
  less than 97 days this is so exactly when two epochs have the same distance from the first
  (`ZeroDivisors.ShortWindowsDecide`). With leap seconds at the ends of days that is exactly when one
  epoch is in a leap second and another has its fraction in the second after it, as 23:59:60 and the
  00:00:00 that follows (`ZeroDivisors.LeapSecondsDecide`, `ZeroDivisors.LeapSecondDivides`): the time
  library orders the two and gives their difference as zero. `ZeroDivisors.WrittenLeapSecondsDecide`
  adds the leap seconds that a text can put elsewhere. In longer windows two epochs can also be one
  floating-point number: `ZeroDivisors.SpanDecides` gives the span from which this is possible,
  8 388 608.000000002 seconds, and `ZeroDivisors.SpacingDecides` the spacing of epochs, 2048
  nanoseconds, that rules it out up to 292 years.
- A recorded message survives a restart only if it is one trimmed line of at most 256 KiB
  (`History.RestartRebuildsTheRing`); a message with a line break inside is recorded but not reloaded.
- A visitor can be refused for capacity although fewer than `max_sessions` sessions are open, because
  every visit under way holds a permit: on its way in, about to be refused for its address, or on its
  way out. `Admission.CapacityRefusedExactly` says exactly when.
- With `max_per_ip` 0, every address that was looked up keeps a zero entry in the map for good
  (`Admission.ZeroLimitKeepsEntries`); `Admission.ReturnedExactly` gives the exact condition.
- Within a leap second the CUC encoder's 16-bit fraction wraps (`TimeCodes.CucRoundTrip`), and fields
  can be out of order (`TimeCodes.LeapSecondsBreakOrder`). CUC fields are so exactly when the earlier
  instant is in the second before the later one's leap second and has the larger fraction
  (`TimeCodes.CucOrderExactly`); CDS fields exactly when the earlier instant is in a leap second and
  the later one in the second after it with the smaller millisecond (`TimeCodes.CdsKeepsOrder`). The
  CDS decoder accepts a 61st second that the encoder never writes (`TimeCodes.CdsFieldRoundTrip`).

## Model

| member | source | states |
|---|---|---|
| Crc.Crc16Ccitt | crates/gateway/src/frames.rs:79-92 | the bit-by-bit loop computes the checksum that the following lemmas are about; `CrcDivision.ChecksumIsRemainder` says which number that is |
| CrcDivision.ChecksumIsRemainder | crates/gateway/src/frames.rs:66-92 | for every string the checksum is the remainder of long division by x^16 + x^12 + x^5 + 1 of its bits and 16 zeros, the first 16 of these inverted: the division is defined on sequences of bits |
| CrcDivision.ChecksumOfNothing | crates/gateway/src/frames.rs:79-92 | the checksum of the empty string is FFFF |
| CrcDivision.CheckValue | crates/gateway/src/frames.rs:75-77 | the checksum of the digits 1 to 9 is the standard check value, 29B1 |
| Crc.BurstChangesCrc | crates/gateway/src/frames.rs:79-92 | two strings of any length that differ, and only in two neighbouring octets, have different checksums |
| Crc.ResidueIsZero | crates/gateway/src/frames.rs:282-288 | a body and two octets behind it have joint checksum zero if and only if the two octets are the checksum of the body |
| Crc.UnnoticedErrors | crates/gateway/src/frames.rs:79-92 | two strings of one length have the same checksum if and only if their difference leaves an empty register empty: detection depends on the error pattern only |
| Bursts.BurstOf16BitsChangesCrc | crates/gateway/src/frames.rs:79-92 | two strings that differ, and only within 16 consecutive bits, wherever these begin, have different checksums |
| Bursts.BurstOf16BitsIsRejected | crates/gateway/src/frames.rs:276-288 | a frame changed only within 16 consecutive bits is refused for its FECF |
| Crc.TableEqualsBitwise | demo/replay/fixtures/gen_tm_frames.py:40-57 | for every string the table-driven checksum is the bit-by-bit one |
| Crc.BuildTable | demo/replay/fixtures/gen_tm_frames.py:40-49 | each of the 256 entries, computed in a wider register and cut to 16 bits, is what eight turns of the register make of its octet |
| Crc.Crc16ByTable | demo/replay/fixtures/gen_tm_frames.py:53-57 | the table loop returns the bit-by-bit checksum, which is the remainder of `CrcDivision.ChecksumIsRemainder` |
| Randomizer.RandomizeTwice | crates/gateway/src/frames.rs:118-137 | randomizing twice gives the frame back, at every length |
| Randomizer.PnBitPeriod | crates/gateway/src/frames.rs:98-116 | the register returns to all ones after 255 bits: the bit sequence has period 255 |
| Randomizer.PnOctetCycles | crates/gateway/src/frames.rs:133-137 | reading the 255-octet table round and round is reading the unbounded register output |
| Randomizer.BuildPnSequence | crates/gateway/src/frames.rs:98-116 | the table holds the first 255 octets of the register output |
| Randomizer.CcsdsRandomize | crates/gateway/src/frames.rs:133-137 | in place, octet i of the sequence is added to octet i of the frame, for every i |
| Randomizer.OctetHoldsItsBits | crates/gateway/src/frames.rs:98-116 | octet i of the sequence holds bits 8i to 8i + 7 of the register output, the first of them on top |
| Randomizer.SequenceBegins | crates/gateway/src/frames.rs:95-98 | the sequence begins FF 48 0E C0 9A 0D 70 BC |
| Randomizer.ZerosBecomeTheSequence | crates/gateway/src/frames.rs:129-137 | randomizing n zero octets gives the first n octets of the sequence, for every n |
| Randomizer.RandomizedZeros | demo/replay/fixtures/gen_tm_frames.py:64-75 | for every n, randomizing n zero octets in place, and the generator of the packed register, give the same n octets |
| Randomizer.PnBytes | demo/replay/fixtures/gen_tm_frames.py:64-75 | the generator that shifts a packed one-octet register gives the same sequence, for any number of octets |
| TmFrame.HeaderRoundTrip | crates/gateway/src/frames.rs:180-211 | parsing an encoded primary header gives every field back |
| TmFrame.ParseAcceptsExactly | crates/gateway/src/frames.rs:276-328 | parsing succeeds with a frame if and only if the octets are, one after the other, header, secondary header of as many octets as the low six bits of its first octet say, plus one, a data field that is not empty, OCF of four octets and FECF as the flags say, with version 0, no sync flag and a right checksum |
| TmFrame.BurstIsRejected | crates/gateway/src/frames.rs:276-288 | a frame changed only in two neighbouring octets is refused for its FECF |
| TmFrame.ParseAssembled | crates/gateway/src/frames.rs:867-890 | parsing a frame put together from parts gives the parts |
| TmFrame.SecondaryHeaderIsCutOff | crates/gateway/src/frames.rs:307-317 | a frame with a secondary header of n octets, for every n from 1 to 64, n - 1 in its first and anything in the others, parses to exactly its data field |
| Layouts.FrameIs | crates/gateway/src/frames.rs:276-328 | for any octets: which problem is found first, with its numbers, or which octets are the data field and the OCF, all as positions and numbers |
| Layouts.FrameHeaderFields | crates/gateway/src/frames.rs:180-197 | each header field as a number worked out from the six octets |
| Layouts.FrameHeaderOctets | crates/gateway/src/frames.rs:198-211 | an encodable header is written so that it reads back, with packet order flag 0 and segment length identifier 3 |
| SpacePackets.IdlePacketIsIdle | crates/gateway/src/frames.rs:895-902 | an idle packet has the length asked for, 7 octets at least, is recognised as idle, and is well formed if and only if it has at most 65542 |
| SpacePackets.WellFormedParses | crates/gateway/src/ccsds.rs:144-182 | a well-formed packet is refused only as a telecommand; otherwise everything behind the header is the payload |
| SpacePackets.ParseEncoded | crates/gateway/src/ccsds.rs:237-256 | header fields come back in their link widths; the payload comes back whole, and the packet is well formed, if and only if it has at most 65536 octets |
| Layouts.PacketHeaderFields | crates/gateway/src/ccsds.rs:144-182 | version, type, secondary header flag, APID, sequence count and length as numbers worked out from the octets, and when a packet is well formed or idle |
| Layouts.TelemetryIs | crates/gateway/src/ccsds.rs:144-182 | for any octets: which problem is found first, with its numbers, or the APID, count, flag and payload, all as positions and numbers |
| Layouts.EncodedIs | crates/gateway/src/ccsds.rs:237-256 | each field of an encoded packet as a number, the length modulo 65536 |
| Layouts.IdlePacketOctets | crates/gateway/src/frames.rs:895-902 | an idle packet octet by octet: 07 FF C0 00, its length, and 55 to the end |
| Reassembly.CutPartitions | crates/gateway/src/frames.rs:716-747 | whatever a buffer holds, well-formed packets come off it in order and back to back, and what stays is shorter than a packet |
| Reassembly.CutJoined | crates/gateway/src/frames.rs:716-747 | packets joined to one another are cut where they were joined |
| Reassembly.ReceiveKeepsValid | crates/gateway/src/frames.rs:661-705 | an out-of-sync channel holds nothing, a channel in sync less than one packet, after any frame |
| Reassembly.RunKeepsValid | crates/gateway/src/frames.rs:448-465 | the same after any run of frames |
| Provenance.PacketsAreStretches | crates/gateway/src/frames.rs:661-705 | no mixing on a channel: the packets of any run are disjoint stretches, in order, of the data octets received, and none reaches across a counter jump, an octet a first header pointer designates, or a pointer outside the data field |
| MarkerSearch.MarkerIs | crates/gateway/src/frames.rs:40-41 | a marker is the four octets 1A CF FC 1D |
| MarkerSearch.ScanSplit | crates/gateway/src/frames.rs:563-602 | searching a buffer, and then the rest of it with more octets behind, is searching all at once |
| MarkerSearch.PushAllIsOneScan | crates/gateway/src/frames.rs:544-602 | a run of datagrams amounts to one search of all their octets |
| MarkerSearch.CutsDoNotMatter | crates/gateway/src/frames.rs:563-602 | two ways of cutting the same octets into datagrams give the same packets, buffer and counters, but for the count of datagrams |
| Accounting.OctetsAreConserved | crates/gateway/src/frames.rs:563-655 | octets pushed = octets discarded + (4 + frame length) per good frame + one per failed marker + octets buffered, over any run |
| Accounting.PushKeepsBounds | crates/gateway/src/frames.rs:563-602 | every push keeps the buffers bounded and every packet it emits is of version 0, not idle and as long as it declares |
| Accounting.BoundedSizes | crates/gateway/src/frames.rs:57 | the marker buffer holds at most frame length + 3 octets, each channel's less than 65542, and an out-of-sync channel's none |
| Accounting.SoundPacketParses | crates/gateway/src/ccsds.rs:144-182 | an emitted packet is refused by the telemetry parser only as a telecommand; otherwise its whole data field arrives |
| Channels.PushAllTakesIn | crates/gateway/src/frames.rs:544-635 | in both modes, a run amounts to accepting the frames its datagrams hold, in order |
| Channels.IntactCadusAreFound | crates/gateway/src/frames.rs:563-602 | if every marker outside the intact CADUs is followed by something that does not decode, the search of any stream finds the intact CADUs, each once and in order, and nothing else |
| Channels.CadusAreFoundAtTheirEnd | crates/gateway/src/frames.rs:563-602 | of any first part of such a stream, the search finds exactly the CADUs that have ended in it |
| VirtualChannels.ChannelRunsAlone | crates/gateway/src/frames.rs:637-705 | state and output of a channel are those of a reassembler fed this channel's frames only |
| VirtualChannels.LossesAddUp | crates/gateway/src/frames.rs:661-705 | the counters of gaps, of abandoned packets and of idle packets are the sums of what each channel lost, or cut out, on its own |
| FrameCounts.GapsAreSkips | crates/gateway/src/frames.rs:661-670 | the gaps of a channel are the frames, in any run, whose count is not one more than that of the frame before |
| FrameCounts.FrameOnAChannel | crates/gateway/src/frames.rs:661-705 | one frame on a channel in any valid state, for each kind of pointer: the packets that come off, the state that is left and the packets in progress that are counted as lost |
| VirtualChannels.FillerIs | crates/gateway/src/frames.rs:735-744 | a packet is left out of what is handed on exactly when its APID is 2047 |
| VirtualChannels.EmittedAreStretches | crates/gateway/src/frames.rs:544-705 | no mixing, for arbitrary datagrams and the whole deframer |
| FrameCounts.CountersSayWhatHappened | crates/gateway/src/frames.rs:637-660 | over any run of frames, each is counted as good, as filtered or as of another spacecraft, by the two identifiers in its header; the master channel count is compared between neighbouring frames of the spacecraft; idle frames are the good ones with pointer 7FE; as many packets are counted as are handed on |
| FrameCounts.CountersOfARun | crates/gateway/src/frames.rs:544-660 | the same over any run of datagrams |
| FrameCounts.FrameIsHandled | crates/gateway/src/frames.rs:605-660 | for any octets: a wrong length, a checksum that does not match and any other problem raise exactly their own counter and change nothing else; a frame of another spacecraft only the counter of those; a filtered channel's frame no channel; and every packet handed on bears the spacecraft and channel of its frame |
| FrameCounts.MalformedDatagram | crates/gateway/src/frames.rs:544-561 | a datagram that is empty or not a whole number of frames is one invalid frame and changes nothing else |
| FrameCounts.ResetIs | crates/gateway/src/frames.rs:708-712 | after a reset no channel holds or remembers anything, the buffer is empty and the counters stand |
| DeframerObjects.VcState.LoseSync | crates/gateway/src/frames.rs:458-465 | the buffer is emptied, sync is lost, and a packet counted as dropped exactly when something was held |
| DeframerObjects.DrainPackets | crates/gateway/src/frames.rs:716-747 | the loop takes off the packets that the specification cuts, and counts them |
| DeframerObjects.FollowPointer | crates/gateway/src/frames.rs:673-705 | each of the pointer's cases, on the channel's object, does what the specification says |
| DeframerObjects.TmDeframer.constructor | crates/gateway/src/frames.rs:517-531 | a new deframer has fresh channels and zero counters |
| DeframerObjects.TmDeframer.Accept | crates/gateway/src/frames.rs:637-705 | new channel states, counters and packets are those of the specification |
| DeframerObjects.TmDeframer.HandleFrame | crates/gateway/src/frames.rs:605-635 | derandomizing a copy, parsing and accepting are those of the specification; failures are counted by kind |
| DeframerObjects.TmDeframer.PushStream | crates/gateway/src/frames.rs:563-602 | the search loop leaves the buffer, counters and packets of the specification |
| DeframerObjects.TmDeframer.Push | crates/gateway/src/frames.rs:544-561 | a datagram of any length, in both modes, does what the specification says |
| DeframerObjects.TmDeframer.Reset | crates/gateway/src/frames.rs:708-712 | channels and buffer are as new; the counters stay |
| Pipeline.Run | crates/gateway/src/pipeline.rs:79-105 | the loop publishes the packets in order, counts missed datagrams and resets after a lag |
| Pipeline.EveryRunIsBoundedAndSound | crates/gateway/src/pipeline.rs:79-125 | over every run of datagrams and lags, the deframer stays bounded and what is published is sound |
| Pipeline.AfterALagOnlyNewOctets | crates/gateway/src/pipeline.rs:93-99 | what is published after a lag consists of octets received after it |
| Builder.TmFrameBuilder.constructor | crates/gateway/src/frames.rs:787-795 | the frame length is clamped so that a data field has 2 to 2042 octets; the spacecraft identifier is taken modulo 1024 |
| Builder.TmFrameBuilder.Frame | crates/gateway/src/frames.rs:867-890 | the frame is assembled with both counters, which step and wrap |
| Builder.TmFrameBuilder.EmitFrame | crates/gateway/src/frames.rs:851-865 | the next data field of the queue, with a first header pointer to the first packet that starts in it |
| Builder.TmFrameBuilder.Pack | crates/gateway/src/frames.rs:812-824 | packets are appended to the channel, every full frame leaves, less than a data field stays, and no octet is lost; other channels are untouched |
| Builder.TmFrameBuilder.Flush | crates/gateway/src/frames.rs:828-843 | everything queued is sent; what stays queued is the end of the idle packet, present exactly when it had to be raised to 7 octets and then does not fit |
| Builder.FlushTailExactly | crates/gateway/src/frames.rs:828-843 | with a data field of n octets and q queued, an end stays exactly for n = 3 and q = 1, n = 4 and q = 2 or 3, n = 5 and q = 4 |
| Builder.IdleLengthIsLeast | crates/gateway/src/frames.rs:833-841 | with seven octets or more to a data field, the idle packet is the shortest one that ends where a frame does |
| Builder.FlushCanLeaveATail | crates/gateway/src/frames.rs:828-843 | a builder that is left with such an end |
| Builder.TmFrameBuilder.IdleFrame | crates/gateway/src/frames.rs:846-849 | a frame of filler with the idle pointer takes a count and carries nothing |
| PacketStream.SlotStable | crates/gateway/src/frames.rs:851-865 | packing more changes neither octets nor pointer of a frame already filled |
| LossLocality.FrameKeepsStep | crates/gateway/src/frames.rs:661-747 | a frame received without a gap keeps the channel in step with the packet stream, in every case of its pointer |
| LossLocality.LossIsLocal | crates/gateway/src/frames.rs:637-747 | from any subset of a channel's frames whose losses show in the 8-bit counter, exactly the packets that touch no missing frame come out, in order; gaps are counted where frames are missing, and without gaps nothing is abandoned |
| LossLocality.HiddenLossForgesPacket | crates/gateway/src/frames.rs:661-669 | when a nonzero multiple of 256 frames is lost inside a packet, octets of a later frame are taken for its end |
| LossLocality.HiddenLossBreaksLocality | crates/gateway/src/frames.rs:661-669 | a log of full frames, any packet of two frames and any packet of 256 behind it, and only the first and last frame received: no packet arrives intact and one comes out that was never sent |
| LossExactly.LocalityExactly | crates/gateway/src/frames.rs:637-747 | for every increasing sequence of received frames: whatever was packed and sent, exactly the packets that touch no missing frame come out, if and only if no run of missing frames between two received ones is a nonzero multiple of 256 long |
| EndToEnd.SentFrameDecodes | crates/gateway/src/frames.rs:812-923 | every frame a builder sent decodes, on its channel, to what was put in |
| EndToEnd.SentFrameOctets | crates/gateway/src/frames.rs:846-890 | every frame a builder sent, octet by octet: identifiers, the channel count modulo 256, flags, the pointer to the first packet that starts in it, 2047 if none does and 2046 if it is idle, its stretch of the packet stream or 55, and the checksum |
| EndToEnd.CaduIs | crates/gateway/src/frames.rs:915-923 | a CADU octet by octet: 1A CF FC 1D, and the frame, with octet i of the sequence added to octet i if it is randomized |
| EndToEnd.DeframedIsWhatArrivedIntact | crates/gateway/src/frames.rs:544-890 | loss locality from builder to deframer: on each admitted channel, for any interleaving that keeps each channel's order, the packets emitted are the packed ones that touch no missing frame, without idle ones |
| RoundTrip.PackedComesBack | crates/gateway/src/frames.rs:544-890 | with all frames of a channel delivered, its packets come back, without idle ones, in order |
| RoundTrip.NothingCountedLost | crates/gateway/src/frames.rs:661-705 | with all frames delivered, no gap and no abandoned packet is counted, however often the counters wrapped |
| RoundTrip.BuildOrderIsLossless | crates/gateway/src/frames.rs:637-890 | all frames of a builder, on all channels, delivered in the order of building: no master channel gap, no channel gap and no abandoned packet is counted, and every admitted channel puts out its packets |
| RoundTrip.DatagramsHold | crates/gateway/src/frames.rs:544-561 | datagrams of one or more whole frames hold just these frames |
| RoundTrip.StreamHolds | crates/gateway/src/frames.rs:563-602 | CADUs anywhere in a stream, in any cut, with no false marker that decodes, hold just these frames |
| RoundTrip.CleanStreamHolds | crates/gateway/src/frames.rs:563-602 | CADUs back to back, in any cut, hold just these frames |
| RoundTrip.BuilderSends | crates/gateway/src/frames.rs:763-890 | after any mix of `pack`, `flush` and `idle_frame` calls a builder is a sender as loss locality and round trip assume it |
| RoundTrip.EmptyQueueWaitsForNothing | crates/gateway/src/frames.rs:812-824 | with an empty queue every packet has been sent whole |
| RoundTrip.FlushLeavesOnlyFiller | crates/gateway/src/frames.rs:828-843 | after a flush only the idle packet can be unsent |
| Lagrange.InterpolationIsExact | crates/gateway/src/oem.rs:181-193 | values of a polynomial of degree less than the number of nodes give its value at any time |
| Lagrange.WeightsSumToOne | crates/gateway/src/oem.rs:181-188 | the weights add up to 1 |
| Oem.WindowBracketsTime | crates/gateway/src/oem.rs:172-177 | for every covered time the window lies within the states, has at least two, and its first and last epoch enclose the time |
| Oem.WindowIsCentred | crates/gateway/src/oem.rs:173-177 | half of the window is at or before the time and the rest after it, except where the window is held at an end of the data |
| Doubles.NanoIsNearest | crates/gateway/src/oem.rs:197-200 | the constant used for `1e-9` is the 53-bit number nearest to it |
| Doubles.HalfEvenIsNearest | crates/gateway/src/oem.rs:197-200 | no integer is nearer to a quotient than the one it is rounded to, and one as near only when that one is even |
| Doubles.UnitsArePowers | crates/gateway/src/oem.rs:197-200 | the units of the model are the powers of two they stand for, and 1 000 000 000 ns are the number one |
| Doubles.RoundIsNear | crates/gateway/src/oem.rs:197-200 | rounding errs by at most half a unit in the last place |
| Doubles.SecsKeepOrder | crates/gateway/src/oem.rs:197-200 | up to 292 years, `secs` never holds a longer duration as a smaller number |
| Doubles.DistinctBelowFirstMerge | crates/gateway/src/oem.rs:197-200 | below 8 388 608.000000002 s, different durations are different numbers |
| Doubles.SpacedApart | crates/gateway/src/oem.rs:197-200 | up to 292 years, durations 2048 ns apart are different numbers |
| Doubles.SpacingIsSharp | crates/gateway/src/oem.rs:197-200 | two such durations 2047 ns apart that are one number |
| Doubles.MillisecondsDecide | crates/gateway/src/oem.rs:197-200 | beyond 292 years, and up to 2^43 seconds, durations are one number if and only if they are in one millisecond |
| Instants.SamePositionExactly | crates/gateway/src/oem.rs:178-200 | the distances of two instants in order, leap seconds being at the ends of days, are equal if and only if the first is in a leap second and the second has its fraction in the second after it |
| Instants.SameDistanceExactly | crates/gateway/src/oem.rs:178-200 | the same with leap seconds at the end of any minute, counted from an instant outside them |
| Oem.NodesDistinct | crates/gateway/src/oem.rs:178-188 | epochs that are different numbers after rounding were different before it |
| ZeroDivisors.ShortWindowsDecide | crates/gateway/src/oem.rs:178-188 | in a window of less than 8 388 608.000000002 s, 97 days, a weight divides by zero if and only if two epochs have the same distance from its first |
| ZeroDivisors.LeapSecondsDecide | crates/gateway/src/oem.rs:178-188 | in such a window, leap seconds being at the ends of days, a weight divides by zero if and only if one epoch is in a leap second and another has its fraction in the second after it |
| ZeroDivisors.WrittenLeapSecondsDecide | crates/gateway/src/oem.rs:178-188 | the exact condition for all epochs that can be written, second 60 of any minute included, in such a window that does not begin in a leap second |
| ZeroDivisors.OrdinaryShortWindowsAreResolved | crates/gateway/src/oem.rs:178-188 | in such a window without leap seconds, no weight divides by zero |
| ZeroDivisors.LeapSecondDivides | crates/gateway/src/oem.rs:178-188 | epochs 23:59:59, 23:59:60 and 00:00:00: a valid segment of one second in which a weight divides by zero at every covered time |
| ZeroDivisors.SpanDecides | crates/gateway/src/oem.rs:172-188 | that no weight divides by zero, in any segment at any time, whose window is no longer than a limit and whose epochs have different distances from its first, holds if and only if the limit is below 8 388 608.000000002 s |
| ZeroDivisors.SpacedEpochsAreResolved | crates/gateway/src/oem.rs:178-188 | up to 292 years, no weight divides by zero when any two epochs are 2048 ns apart, counted from the first of the window |
| ZeroDivisors.SpacingDecides | crates/gateway/src/oem.rs:178-188 | a spacing does this for all windows if and only if it is 2048 ns or more |
| ZeroDivisors.NeighboursDecide | crates/gateway/src/oem.rs:178-188 | up to 292 years, where the distances from the first do not shrink from epoch to epoch, a weight divides by zero if and only if two neighbouring epochs are one number |
| ZeroDivisors.NeighboursDoNotDecideBeyond | crates/gateway/src/oem.rs:197-200 | a window of 292 years in which two epochs are one number and the one between them is another |
| Oem.Interpolate | crates/gateway/src/oem.rs:172-194 | the two loops compute the interpolation formula for all six components, or find that a weight divides by zero |
| Oem.PolynomialMotionIsExact | crates/gateway/src/oem.rs:172-194 | states sampled from polynomials, in time since the first epoch of the window, of degree less than the window size give the polynomials' values, wherever no weight divides by zero and `secs` does not cut a duration of the window to the millisecond |
| Oem.MotionFromAnyOriginIsExact | crates/gateway/src/oem.rs:172-194 | the same with time counted from any origin, leap seconds being at the ends of days |
| Oem.StoredStatesComeBack | crates/gateway/src/oem.rs:172-194 | at every covered epoch the stored state comes back, or no number when a weight divides by zero |
| ZeroDivisors.StoredStatesComeBackRounded | crates/gateway/src/oem.rs:172-194 | the stored state comes back exactly, too, when every operation is rounded, however it is rounded |
| Oem.NeverExtrapolates | crates/gateway/src/oem.rs:332-373 | a time gets a state if and only if it lies within the usable time of a segment, ends included; it is the last such segment, interpolated between epochs that enclose the time, and rotated exactly when its frame is not ITRF; otherwise the error names the earliest start and latest stop |
| OemParsing.MetadataDescribeTheDraft | crates/gateway/src/oem.rs:401-491 | metadata give a draft if and only if center, frame, time system, times and degree are present and readable as required, names in letters of either case, and it is the draft they describe, with its defaults |
| OemParsing.LookupFindsTheFirst | crates/gateway/src/oem.rs:402-415 | a keyword is found if and only if an entry has it, and the first such entry counts |
| OemParsing.FramesAreNamed | crates/gateway/src/oem.rs:424-437 | which values of REF_FRAME stand for which frame: GCRF or ICRF, EME2000 or J2000, TEME, and whatever begins with ITRF, in letters of either case |
| OemParsing.SystemsAreNamed | crates/gateway/src/oem.rs:438-450 | which values of TIME_SYSTEM stand for which time system |
| OemParsing.AddData | crates/gateway/src/oem.rs:493-525 | a line is accepted if and only if its first word reads as an epoch later than the last one and 6 or 9 further words all read as numbers; the new epoch is that reading, component c of the new state the reading of word 1 + c; nothing else changes |
| OemParsing.Finish | crates/gateway/src/oem.rs:527-556 | a finished segment has two states or more and a window that is not empty and lies within its epochs |
| OemParsing.FinishedExactly | crates/gateway/src/oem.rs:527-556 | a draft becomes a segment if and only if it has two states and its useable times, or else its times, clipped to the data, are not an empty window; and that window and the draft's data are the segment |
| OemParsing.SegmentBuilder.PushData | crates/gateway/src/oem.rs:493-525 | the same for the object and its two vectors, which an error leaves unchanged |
| OemParsing.ParseMessage | crates/gateway/src/oem.rs:253-322 | the loop with its four variables returns the specified segments or the first error |
| OemParsing.MessageSaysItsSegments | crates/gateway/src/oem.rs:253-322 | a message of a version line and segment blocks is read as exactly the segments its metadata and the words of its data lines say, in order |
| OemParsing.CovarianceIsSkipped | crates/gateway/src/oem.rs:271-275 | a covariance block, anywhere and with any lines in it, changes nothing of what is read |
| OemParsing.BlankLinesAndCommentsAreSkipped | crates/gateway/src/oem.rs:253-259 | a blank line or a comment, anywhere, changes nothing of what is read |
| OemParsing.FirstLineDecides | crates/gateway/src/oem.rs:260-263 | a text is refused as no message if and only if the first line that is neither blank nor a comment is not a version line |
| OemParsing.LineIsRefusedExactly | crates/gateway/src/oem.rs:271-306 | in every state of the loop, which lines are refused, each with its number |
| OemParsing.UnendedMetadataAreRefused | crates/gateway/src/oem.rs:307-312 | metadata that begin and do not end are refused |
| OemParsing.ParsedMessagesNeverExtrapolate | crates/gateway/src/oem.rs:253-373 | all parsed segments are valid, and no time outside them gets a state |
| HistoryFile.ReadTail | crates/gateway/src/history.rs:451-490 | the loop with its bounded deque returns the last `keep` of the lines the file holds |
| HistoryFile.OnlyPersistableAreRead | crates/gateway/src/history.rs:451-490 | whatever the file holds, every line read would survive being written and read again |
| HistoryFile.ReadingIsAppended | crates/gateway/src/history.rs:451-490 | appending to a file of whole lines appends to what is read |
| HistoryFile.NewestComeBack | crates/gateway/src/history.rs:451-505 | the last `keep` lines written come back if and only if each is persistable |
| History.HistoryStore.constructor | crates/gateway/src/history.rs:268-313 | for a file of any contents: the ring is the newest readable messages, and the file is rewritten to it |
| History.HistoryStore.Record | crates/gateway/src/history.rs:347-376 | a message enters the ring, the oldest leaves when it is full, and its line is queued or counted as dropped |
| History.HistoryStore.WriteBatch | crates/gateway/src/history.rs:519-558 | any number of queued lines reach the file; from 2 x capacity lines on it is compacted to the newest |
| History.HistoryStore.Flush | crates/gateway/src/history.rs:424-441 | everything queued is written, in batches of any sizes |
| History.HistoryStore.Find | crates/gateway/src/history.rs:380-400 | the page is the last matching entries, as many as asked for, 1000 by default and 10 000 at most, truncated exactly when more match |
| History.MatchingAreSelected | crates/gateway/src/history.rs:152-159 | the matching entries are all those received within the bounds, ends included, with the APID, and with a value for the point, as far as the query says so; each once and in order |
| History.ReloadedAreTheMessages | crates/gateway/src/history.rs:268-291 | the entries reloaded are those of all lines that read as messages, each once and in order |
| History.FileEndsWithTheRing | crates/gateway/src/history.rs:347-376 | with nothing queued or dropped, the last `capacity` lines of the file are the ring, and it has less than 2 x capacity |
| History.RestartRebuildsTheRing | crates/gateway/src/history.rs:268-313 | opening the file again gives the same ring if and only if every message in it is persistable |
| Admission.StepHolds | crates/chronus-demo-server/src/server.rs:130-183 | each atomic step keeps permits, lock, map and counter in agreement with the visits under way |
| Admission.AdmissionIsBounded | crates/chronus-demo-server/src/server.rs:163-183 | in every state of every run, active <= sum of the per-IP map <= permits taken <= `max_sessions`, and each address <= `max_per_ip` |
| Admission.NothingUnderflows | crates/chronus-demo-server/src/server.rs:130-142 | `fetch_sub` and `saturating_sub` never meet zero |
| Admission.QuietCountsAgree | crates/chronus-demo-server/src/server.rs:130-183 | with no operation in flight, all counts are the number of open sessions, per address too, and no zero entry stays when `max_per_ip` > 0 |
| Admission.EverythingIsReturned | crates/chronus-demo-server/src/server.rs:130-183 | when all have left, everything but the total is as at the start, if `max_per_ip` > 0 |
| Admission.TotalCountsSessions | crates/chronus-demo-server/src/server.rs:163-183 | in every state of every run, the total is the number of sessions begun so far |
| Admission.ReturnedExactly | crates/chronus-demo-server/src/server.rs:130-183 | when all have left, everything but the total is as at the start if and only if `max_per_ip` > 0 or no address was ever looked up |
| Admission.SomeoneCanAct | crates/chronus-demo-server/src/server.rs:130-183 | no deadlock: while a visit is under way, one can act |
| Admission.ActingGetsNearer | crates/chronus-demo-server/src/server.rs:130-183 | each action brings a visit nearer to its rest and touches no other |
| Admission.RefusedExactly | crates/chronus-demo-server/src/server.rs:168-174 | a visitor is refused for its address exactly when the address has its limit of visits in the map |
| Admission.CapacityRefusedExactly | crates/chronus-demo-server/src/server.rs:164-166 | in every state of every run, a visitor is refused for capacity if and only if as many visits as `max_sessions` are under way, and then fewer are open sessions if and only if some visit is on its way in, about to be refused, or on its way out |
| Admission.RefusedVisitorTakesLastPermit | crates/chronus-demo-server/src/server.rs:164-174 | a run in which this happens, the permit being with a visitor about to be refused |
| Admission.ZeroLimitKeepsEntries | crates/chronus-demo-server/src/server.rs:168-174 | with `max_per_ip` 0 nobody is admitted, and the entries of the map are, in every state of every run, exactly the addresses looked up so far, all at zero |
| Admission.ZeroLimitEntriesStay | crates/chronus-demo-server/src/server.rs:168-174 | these entries never leave |
| Admission.ZeroLimitLeavesEntry | crates/chronus-demo-server/src/server.rs:168-174 | a run with `max_per_ip` 0 at whose end nobody is there and an entry is |
| Admission.DropUndoesAdmit | crates/chronus-demo-server/src/server.rs:130-183 | an uninterrupted admission and drop leave everything but the total as it was |
| Admission.AppState.Advance | crates/chronus-demo-server/src/server.rs:130-183 | one atomic action on the shared state is the step the theorems are about |
| Admission.AppState.Admit | crates/chronus-demo-server/src/server.rs:163-183 | without interruption: the outcome and the whole new state |
| Admission.AppState.DropGuard | crates/chronus-demo-server/src/server.rs:130-142 | without interruption: the whole new state |
| TimeCodes.EpochIsTheStartOf1958 | crates/gateway/src/time.rs:30-31 | the epoch lies before 1970 by as many days as the years 1958 to 1969 have, leap years included |
| TimeCodes.CdsFieldIs | crates/gateway/src/time.rs:134-149 | a CDS field is written for an instant if and only if its days and milliseconds, as numbers, add up to the milliseconds since 1958, with less than a day of milliseconds |
| TimeCodes.CdsFieldReads | crates/gateway/src/time.rs:88-115 | which instant, whole milliseconds, is read from which CDS field |
| TimeCodes.CucFieldIs | crates/gateway/src/time.rs:153-161 | a CUC field is written for an instant if and only if its seconds are those since 1958 in TAI and its fine part is the 65536th of a second the fraction lies in |
| TimeCodes.CucFieldReads | crates/gateway/src/time.rs:116-125 | which instant is read from which CUC field, to the nanosecond |
| TimeCodes.CdsRoundTrip | crates/gateway/src/time.rs:88-149 | decoding an encoded CDS time cuts it to the millisecond; encoding fails exactly outside 1958 to 2137 |
| TimeCodes.CdsFieldRoundTrip | crates/gateway/src/time.rs:101-115 | a CDS field is read if and only if its milliseconds are below 86 401 000; it comes back when encoded if and only if they are below 86 400 000 |
| TimeCodes.CucRoundTrip | crates/gateway/src/time.rs:116-161 | decoding an encoded CUC time gives one at or before it by at most 15 259 ns if and only if it is outside a leap second; within one it is a whole second early |
| TimeCodes.CucLossIsSharp | crates/gateway/src/time.rs:116-161 | an instant that loses 15 259 ns |
| TimeCodes.CucFieldRoundTrip | crates/gateway/src/time.rs:116-161 | a CUC field encoded again keeps its seconds; the fine part stays if 128 divides it and is one lower otherwise |
| TimeCodes.CdsKeepsOrder | crates/gateway/src/time.rs:134-149 | CDS fields compare as big-endian numbers exactly as the instants do, to the millisecond; a later instant has a smaller field if and only if the earlier is in a leap second and the later, in the second after it, has the smaller millisecond |
| TimeCodes.CucOrderExactly | crates/gateway/src/time.rs:153-161 | a later instant has a smaller CUC field if and only if both are in one second, only the later is in its leap second, and its fraction there is the smaller in 65536ths |
| TimeCodes.LeapSecondsBreakOrder | crates/gateway/src/time.rs:134-161 | instants in a leap second whose fields are out of order |
| TimeCodes.TelemetryFrame.Resolve | crates/gateway/src/time.rs:188-213 | a time is decoded exactly when the packet claims one and it can be read; it is used, unflagged, if and only if `max_skew_s` is not positive or its distance from the time of receipt, in whole milliseconds, is at most 1000 x `max_skew_s`; otherwise the time of receipt is used, with flag 1 for skew and flag 2 for a time that cannot be read; the user data are what follows a decoded time field, and otherwise everything |
| TimeCodes.TimedPacketIsReadBack | crates/gateway/src/ccsds.rs:225-256 | a packet built with a time code is parsed, its user data are unchanged, and it is evaluated at the spacecraft's instant, to the resolution of the code, if and only if that is no farther from receipt than `max_skew_s` allows |

## Left out

- Tokio tasks, sockets, shutdown, logging, the HTTP, ingest and WebSocket routes: input and output
  without an invariant of their own. Datagrams, lags and the interleaving of threads are parameters.
- The packet callback of the deframer is modelled as the list of packets it receives; the counters are
  natural numbers, so the wrap-around of 64-bit counters is not modelled.
- `with_fecf` called after frames have been built: the builder's FECF flag is fixed at construction.
- The fixture generator's `Mux`: the layout of its frames, with secondary headers and OCF, is covered
  by `TmFrame.ParseAssembled`; its schedule is not modelled.
- Oem.Interpolate: the rounding of durations to floating-point numbers is modelled where it decides
  whether a weight divides by zero; the values are those of exact arithmetic, so the rounding of sums
  and products, and overflow, are not modelled. A weight that divides by zero leaves no finite number
  in any component, which the model gives as `None`.
- Oem.StateItrf: the rotation from an inertial frame to ITRF is a parameter.
- OemParsing.Parse: splitting of lines into words, trimming, number and date formats and the conversion
  to UTC are parameters (`OemParsing.Readers`), and errors carry no text. That second 60 is read as a
  leap second, and how instants are compared and subtracted, is taken from the time library
  (`Instants.Elapsed`), whose source is not part of this model.
- History.HistoryStore.Record: one recorder at a time; with several, the order in the ring and in the
  queue can differ. JSON is a parameter; `Lawful` states what is assumed of UTF-8 decoding and trimming.
- History.HistoryStore.WriteBatch: file-system failures, the temporary file and the rename are not
  modelled; the file is looked at between batches.
- Admission.AppState.Advance: poisoned locks are not modelled, and each atomic action is taken to be
  sequentially consistent.
- Threshold checks, look angles, Doppler, refraction, eclipse and the RF queue: each claim is settled by
  reading one branch, or rests on libraries that are not part of this model.
- Configuration loading, diagnostics, Open MCT dictionaries, metrics, the simulator and the user
  interfaces.
