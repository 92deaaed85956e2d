# AMR payload format: a verified model

This Dafny project models the AMR and AMR-WB RTP payload formatter of the multimedia communications
controller (`mmccamrpayloadformat`, after RFC 3267), with the bit-stream classes it is built on, and the
two-buffer hand-off of the formatter for codecs without a format of their own (`mmccanypayloadformat`).
It proves that the code does what the format and the redundancy scheme are for, and where it does not, it
says exactly when.

The files, from the bottom up:

- `Bits.dfy`: unsigned values, bitwise operators, octets as bit strings. `StreamFormatter.dfy`: the bit writer and reader.
- `AmrTypes.dfy`: types, limits and tables. `PayloadSpec.dfy`: a payload as a bit string, written and read;
  the reference that encoder and decoder are proved against. `PayloadFields.dfy`: header and table entries.
- `EncoderSpec.dfy`, `FlushSpec.dfy`, `PayloadEncoder.dfy`: the encoder, a class over a payload array with slots, window
  of old frames, in-place compaction and flush, and what a reader finds in a flushed payload.
- `PayloadDecoder.dfy`: the decoder with its redundancy check.
- `FecRecovery.dfy`: what a receiver gets from a run of packets with losses. `SendSpec.dfy`: the payloads of a stream,
  which of its packets are withheld, and which streams can be packed.
- `CommonUtil.dfy`, `StorageFormat.dfy`: the frame checker, resynchronisation and frames in storage form.
- `Capacity.dfy`, `ModeChange.dfy`, `FormatWrite.dfy`, `FormatRead.dfy`: buffer size, codec mode changes, the sending and
  the receiving side. `FirstPackets.dfy`: runs at the start of a talk spurt, after a pause or a stop or up to a flush.
- `ModeRun.dfy`: source buffers and mode requests in any order. `WireFormat.dfy`: the octets of payloads and of frames in
  storage form as numbers, and of what the sink is given.
- `Reception.dfy`: the receiver over several payloads. `RoundTrip.dfy`, `Transmission.dfy`: both sides together, on
  values and over their objects.
- `AnyFormatRead.dfy`: the two-buffer hand-off.

## How the model stands to the code

Objects with fields are classes with the same fields; the payload buffers are arrays changed in place. Ghost
fields record the frames encoded so far and the packets accepted, and contracts relate the state to them; what is
given to the RTP sink (`sink`) and to the data path (`handedOn`) is recorded with its octets.
Immutable descriptors (copies of frames) are octet sequences. `octetAligned` stands for the choice between the base
classes and their octet-aligned subclasses. Octets are numbers below 256, and masks and shifts are written out;
counters that wrap at 2^32 do so in the model. Allocations succeed.

A run starts with a new encoder that is configured once (`PayloadFormatWrite.constructor`), or with a restart after a
pause or a stop (`Restart`), which may leave something behind: speech bits still counted, a count of discarded entries and
a NO_DATA slot. `ProcessFrames` and all other steps are described for both. Each completed packet is followed by
`ResetPayloadBuffer`. A buffer handed to the data path comes back empty: the buffer class belongs to the platform and is
not part of this model. Whether the media clock takes a time stamp from the time gone by is a parameter (`EmptyBuffer`).
A frame is given to the encoder when

- its data holds its speech bits,
- there is room for it; `RoomIsThere` derives this from the size allocated,
- the packet it ends can be finished (`CanFinish`): before the window is full, the new frames are not all without
  data unless the slot before them has data. Without this the code computes a negative place in the payload:
  `RunOfPacket` says so exactly, `SilenceNotCompletable` and `SilentStart` give the streams. With no more repeated
  than new frames in a packet the condition holds from a new encoder on (`EveryStreamCompletable`),
- in the octet-aligned format there is no redundancy and the last frame of a packet has data, because the
  code uses the constants of the other format there.

The decoder is given payloads whose table of contents ends and whose speech bits are there, because it reads on
without checking either; the shift of its slots must stay within the 50 it has, and the octets it compares
within the buffer.

## Where the code falls short of what it is for

- A flush is right, when its speech bits are in place, exactly if the packet before it ended with data; otherwise the
  bits it finds decide (`FlushRest`, `ReEncodeFrame`, `FlushExact`, `FlushLosesFrames`). They are not in place while the
  window fills (`FlushStartIs`): `FlushFirstFrame` is a run in which a reader does not get the first frame. Speech bits
  of more than 255 octets overflow the temporary buffer (`FlushBufferFits`).
- A pause in the middle of a packet does not clear the count of speech bits, and after a pause or a stop a packet that
  ended without data leaves its discard count and a NO_DATA slot behind (`Restart`). The first packet is then too long
  if speech bits are still counted and an entry is discarded from it (`RestartAndSend`), though a reader still finds its
  frames (`LeftoverDecodes`); a flush instead of it leaves out entries (`RestartAndFlush`).
- With more repeated than new frames in a packet, silence at the start cannot be sent (`SilenceNotCompletable`,
  `SilentStart`).
- A packet older than the last one received is accepted again (`LatePacketAcceptedAgain`), and frames that begin
  alike are taken for one another (`NewFramesAccepted`).
- The wide-band stuffing table is too small for the speech-bit counts, so filling bits are not checked
  (`WidebandFillingUnchecked`, `WrittenBack`).
- If the packet that is to carry the marker is withheld for lack of data, no packet carries it until the clock next takes
  a time stamp from the time gone by (`MarkerLost`, `MarkerOnFirst`, `EmptyBuffer`).
- A buffer that the consumer returns before its packet was delivered loses the packet (`FillBuffer`); cancelling
  does the same (`CancelDlRequest`).

## Model

| member | source | states |
|---|---|---|
| Transmission.Transmit | multimediacommscontroller/mmccamrpayloadformat/src/amrpayloadformatwrite.cpp:287-451 | main result, over the objects of both sides: source buffers of coded speech are sent, some of the packets arrive, in order and possibly more than once, and a fresh receiver hands on frames of the stream, each at exactly known places and with the number of its place when the packets arrive with the time stamps of their first frames; these are the stream up to the last packet that arrives iff the first packet repeats all frames before it and no two packets that arrive have more frames lost between them than the later one repeats; in narrow band, if the last packet arrives, these are the octets of the source buffers |
| Reception.ReceiveAll | multimediacommscontroller/mmccamrpayloadformat/src/amrpayloadformatread.cpp:666-740 | for any run of payloads of coded speech and a receiver with any memory: what the receiver object hands on, frame by frame, are the frames accepted from the run, in storage form and in order, with the numbers of their places in their packets |
| Reception.ReceivePayload | multimediacommscontroller/mmccamrpayloadformat/src/amrpayloadformatread.cpp:666-740 | one payload of coded speech: exactly the frames not received before are handed on, frame i with the number of its place in the packet from its time stamp on, and exactly the accepted frames are remembered |
| Transmission.SendAndReadBack | multimediacommscontroller/mmccamrpayloadformat/src/amrpayloadformatwrite.cpp:305-451 | without loss and for any frames, comfort noise and NO_DATA included: what fresh receivers hand on of several source buffers are the frames sent, less those without data at the end of each packet; if there are none of these the octets are those of the source buffers iff all filling bits are zero, in narrow band always |
| FecRecovery.Recovery | multimediacommscontroller/mmccamrpayloadformat/src/amrpayloaddecoder.cpp:288-358 | the induction over a run, for a receiver in any state: the frames accepted are exactly the missing stretch of the stream iff every loss is covered, and never more than it |
| FecRecovery.AcceptedFromPacket | multimediacommscontroller/mmccamrpayloadformat/src/amrpayloaddecoder.cpp:290-315 | exactly which frames one packet adds, for every position of the receiver relative to it |
| FecRecovery.DuplicateAbsorbed | multimediacommscontroller/mmccamrpayloadformat/src/amrpayloaddecoder.cpp:290-323 | a packet that comes again right away yields no frame and leaves the saved frames as they are, whatever was saved before it came first |
| FecRecovery.LatePacketAcceptedAgain | multimediacommscontroller/mmccamrpayloadformat/src/amrpayloaddecoder.cpp:290-323 | limit of the detection: a packet all older than the last frame received is accepted again as a whole |
| FecRecovery.NewFramesAccepted | multimediacommscontroller/mmccamrpayloadformat/src/amrpayloaddecoder.cpp:290-300 | new frames are accepted as a whole iff none of them looks like the last one received: why distinct beginnings are needed |
| FecRecovery.DecoderAccepts | multimediacommscontroller/mmccamrpayloadformat/src/amrpayloaddecoder.cpp:288-358 | the decoder object, working on octets and bit positions, drops and keeps the frames that the run results speak about |
| RoundTrip.PackedDecodes | multimediacommscontroller/mmccamrpayloadformat/src/amrpayloadencoder.cpp:224-232 | what the encoder leaves in its buffer for a completed packet decodes to its mode request, the repeated frames when the window is full, and the new ones, without those lacking data at the end |
| RoundTrip.LeftoverDecodes | multimediacommscontroller/mmccamrpayloadformat/src/amrpayloadencoder.cpp:224-232 | so does a packet of the wrong length, with bits counted from an earlier talk spurt behind its frames |
| PayloadSpec.PayloadRoundTrip | multimediacommscontroller/mmccamrpayloadformat/src/amrpayloadencoder.cpp:414-459 | reading a written payload gives back its mode request and every frame with type, quality bit and speech bits, bandwidth-efficient (RFC 3267, section 4.3) and octet-aligned (section 4.4) |
| PayloadSpec.ParseOfPayload | multimediacommscontroller/mmccamrpayloadformat/src/amrpayloaddecoder.cpp:219-235 | the same whatever bits follow the last speech bit, as in a larger buffer |
| WireFormat.PayloadOnWire | multimediacommscontroller/mmccamrpayloadformat/src/amrpayloadencoder.cpp:414-459 | the octets of every payload as numbers: mode request, reserved bits, one entry of eight or six bits for each frame, the speech bits of each frame at its place, zeros everywhere else, and no octet too many (RFC 3267, sections 4.3 and 4.4) |
| StreamFormatter.StreamEncoder.Encode | multimediacommscontroller/mmccshared/src/streamformatter.cpp:49-103 | writes the low bits of the value at the cursor and leaves all other bits; a count outside 1..32 does nothing |
| StreamFormatter.StreamEncoder.EncodeBlock | multimediacommscontroller/mmccshared/src/streamformatter.cpp:110-158 | moves any number of bits from any position to any other; source and target may be the same buffer when the bits move towards its start |
| StreamFormatter.StreamDecoder.Decode | multimediacommscontroller/mmccshared/src/streamformatter.cpp:179-226 | returns the value of the next bits; a count outside 1..32 returns 0 without moving |
| StreamFormatter.StreamDecoder.DecodeBlock | multimediacommscontroller/mmccshared/src/streamformatter.cpp:233-282 | copies bits into another buffer and leaves its other bits |
| PayloadFields.TocEntryCoder.Encode | multimediacommscontroller/mmccamrpayloadformat/src/amrtocentry.cpp:70-88 | writes the 6-bit entry, or the 8-bit one with its padding, and nothing else |
| PayloadFields.TocEntryCoder.Decode | multimediacommscontroller/mmccamrpayloadformat/src/amrtocentryoa.cpp:98-112 | reads F, FT and Q where the specification of the table of contents finds them, and skips the padding |
| PayloadFields.HeaderCoder.Encode | multimediacommscontroller/mmccamrpayloadformat/src/amrpayloadheader.cpp:72-90 | writes the 4-bit mode request, octet-aligned with four reserved zero bits |
| PayloadFields.HeaderCoder.Decode | multimediacommscontroller/mmccamrpayloadformat/src/amrpayloadheaderoa.cpp:104-118 | reads the mode request and moves past the header |
| PayloadEncoding.PayloadEncoder.Initialize | multimediacommscontroller/mmccamrpayloadformat/src/amrpayloadencoder.cpp:103-109 | from any configured state: the copies kept are forgotten and a period starts; what had been counted of speech bits stays counted |
| PayloadEncoding.PayloadEncoder.SetChannelCount | multimediacommscontroller/mmccamrpayloadformat/src/amrpayloadencoder.cpp:364-371 | accepts 1 or 2 channels; with a buffer large enough for header and entries the encoder is then ready to collect |
| PayloadEncoding.PayloadEncoder.EncodeFrame | multimediacommscontroller/mmccamrpayloadformat/src/AmrPayloadEncoderOA.cpp:101-125 | keeps the whole collecting state through every frame; reports completion exactly at the last frame of the packet, when the buffer holds the payload of the repeated and new frames without trailing NO_DATA, or is empty when there is no data; it has the right length iff no speech bits were counted before the packet, no entry is discarded or nothing is sent |
| PayloadEncoding.PayloadEncoder.DiscardExtraNoDataFrames | multimediacommscontroller/mmccamrpayloadformat/src/amrpayloadencoder.cpp:468-541 | in-place compaction: the speech bits end up right behind the place of the entries kept, unchanged, though the stretches overlap |
| PayloadEncoding.PayloadEncoder.EncodeTableOfContents | multimediacommscontroller/mmccamrpayloadformat/src/amrpayloadencoder.cpp:639-679 | writes one entry for each frame kept, F cleared on the last one only; none when more entries are discarded than there are |
| PayloadEncoding.PayloadEncoder.Encode | multimediacommscontroller/mmccamrpayloadformat/src/amrpayloadencoder.cpp:414-459 | the payload of the packet, with any bits left over from before behind it, or length 0 iff all its frames lack data |
| PayloadEncoding.PayloadEncoder.ResetPayloadBuffer | multimediacommscontroller/mmccamrpayloadformat/src/amrpayloadencoder.cpp:292-357 | from every completed packet back to the collecting state, with all frames of the packet now in the past; from any other state the same shift of the slots |
| PayloadEncoding.PayloadEncoder.WindowHeld | multimediacommscontroller/mmccamrpayloadformat/src/amrpayloadencoder.cpp:292-345 | window invariant: between packets the copies are exactly those of the last min(r, N) of the N frames so far, in order, and the slots describe and point at the same frames, also when r exceeds the packet |
| PayloadEncoding.PayloadEncoder.IndexWithin | multimediacommscontroller/mmccamrpayloadformat/src/amrpayloadencoder.cpp:223-255 | between calls redCount <= frameIndex < redCount + frameCount <= 50: the next frame always has a slot |
| PayloadEncoding.PayloadEncoder.ReEncodeFrame | multimediacommscontroller/mmccamrpayloadformat/src/amrpayloadencoder.cpp:558-622 | flush, in every collecting state: false iff nothing is collected; otherwise the exact bits it leaves, for any count of discarded entries; these are the payload of the frames iff, with all entries, the bits found are their speech bits, or, with none, entries and speech bits together; with the speech bits in place, iff the count is zero |
| PayloadEncoding.PayloadEncoder.FlushStartIs | multimediacommscontroller/mmccamrpayloadformat/src/amrpayloadencoder.cpp:581-585 | the flush looks for the speech bits in the right place iff there is no redundancy or the window is full |
| FlushSpec.FlushExact | multimediacommscontroller/mmccamrpayloadformat/src/amrpayloadencoder.cpp:573-660 | for every discard count and all bits found, when the flushed payload is that of the frames |
| FlushSpec.FlushLosesFrames | multimediacommscontroller/mmccamrpayloadformat/src/amrpayloadencoder.cpp:653-660 | a flush with any discard count left over reads back as the frames collected iff the count is 0 |
| FlushSpec.FlushNeedsBody | multimediacommscontroller/mmccamrpayloadformat/src/amrpayloadencoder.cpp:579-610 | a flush with all entries reads back as the frames collected iff the bits behind the entries are their speech bits |
| PayloadEncoding.FlushBufferFits | multimediacommscontroller/mmccamrpayloadformat/src/amrpayloadencoder.cpp:587-594 | the temporary buffer, its size cast to one octet, has room for the speech bits iff they take at most 255 octets |
| PayloadEncoding.FlushBufferTooSmall | multimediacommscontroller/mmccamrpayloadformat/src/amrpayloadencoder.cpp:587-594 | nine frames of 12.2 kbit/s, less than half a packet, are already too many |
| EncoderSpec.SavedWhole | multimediacommscontroller/mmccamrpayloadformat/src/amrpayloadencoder.cpp:237-241 | once a packet is complete the saved frames are the last r of all frames, for packets shorter and longer than the window |
| EncoderSpec.RunOfPacket | multimediacommscontroller/mmccamrpayloadformat/src/amrpayloadencoder.cpp:481-516 | the run of NO_DATA counted over all slots is no longer than the packet, so that the speech is moved to a place inside it, iff the packet can be finished: the window is full, or the new frames are not all without data, or the slot before them has data; the run is then the one at the end of the packet |
| FirstPackets.RestartAndSend | multimediacommscontroller/mmccamrpayloadformat/src/amrpayloadformatwrite.cpp:774-890 | a pause or a stop at any time, a new start and any number of source buffers: the run goes on as described for any run, and its payloads are those of the stream iff no packet is complete yet, no speech bits were left counted, no entry is discarded from the first packet, or that packet is withheld |
| FirstPackets.RestartAndFlush | multimediacommscontroller/mmccamrpayloadformat/src/amrpayloadformatwrite.cpp:774-890 | a pause or a stop, a new start, frames collected and flushed: the exact bits and when they are the payload of the frames; without redundancy, if the last packet before ended with data or no speech bits were left counted, iff both hold |
| FirstPackets.FlushFirstFrame | multimediacommscontroller/mmccamrpayloadformat/src/amrpayloadformatwrite.cpp:455-475 | a run from configuration to delivery: the first frame, flushed before its packet is complete, is not what a reader gets |
| PayloadDecoding.PayloadDecoder.DecodePayload | multimediacommscontroller/mmccamrpayloadformat/src/amrpayloaddecoder.cpp:124-134 | all of decoding a payload, whatever types its frames have: mode request, which frames are left, where they are, time stamp modulo 2^32, and the frames saved; after a frame without data the first entry without data is the last one dropped, and none is dropped iff there is none; after any other frame it is the first one with the same first six octets |
| PayloadDecoding.PayloadDecoder.DecodeTableOfContents | multimediacommscontroller/mmccamrpayloadformat/src/amrpayloaddecoder.cpp:385-416 | as many slots as entries, with their types and quality bits, channels in turn |
| PayloadDecoding.PayloadDecoder.CalculateFramePosition | multimediacommscontroller/mmccamrpayloadformat/src/amrpayloaddecoder.cpp:423-458 | each slot points at the first speech bit of its frame |
| PayloadDecoding.PayloadDecoder.CompareBuffers | multimediacommscontroller/mmccamrpayloadformat/src/amrpayloaddecoder.cpp:167-207 | against an empty copy: true iff the frame has no data; against any other: true iff it has data and the first six octets, or all of a shorter copy, are the same |
| PayloadDecoding.FirstAlike | multimediacommscontroller/mmccamrpayloadformat/src/amrpayloaddecoder.cpp:167-207 | for packets of any mix of frame types: frame d - 1 is the first one like the copy kept last when d > 0 frames are dropped, a frame without data iff that copy is empty, and there is no such frame when none is dropped |
| PayloadDecoding.CopyOctets | multimediacommscontroller/mmccamrpayloadformat/src/amrpayloaddecoder.cpp:325-357 | a copy has room for its speech bits and one bit more, so that five octets of narrow-band and six of wide-band comfort noise are compared |
| PayloadDecoding.PayloadDecoder.DropReceived | multimediacommscontroller/mmccamrpayloadformat/src/amrpayloaddecoder.cpp:288-315 | drops the frames up to the first that looks like the last one received, moves the rest to the front and corrects the time stamp |
| PayloadDecoding.SkipIsDrop | multimediacommscontroller/mmccamrpayloadformat/src/amrpayloaddecoder.cpp:288-300 | for coded speech the octets compared are the first 48 speech bits of the frames, wherever they lie |
| CommonUtil.FrameInfo | multimediacommscontroller/mmccamrpayloadformat/src/amrcommonutil.cpp:72-122 | length and bit rate of the frame at a position, 0 iff the header padding is not clean, the type has no storage form or the checked filling bits are not zero |
| WireFormat.FrameLengthIs | multimediacommscontroller/mmccamrpayloadformat/src/amrcommonutil.cpp:72-122 | the frame checker said without its tables: which octets start a frame, from the numbers in the header octet, the speech-bit count of the type and the remainder of the last octet, for every octet string and both formats, cut off or not |
| CommonUtil.SeekSync | multimediacommscontroller/mmccamrpayloadformat/src/amrcommonutil.cpp:138-179 | terminates at the least position in sync, or at the end of the buffer iff there is none |
| CommonUtil.ThreeFrames | multimediacommscontroller/mmccamrpayloadformat/src/amrcommonutil.cpp:138-179 | in sync means that three frames follow each other right away, as far as the buffer goes |
| StorageFormat.TablesAgree | multimediacommscontroller/mmccamrpayloadformat/src/amrcommonutil.cpp:31-49 | length, stuffing and speech-bit tables fit together for every type; checked are exactly the filling bits in narrow band, the last bit of mode 6.60 and the last four of mode 8.85 in wide band, and no others |
| AmrTypes.SpeechRates | multimediacommscontroller/mmccamrpayloadformat/inc/amrpayloadformatter.h:98-122 | the bit counts against the independent table of bit rates: fifty frames of each speech mode carry exactly its bit rate, 4750 to 12200 and 6600 to 23850; comfort noise has 39 and 40 bits, other types none |
| StorageFormat.StorableTypes | multimediacommscontroller/mmccamrpayloadformat/src/amrcommonutil.cpp:31-49 | exactly coded speech, comfort noise and no data have a storage form |
| StorageFormat.ParserAcceptsPrinter | multimediacommscontroller/mmccamrpayloadformat/src/amrcommonutil.cpp:72-122 | the frame checker accepts every frame in storage form, whatever follows, finds its length and reads it back |
| WireFormat.StorageOnWire | multimediacommscontroller/mmccamrpayloadformat/src/amrpayloadformatread.cpp:317-341 | the octets of a frame in storage form as numbers |
| StorageFormat.WidebandFillingUnchecked | multimediacommscontroller/mmccamrpayloadformat/src/amrcommonutil.cpp:46-49 | in wide band a frame of any speech mode with a set bit right behind its speech bits is accepted and does not come back |
| StorageFormat.StorageIsFound | multimediacommscontroller/mmccamrpayloadformat/src/amrpayloadformatread.cpp:317-341 | frames rebuilt one after the other are found again with the same boundaries |
| StorageFormat.FoundIsStorage | multimediacommscontroller/mmccamrpayloadformat/src/amrpayloadformatwrite.cpp:305-372 | whole frames are their own storage form iff all filling is zero; in narrow band always |
| WireFormat.FoundNext | multimediacommscontroller/mmccamrpayloadformat/src/amrpayloadformatwrite.cpp:383-424 | an octet that starts no frame is a frame without data iff its type says so, whatever its other bits, and otherwise ends the run |
| Capacity.CollectingFits | multimediacommscontroller/mmccamrpayloadformat/src/amrpayloadformatwrite.cpp:815-816 | every bit position written while collecting lies in a payload of the size allocated, bandwidth-efficient with any redundancy and octet-aligned without |
| Capacity.PayloadFits | multimediacommscontroller/mmccamrpayloadformat/src/amrpayloadformatwrite.cpp:815-816 | so does the completed payload, padding included |
| FormatWrite.PayloadFormatWrite.constructor | multimediacommscontroller/mmccamrpayloadformat/src/amrpayloadformatwrite.cpp:807-838 | a configured encoder with a payload of the size allocated is ready to collect, with nothing left over, no mode asked for and no bit rate in use |
| FormatWrite.PayloadFormatWrite.ProcessFrames | multimediacommscontroller/mmccamrpayloadformat/src/amrpayloadformatwrite.cpp:287-457 | terminates; in any run, also one that started with something left over, encodes exactly the frames found in the buffer and counts them modulo 2^32; over any series of buffers everything delivered is the payloads of the completed packets of the whole stream, in order, with the mode request in force at each packet end; only the first can be another one, and then reads the same; the mode requests stay right for their frames |
| WireFormat.SinkRequests | multimediacommscontroller/mmccamrpayloadformat/src/amrpayloadformatwrite.cpp:335-354 | what goes out as mode request with each packet given to the sink, read from its first octet: the mode of the last frame of the packet when it is coded speech, 15 when it is comfort noise or a frame without data that passed the frame checker, and otherwise what was asked for with the frame before |
| WireFormat.SinkOnWire | multimediacommscontroller/mmccamrpayloadformat/src/amrpayloadformatwrite.cpp:486-522 | the octets the sink is given, as numbers, for every packet of a run, but for the first one when something was left over |
| WireFormat.SinkReads | multimediacommscontroller/mmccamrpayloadformat/src/amrpayloadformatwrite.cpp:486-522 | every packet given to the sink, the first one too, reads as the mode request and the frames of one packet of the stream, less those without data at its end |
| FormatWrite.PayloadFormatWrite.DeliverPacket | multimediacommscontroller/mmccamrpayloadformat/src/amrpayloadformatwrite.cpp:486-522 | a packet is given to the sink, with its octets and with the marker iff the flag was cleared right before it, unless it is empty; the run goes on |
| FormatWrite.PayloadFormatWrite.EmptyBuffer | multimediacommscontroller/mmccamrpayloadformat/src/amrpayloadformatwrite.cpp:530-587 | a source buffer arrives: the next packet is to carry the marker iff the time stamp comes from the clock and the clock took it from the time gone by; the run goes on |
| FormatWrite.PayloadFormatWrite.MarkerOnFirst | multimediacommscontroller/mmccamrpayloadformat/src/amrpayloadformatwrite.cpp:491-517 | a packet given to the sink carries the marker iff it is the first one completed since the start of the talk spurt or since the flag was last cleared |
| FormatWrite.PayloadFormatWrite.MarkerLost | multimediacommscontroller/mmccamrpayloadformat/src/amrpayloadformatwrite.cpp:491-517 | for each time the flag is cleared, some packet given to the sink has the marker for it iff the next packet completed is not withheld for lack of data |
| FormatWrite.PayloadFormatWrite.FlushRest | multimediacommscontroller/mmccamrpayloadformat/src/amrpayloadformatwrite.cpp:455-475 | delivers something iff a packet has been begun, and then exactly one payload, of exactly known bits, with the exact condition for it to be that of the frames collected; with the window unused or full and nothing left counted, iff the packet before ended with data; the encoder can then be stopped and started again |
| FormatWrite.PayloadFormatWrite.FlushWithin | multimediacommscontroller/mmccamrpayloadformat/src/amrpayloadencoder.cpp:587-602 | with nothing left counted a flush never leaves the payload buffer; its temporary buffer suffices iff at most 255 octets of speech are collected |
| FormatWrite.PayloadFormatWrite.RoomIsThere | multimediacommscontroller/mmccamrpayloadformat/src/amrpayloadformatwrite.cpp:815-816 | with the size allocated no frame that fits ever finds the payload too small |
| FormatWrite.PayloadFormatWrite.CancelUlRequest | multimediacommscontroller/mmccamrpayloadformat/src/amrpayloadformatwrite.cpp:774-790 | in any configured state: what has been collected is given up and the slots are shifted as after a packet; nothing else is cleared |
| FormatWrite.PayloadFormatWrite.SinkStop | multimediacommscontroller/mmccamrpayloadformat/src/amrpayloadformatwrite.cpp:856-890 | a stop, with what has been collected delivered or given up: what is left counted, and that the slots in front of a packet and at its end have data iff the last packet ended with data |
| FormatWrite.PayloadFormatWrite.SinkPlay | multimediacommscontroller/mmccamrpayloadformat/src/amrpayloadformatwrite.cpp:807-838 | in any configured state: a new buffer and a new stream, with what was counted still counted |
| FormatWrite.PayloadFormatWrite.Restart | multimediacommscontroller/mmccamrpayloadformat/src/amrpayloadformatwrite.cpp:774-890 | a pause, or a stop that delivers what has been collected, and a new start, at any time: the run goes on with exactly known leftovers; after a stop there are none iff the last packet ended with data, whatever had been collected, after a pause iff besides no speech had been collected |
| FormatWrite.SendBuffers | multimediacommscontroller/mmccamrpayloadformat/src/amrpayloadformatwrite.cpp:530-611 | any number of source buffers, one after the other, with any time stamps from the clock: the stream grows by exactly the frames found in them and the run goes on |
| SendSpec.SentHasData | multimediacommscontroller/mmccamrpayloadformat/src/amrpayloadformatwrite.cpp:506-517 | a packet is among those sent iff one of its frames has data |
| SendSpec.EveryStreamCompletable | multimediacommscontroller/mmccamrpayloadformat/src/amrpayloadencoder.cpp:481-516 | with no more repeated than new frames in a packet every stream can be sent, but for a first packet without data behind a slot without data |
| SendSpec.SilenceNotCompletable | multimediacommscontroller/mmccamrpayloadformat/src/amrpayloadencoder.cpp:481-516 | with more, no stream that starts with two packets of NO_DATA frames can |
| FirstPackets.SilentStart | multimediacommscontroller/mmccamrpayloadformat/src/amrpayloadencoder.cpp:468-516 | a run of the encoder from its construction: two NO_DATA frames, one in a packet, two repeated; more entries are discarded from the second packet than it has |
| FormatWrite.PayloadFormatWrite.IsBitrateChangeValid | multimediacommscontroller/mmccamrpayloadformat/src/amrpayloadformatwrite.cpp:719-766 | in any state, with distinct modes: accepted iff it is the first accepted or the counter is a multiple of the period, the rate is in the mode set, and the rate in use is not, or steps are free, or the two stand next to each other, up or down; the rate in use changes iff accepted; until a first one is accepted the counter is set to 0 |
| ModeRun.MakeCalls | multimediacommscontroller/mmccamrpayloadformat/src/amrpayloadformatwrite.cpp:287-457 | over the object, for any series of source buffers and requests: the requests answered with yes are the changes of the run; each answer follows from the frames found since the first accepted request and the rate of the last one; for the periods that can be configured, the frames between any two changes are a multiple of the period |
| ModeChange.RequestInRun | multimediacommscontroller/mmccamrpayloadformat/src/amrpayloadformatwrite.cpp:719-766 | completeness over runs: a request anywhere in a run is among the changes, at its time, iff it is the first accepted or comes a multiple of the period after that one modulo 2^32, and its rate is in the mode set and next to the one in use where steps are required |
| ModeChange.ChangesOfConcat | multimediacommscontroller/mmccamrpayloadformat/src/amrpayloadformatwrite.cpp:719-766 | a run in two parts makes the changes of both, the second from the state left by the first |
| ModeChange.ChangesFollow | multimediacommscontroller/mmccamrpayloadformat/src/amrpayloadformatwrite.cpp:738-757 | every accepted bit rate of every run is in the mode set and may follow the one before |
| ModeChange.ChangesAreSteps | multimediacommscontroller/mmccamrpayloadformat/src/amrpayloadformatwrite.cpp:753-757 | with neighbour steps required each accepted change moves exactly one step in the mode set |
| ModeChange.ChangeDiscipline | multimediacommscontroller/mmccamrpayloadformat/src/amrpayloadformatwrite.cpp:726-736 | for the periods that can be configured, any two accepted changes of any run lie a multiple of the period apart, however long the run |
| ModeChange.ChangeDistance | multimediacommscontroller/mmccamrpayloadformat/src/amrpayloadformatwrite.cpp:726-736 | for any period, the distance from the first change is a multiple of it iff the wrapping of the 32-bit counter does not show in it |
| FormatRead.PayloadFormatRead.DoRead | multimediacommscontroller/mmccamrpayloadformat/src/amrpayloadformatread.cpp:267-373 | appends the current frame in storage form to the buffer and nothing else; true iff it was the last |
| FormatRead.PayloadFormatRead.FillSinkBuffer | multimediacommscontroller/mmccamrpayloadformat/src/amrpayloadformatread.cpp:380-447 | one frame more in the current buffer, numbered by its place; none when no frame was accepted |
| FormatRead.PayloadFormatRead.SendDataToSink | multimediacommscontroller/mmccamrpayloadformat/src/amrpayloadformatread.cpp:468-508 | hands on the octets and the frame number of the current buffer and turns to the other one; true iff more frames are to be read |
| FormatRead.PayloadFormatRead.ReadPacket | multimediacommscontroller/mmccamrpayloadformat/src/amrpayloadformatread.cpp:380-508 | all frames accepted from a payload are handed on, one by one and in order, in storage form, frame i with the number of its place; nothing is then left to read |
| FormatRead.PayloadFormatRead.DataBufferFilled | multimediacommscontroller/mmccamrpayloadformat/src/amrpayloadformatread.cpp:666-740 | the frames accepted from a packet, its corrected time stamp, and a mode change iff another mode is requested, which 15 never is |
| AnyFormatRead.AnyPayloadFormatRead.BufferFilled | multimediacommscontroller/mmccanypayloadformat/src/anypayloadformatread.cpp:388-444 | a packet that is not empty is refused iff both buffers are in use, and otherwise joins the queue at its end and, if nothing was held, is due for delivery; the packet being handed on is not touched |
| AnyFormatRead.AnyPayloadFormatRead.FillBuffer | multimediacommscontroller/mmccanypayloadformat/src/anypayloadformatread.cpp:154-192 | the queue stays as it is, unless the buffer returned was not delivered yet: then exactly its packet is given up; the next packet waiting is due for delivery |
| AnyFormatRead.AnyPayloadFormatRead.RunL | multimediacommscontroller/mmccanypayloadformat/src/anypayloadformatread.cpp:199-233 | steps of the state machine hand on the current buffer, which is the head of the queue |
| AnyFormatRead.AnyPayloadFormatRead.RunUntilIdle | multimediacommscontroller/mmccanypayloadformat/src/anypayloadformatread.cpp:199-233 | the packet held is handed on iff it has not been yet, exactly once, and the state machine then rests |
| AnyFormatRead.AnyPayloadFormatRead.Drain | multimediacommscontroller/mmccanypayloadformat/src/anypayloadformatread.cpp:154-233 | when the consumer returns each buffer after its delivery, everything that waits is delivered in order and nothing more is given up; everything ever accepted has then been delivered iff no packet was given up before |
| AnyFormatRead.AnyPayloadFormatRead.CancelDlRequest | multimediacommscontroller/mmccanypayloadformat/src/anypayloadformatread.cpp:472-491 | empties the queue |
| AnyFormatRead.AnyPayloadFormatRead.CreateSourceBuffer | multimediacommscontroller/mmccanypayloadformat/src/anypayloadformatread.cpp:241-252 | hands out the first buffer; the queue is kept when that buffer is the current one or nothing is held and no step is due; otherwise exactly what then waits |
| AnyFormatRead.AnyPayloadFormatRead.FirstInFirstOut | multimediacommscontroller/mmccanypayloadformat/src/anypayloadformatread.cpp:168-191 | over every interleaving what is delivered, and then what waits, is in order of arrival and without repetition, and is everything accepted iff no packet was given up |

## Left out

- Octet-aligned packets with redundancy, with trailing NO_DATA frames or flushed: the code uses bandwidth-efficient positions there.
- EncodeFrame: packets that cannot be finished, and octet-aligned packets that end with NO_DATA, are excluded; the code writes in front of the payload, or at positions of the other format.
- ProcessFrames: frames cut off at the end of a source buffer, where the code reads past the data, are excluded, and so are packets that cannot be finished and leftover bits that do not lie within the buffer when they are moved.
- ProcessFrame: frames cut off at the end of a source buffer are excluded, as for ProcessFrames.
- RestartAndSend: excludes what ProcessFrames excludes.
- RestartAndFlush: for packets of the bandwidth-efficient format and at most 255 octets of speech, which must lie within the buffer together with the bits still counted, or the code reads past it.
- ReEncodeFrame: more than 255 octets of speech, which overflow the temporary buffer, are excluded; with redundancy the window left behind by a flush is not described, because the talk spurt ends there and the next one starts over.
- FlushRest: more than 255 octets of speech are excluded, as for ReEncodeFrame.
- Transmit: for coded speech; comfort-noise frames, which have fewer than the 48 bits compared, and frames without data are covered by SendAndReadBack without loss and by the contract of DecodePayload; source buffers with a cut-off frame are excluded.
- ReceiveAll: for coded speech, as Transmit.
- ReceivePayload: for coded speech, as Transmit.
- DecodePayload: a payload whose table of contents does not end or whose speech bits are missing, on which the code reads without checking, and a shift beyond the 50 slots are excluded.
- DecodeTableOfContents: a table of contents that does not end in the payload is excluded.
- DataBufferFilled: malformed payloads are excluded, as for DecodePayload.
- PayloadFormatWrite.constructor: the octet-aligned format with redundancy is excluded.
- MakeCalls: frames cut off and packets that cannot be finished are excluded, as for ProcessFrames; the check that a requested bit rate differs from the one in use, made by its caller, is not part of this model.
- SinkOnWire: the first packet when speech bits were left over is excluded; RestartAndSend and SinkReads say what it is.
- TicksOf: the multiplication by 0.001 in floating point is an exact division by 1000 here.
- Two channels on the receiving side: its channel count is one throughout.
- Allocation failures and leaves, thread logon, transport, sockets, the RTP media clock, statistics and tracing.
- The active scheduler beyond the order of steps of the decoding state machine; the encoding state machine, which only orders calls.
- Generic redundancy and configuration parsing.
- Buffer ownership and re-creation on reconfiguration.
