# Picoo verification

A Dafny model of the parts of Picoo whose correctness is hard to see by reading: the bitstream layer that reads,
rewrites and reframes H.264, the hand-offs that carry frames between threads, the NV12 orientation transform, the
virtual camera's clock and sink, and the date shown for a paired device. `dafny verify dfyconfig.toml` checks all of it.

Code that changes state is modelled by classes and methods with the same fields, branches and limits; each is proved
against a specification function, and the properties are proved of those functions. Concurrent components are state
machines: every locked section is one atomic step, a run is any finite list of steps, and the theorems hold of every run.

* **Bitstream** (`BitReader`, `Rbsp`, `SpsSyntax`, `SpsLocality`, `SpsPrinting`, `AvcFacts`, `AvcVui`, `AccessUnits`,
  `CodedPictures`, `AvcFraming`, `Misreadings`, `Configurations`, `RecordBounds`). `SpsSyntax` is an independent parser
  of the sequence parameter set, written from sections 7.3.2.1.1, E.1.1 and E.1.2 of ITU-T H.264; `SpsPrinting` prints
  the same syntax and proves the two inverse. The BT.709 rewrite is held to it: every syntax element but
  `video_signal_type` is unchanged, so the adapter's own check at the end never rejects. The facts of an SPS are stated
  in its syntax elements, and the verdict on a picture in the bytes of its units. Both Annex-B splitters, both
  framings, alignment with committed parameter sets, and the readers of the avcC and hvcC records are related to one
  layout each.
* **Frame hub** (`FrameBuses`, `FrameBufferPools`, `Nv12`). What a subscription delivers is a prefix of what was
  published; the pool conserves storage; the transform is the dihedral action on whole colours.
* **macOS extension** (`OutputSampleClocks`, `CameraSinks`). The clock's split 64-bit arithmetic is exact and does not
  drift; the sink's consume loops are neither doubled nor lost, and no sample of an older generation is prepared.
* **Hand-offs** (`EncoderEventBuffers`, `PreviewPipelines`) and **dates** (`CivilDates`).

Five facts the model establishes that the code's own comments do not say:

* a length-prefixed access unit is taken for Annex-B exactly when its first length is 1 or in 256..511;
* alignment always writes four-byte lengths, so a result of a configuration with lengths of one or two bytes parses
  under its own framing exactly when nothing was replaced; in Annex-B the units survive exactly when nothing was
  replaced or the committed SPS holds no start code and does not end in zero;
* results that keep their framing are fixed points except for one kind of configuration: AVC with four-byte lengths and
  a single committed BT.709 SPS of 256 to 511 bytes which, read as Annex-B behind its low length byte, opens a picture.
  For an SPS without start codes that says only that the low length byte is the header of a unit other than a slice.
  There, and only there, such a result can be taken for Annex-B and refused;
* the encoder's buffer holds up to one event more than its capacity, and a native marker that flushes queued units lets
  the next dependent unit through without its predecessor, announced only by that marker;
* the header walk of the SPS rewriter covers seven of the profiles that carry chroma information; on each of the six
  later ones it loses its place, and a slice behind it can panic. Its only caller admits profile 100 alone.

## Model

The first forty-eight rows are the main results; the lemmas they rest on follow, and then the operations, each tied to its
specification.

| member | source | states |
|---|---|---|
| AvcVui.EnsureBt709Limited | crates/picoo-bitstream/src/avc_vui.rs:16-67 | for every input: exactly when a slice panics, which inputs are returned or refused outright, and that any other SPS returned presents the same source as BT.709 without a start code; except on the later profiles a rewrite keeps all syntax but the signal type, the check at the end never rejects, and the one extra refusal is the 64 KiB limit, impossible up to 43680 bytes |
| AvcVui.ProfilesWalkedRight | crates/picoo-bitstream/src/avc_vui.rs:129-179 | all SPS of a profile that should be walked are, in any bytes, walked to their flag if and only if the profile is not one of the six later ones |
| AvcVui.PanicsExactly | crates/picoo-bitstream/src/avc_vui.rs:69-102 | some SPS of a profile makes the rewrite panic if and only if the profile is one of those six |
| AvcVui.BitsSurvive | crates/picoo-bitstream/src/avc_vui.rs:204-337 | any bit string, packed, escaped, unescaped and unpacked, is there up to its stop bit |
| SpsPrinting.ParsesExactly | crates/picoo-bitstream/src/avc_facts.rs:117-120 | an RBSP parses to an SPS exactly when that is well formed and its bits, printed element by element, stand before the stop bit: parsing and printing are inverse on the whole syntax |
| AvcFacts.ParseAvcExactly | crates/picoo-bitstream/src/avc_facts.rs:16-115 | an SPS has facts exactly when it is progressive 4:2:0 of 8 bits, at most 8192 each way, not cropped away, of a known aspect and chroma location; coded sizes are 16 (n + 1), visible ones less twice the crop offsets, with the ratio of Table E-1 and the colour codes |
| AccessUnits.AnnexBSplitsExactly | crates/picoo-bitstream/src/access_unit.rs:129-175 | within the limits, splitting Annex-B succeeds with units n exactly when the input is 0* (00 00 01 n 0*)+ with every n non-empty, not ending in 0 and free of 00 00 01 |
| CodedPictures.InspectExactly | crates/picoo-bitstream/src/access_unit.rs:177-266 | in bytes, for both codecs: accepted exactly when all headers are valid and the slices are some, of one type, the first and only it marked as first, all showing the reported picture: IDR, CRA, RASL, RADL or trailing by slice type, and discardable or not |
| Wire.CanonicalIsIdempotent | crates/picoo-bitstream/src/wire.rs:9-20 | the wire form carries the same picture and is its own wire form |
| AvcFraming.SplittersAgree | crates/picoo-bitstream/src/avc.rs:4-32 | whenever the bounded splitter succeeds, this one yields the same units up to trailing zeros |
| AvcFraming.RecognisedExactly | crates/picoo-bitstream/src/avc.rs:50-74 | written plausible units are recognised exactly when the first length is not one of those |
| AvcFraming.ConvertersAreInverse | crates/picoo-bitstream/src/avc.rs:77-105 | on units free of 00 00 01 with an unambiguous first length the converters undo each other |
| Configurations.AlignmentKeepsThePicture | crates/picoo-bitstream/src/configuration.rs:318-403 | for every framing: a result reads back as the same picture and unit count, with only SPS aligned and every parameter set committed, if and only if nothing was replaced, or the framing is four-byte lengths, or Annex-B with an SPS safe in it; other lengths do not parse; a result that reads back is a fixed point unless the committed SPS is misreadable |
| Configurations.KeptExactly | crates/picoo-bitstream/src/configuration.rs:318-410 | every result of a configuration reads back if and only if it replaces nothing, being other than AVC with a single BT.709 SPS, or has four-byte lengths and an SPS that is safe in Annex-B |
| Configurations.StableExactly | crates/picoo-bitstream/src/configuration.rs:318-403 | alignment is a fixed point on every result that keeps its framing if and only if the configuration is not misreadable: AVC, four-byte lengths and a single BT.709 SPS of 256 to 511 bytes that, behind its low length byte, opens an Annex-B picture |
| Configurations.ReplaceableExactly | crates/picoo-bitstream/src/configuration.rs:366-403 | an in-band SPS is replaced exactly by a single committed one of the same size in macroblocks, crop, sample aspect and chroma location that says limited BT.709, when it says no colour itself |
| RecordBounds.AdmittedRecordsExtract | crates/picoo-bitstream/src/avc.rs:159-204 | an admitted avcC record is a written one of at most 64 sets, and extraction takes the first written set of each kind, exactly for version 1 with both kinds present |
| RecordBounds.HvcScanAdmits | crates/picoo-bitstream/src/configuration.rs:434-455 | an hvcC record is admitted exactly when at most three arrays of VPS, SPS or PPS, at most 64 sets in all, stand behind its 23 header bytes and fill it |
| FrameBuses.DeliversAPrefix | crates/picoo-frame-hub/src/frame_bus.rs:66-243 | over every interleaving delivered frames are a prefix of those published since subscribing; nothing queued is lost or repeated, and the queue never exceeds eight |
| FrameBuses.OneLiveSubscription | crates/picoo-frame-hub/src/frame_bus.rs:143-165 | at most one subscription accepts |
| FrameBuses.CutoffIsFinal | crates/picoo-frame-hub/src/frame_bus.rs:36-48 | after a close nothing enters; a normal end means all admitted frames were delivered; the only failure left is an expired frame |
| FrameBuses.DrainsToNormalEnd | crates/picoo-frame-hub/src/frame_bus.rs:36-117 | over every run, once a subscription without an end is closed, polls in time and in number deliver all that was admitted and end normally, whatever publications, resets, drops and other subscriptions come between |
| FrameBuses.PublishedFramesArrive | crates/picoo-frame-hub/src/frame_bus.rs:74-220 | over every run a frame published to a live subscription behind n others has been delivered after n + 1 polls, whatever comes between, unless the subscription has ended by then |
| FrameBuses.FailuresAreFinal | crates/picoo-frame-hub/src/frame_bus.rs:78-82 | the first error is answered unchanged for ever |
| FrameBuses.FallbacksAreUnreachable | crates/picoo-frame-hub/src/frame_bus.rs:83-113 | every error answered is the recorded end; neither fallback is taken |
| FrameBufferPools.StorageIsConserved | crates/picoo-frame-hub/src/frame_buffer_pool.rs:73-220 | over every run retained bytes are the retained capacities, within both limits; every allocation is leased, retained, discarded, cleared or gone with the pool; every checkout allocates or reuses |
| FrameBufferPools.NoStorageIsShared | crates/picoo-frame-hub/src/frame_buffer_pool.rs:73-220 | no storage is owned twice by leases and pool |
| FrameBufferPools.ClearIsFinal | crates/picoo-frame-hub/src/frame_buffer_pool.rs:105-115 | storage leased or retained before a clear is never in the pool after it |
| Nv12.PixelsMove | crates/picoo-frame-hub/src/nv12.rs:87-236 | each output colour (Y, U, V) is the colour of one source point: 2x2 blocks stay over their own pair |
| Nv12.PixelsArePlaced | crates/picoo-frame-hub/src/nv12.rs:40-236 | every source pixel is shown where a clockwise rotation by the nearest right angle, then a mirroring, puts it; the output has the turned size and is compact unless nothing is to be done |
| Nv12.TransformsCompose | crates/picoo-frame-hub/src/nv12.rs:40-63 | a transform after a transform shows the one that composes them in the dihedral group, a mirroring reversing the later rotation |
| Nv12.TransformIsUndone | crates/picoo-frame-hub/src/nv12.rs:40-63 | every transform has an inverse |
| Nv12.PaddingIsInvisible | crates/picoo-frame-hub/src/nv12.rs:87-175 | frames that look alike transform alike whatever their strides, to the byte when transformed |
| OutputSampleClocks.PresentationsAreSpaced | extensions/macos-camera-extension/OutputSampleClock.swift:16-40 | over every run until an overflow is reported, each tick is at least one period of its rate after every earlier tick |
| OutputSampleClocks.NoDrift | extensions/macos-camera-extension/OutputSampleClock.swift:26-39 | at one rate ticks and skipped slots account for every slot, and the last presentation is the anchor plus their exact time |
| OutputSampleClocks.DueFromDeadline | extensions/macos-camera-extension/OutputSampleClock.swift:26-38 | a call has something to report exactly from nextDeadline on; at it, the next slot with nothing skipped |
| CameraSinks.OneConsumePerClient | extensions/macos-camera-extension/PicooCameraSink.swift:142-198 | over every interleaving exactly the pending clients have a consume outstanding, one each |
| CameraSinks.LoopsAreNeverLost | extensions/macos-camera-extension/PicooCameraSink.swift:92-198 | while demanded and started, every client the latest transition tried has a consume outstanding or a task of the current generation that will start one |
| CameraSinks.WantedSinksConsume | extensions/macos-camera-extension/PicooCameraSink.swift:91-140 | over every run a start under demand, or a demand raised while started, consumes for all the clients it is given, and when it is over each of them has a consume outstanding or a task that will start one |
| CameraSinks.NoStaleSample | extensions/macos-camera-extension/PicooCameraProvider.swift:256-299 | once an invalidation has run, no sample of an older generation is ever prepared |
| EncoderEventBuffers.DeliveredUnitsAreUsable | apps/ios/PicooCamera/VideoEncoder.swift:116-187 | over every run units come in submission order, and each delta unit right after its predecessor or behind a marker that follows every unit delivered before it |
| EncoderEventBuffers.UnbrokenDeliveryFollows | apps/ios/PicooCamera/VideoEncoder.swift:136-167 | while no native marker flushes queued units, every delta unit directly follows its predecessor |
| EncoderEventBuffers.BrokenDeliverySkips | apps/ios/PicooCamera/VideoEncoder.swift:160-165 | after any such flush the next delta unit is delivered without its predecessor |
| PreviewPipelines.PreviewsAreFresh | apps/desktop/src/preview_pipeline.rs:202-326 | over every interleaving each preview taken was submitted after the latest invalidation, and sequences taken between invalidations strictly increase |
| PreviewPipelines.NoBurst | apps/desktop/src/preview_pipeline.rs:126-158 | any n + 1 accepted polls span more than n - 1 intervals, after however long a pause |
| CivilDates.FormatLastConnectedMs | apps/desktop/src/receiver_runtime.rs:789-806 | an em dash for zero; for every other 64-bit time a padded text that spells the valid Gregorian date whose calendar count from 1970-01-01 is the day of that time |
| CivilDates.EveryDateIsReached | apps/desktop/src/receiver_runtime.rs:789-806 | every date from 1970 on is the date of its calendar count |
| CivilDates.LaterDaysLaterDates | apps/desktop/src/receiver_runtime.rs:789-806 | later days give lexicographically later dates, and only they |
| BitReader.UeInverts | crates/picoo-bitstream/src/avc_vui.rs:282-295 | reading ue(v) at a position yields v exactly when the section 9.1 code of v stands there and v is at most 2^32 - 2; the cursor then stands after the code |
| BitReader.SeInverts | crates/picoo-bitstream/src/avc_vui.rs:297-301 | the same, position included, for se(v) and the section 9.1.1 mapping, over the whole symmetric signed 32-bit range |
| Rbsp.UnescapeInvertsEscape | crates/picoo-bitstream/src/avc_vui.rs:204-217 | removing emulation prevention undoes adding it, whatever zeros came before |
| Rbsp.EncodedNal | crates/picoo-bitstream/src/avc_vui.rs:204-217 | the encoded unit decodes to the RBSP and holds no 00 00 00, 00 00 01 or 00 00 02 after the header |
| Rbsp.EscapeGrowth | crates/picoo-bitstream/src/avc_vui.rs:204-217 | escaping adds at most one byte for every two |
| Rbsp.EncodedNalIsSafe | crates/picoo-bitstream/src/avc_vui.rs:204-217 | an encoded unit with a stop bit survives Annex-B framing |
| SpsLocality.TailMoves | crates/picoo-bitstream/src/avc_vui.rs:94-100 | the VUI after the signal type reads the same wherever its bits are copied to |
| SpsLocality.HeaderStays | crates/picoo-bitstream/src/avc_vui.rs:89-105 | a header, scaling lists included, reads the same from any bits that begin with it |
| AvcVui.WalkFollowsSyntax | crates/picoo-bitstream/src/avc_vui.rs:129-179 | on every bit string the walk succeeds exactly on the headers that are progressive, 4:2:0 and without scaling lists, and then stands on vui_parameters_present_flag; the headers are the standard's, but those of the later profiles without their chroma information |
| AvcVui.LaterProfileWalksAstray | crates/picoo-bitstream/src/avc_vui.rs:133-143 | for each of the six later profiles, an RBSP with a well-formed SPS on which the walk ends beyond the flag |
| AvcVui.LaterProfilePanics | crates/picoo-bitstream/src/avc_vui.rs:69-102 | for each of them an SPS unit, admitted and without colour, on which the rewrite panics |
| AvcVui.OtherProfilesNeverPanic | crates/picoo-bitstream/src/avc_vui.rs:16-102 | on any other profile no unit makes it panic |
| AvcVui.RebuiltKeepsSyntax | crates/picoo-bitstream/src/avc_vui.rs:69-102 | replacing the video_signal_type bits, by any limited and described signal, changes that syntax element and no other |
| AvcVui.InsertedKeepsSyntax | crates/picoo-bitstream/src/avc_vui.rs:104-118 | an SPS given the minimal VUI parses as before, plus that VUI |
| AvcVui.RewriteKeepsFacts | crates/picoo-bitstream/src/avc_facts.rs:23-115 | the presentation facts of a rewritten SPS differ in the colour alone |
| AvcVui.RewriteIsPrinted | crates/picoo-bitstream/src/avc_vui.rs:69-118 | the bits of a rewritten SPS are the printed syntax of the old one with a limited signal of three codes 1, of the old format or 5 |
| AvcFacts.FactsExactly | crates/picoo-bitstream/src/avc_facts.rs:26-115 | which syntax has facts, and which facts |
| AvcFacts.RefusedWith | crates/picoo-bitstream/src/avc_facts.rs:16-101 | the kind of every refusal, in their order |
| AvcFacts.ColourAloneExactly | crates/picoo-bitstream/src/configuration.rs:366-389 | two sets of facts differ in the colour alone exactly for the same size, crop, ratio and chroma location |
| AvcVui.ColourlessTwin | crates/picoo-bitstream/src/configuration.rs:366-403 | every SPS that is admitted has a twin of at most 200 bytes, safe in Annex-B, with the same facts but no colour |
| AccessUnits.ByteStreamIsUnique | crates/picoo-bitstream/src/access_unit.rs:104-151 | a byte stream has only one such reading |
| AccessUnits.InspectAcceptsOnePicture | crates/picoo-bitstream/src/access_unit.rs:215-266 | accepted exactly when all headers are valid and the slices are some, of one type and discardable status, with the first-slice bit on the first only |
| CodedPictures.HeaderExactly | crates/picoo-bitstream/src/access_unit.rs:177-213 | which first bytes, and second bytes of HEVC, make a valid header, which are slices, where the first-slice bit is, and what each slice shows |
| AccessUnits.AnnexBRoundTrip | crates/picoo-bitstream/src/access_unit.rs:86-151 | splitting written Annex-B gives the units back, limits permitting |
| AccessUnits.PrefixedSplitsExactly | crates/picoo-bitstream/src/access_unit.rs:104-128 | splitting four-byte lengths yields units exactly when the input is those units written |
| AccessUnits.SizedSplitsExactly | crates/picoo-bitstream/src/access_unit.rs:104-128 | the same for lengths of any number of bytes |
| AccessUnits.PrefixedRefused | crates/picoo-bitstream/src/access_unit.rs:104-128 | a refusal stands behind written units and is a truncation, an empty unit or the 257th |
| AccessUnits.TooManyUnits | crates/picoo-bitstream/src/access_unit.rs:129-175 | more than 256 framed units are refused by the limit |
| Wire.CanonicalExactly | crates/picoo-bitstream/src/wire.rs:9-20 | a wire form exists exactly when the picture parses and stays within 2 MiB |
| AccessUnits.PrefixedRoundTrip | crates/picoo-bitstream/src/access_unit.rs:86-128 | splitting written lengths gives the units back, limits permitting |
| AccessUnits.ReparsesWithLengths | crates/picoo-bitstream/src/access_unit.rs:60-85 | a parsed access unit written with lengths parses to the same units and picture |
| AccessUnits.ReparsesAsAnnexB | crates/picoo-bitstream/src/access_unit.rs:60-85 | read from Annex-B, it also survives being written to Annex-B |
| AvcFraming.AmbiguousExactly | crates/picoo-bitstream/src/avc.rs:54-57 | written lengths look like Annex-B exactly when the first is 1 or in 256..511 |
| AvcFraming.OnlyWrittenIsRecognised | crates/picoo-bitstream/src/avc.rs:50-74 | nothing else is recognised |
| AvcFraming.RecognisedStrings | crates/picoo-bitstream/src/avc.rs:50-74 | recognised exactly: written units whose low five bits are 1 to 12, the first not of length 1 or 256 to 511 |
| AvcFraming.RawUnitsExactly | crates/picoo-bitstream/src/avc.rs:4-32 | of any bytes, the non-empty payloads between start codes of three or four bytes; bytes before the first code are skipped, and a zero before a code belongs to it |
| Configurations.AlignNalsExactly | crates/picoo-bitstream/src/configuration.rs:332-403 | alignment accepts exactly the pictures whose every parameter set is committed or is an AVC SPS that describes the single committed source and only lacks its colour |
| Configurations.CommittedExactly | crates/picoo-bitstream/src/configuration.rs:193-216 | in bytes: a unit is committed exactly when its header is valid and, if its first byte says VPS, SPS or PPS, that list holds it |
| Configurations.AlignsExactly | crates/picoo-bitstream/src/configuration.rs:318-364 | what is aligned at all: anything that is no picture or is committed, unchanged; otherwise exactly replaceable pictures that stay within 2 MiB |
| Configurations.AlignedNals | crates/picoo-bitstream/src/configuration.rs:318-364 | aligned units carry the same picture, are all committed, and align to themselves |
| Configurations.StableUnlessMisread | crates/picoo-bitstream/src/configuration.rs:318-403 | where the configuration is not misreadable, aligning a result that keeps its framing again changes nothing |
| Configurations.MisreadWitness | crates/picoo-bitstream/src/configuration.rs:318-403 | for every misreadable configuration, whatever its SPS holds, an input whose alignment keeps its framing and, aligned again, is refused |
| Configurations.MisreadableByLength | crates/picoo-bitstream/src/configuration.rs:318-323 | for an SPS without start codes the length alone decides: 256 to 511, its low byte the header of a unit other than a slice |
| Configurations.UnchangedExactly | crates/picoo-bitstream/src/configuration.rs:332-360 | alignment leaves a list of units as it is exactly when all are committed |
| Configurations.LostFraming | crates/picoo-bitstream/src/configuration.rs:318-364 | a result that does not keep its framing does not parse, or in Annex-B not to the aligned units |
| Configurations.LosingInput | crates/picoo-bitstream/src/configuration.rs:318-364 | for every replacing configuration without four-byte lengths or a safe SPS, an input whose result loses its framing |
| Misreadings.OpeningRefused | crates/picoo-bitstream/src/access_unit.rs:129-266 | where reading the SPS as Annex-B is refused before its end, no units behind it make a picture |
| Misreadings.OpeningReadsOn | crates/picoo-bitstream/src/access_unit.rs:129-266 | where it is not, the units that follow decide |
| Configurations.RewriteIsAlignable | crates/picoo-bitstream/src/configuration.rs:366-403 | an SPS and its BT.709 rewrite are always alignable |
| RecordBounds.ScanAdmits | crates/picoo-bitstream/src/configuration.rs:415-455 | an avcC record is admitted exactly when it is written as section 5.3.3.1 of ISO/IEC 14496-15 lays it out, with at most 64 sets, then nothing or four bytes without extensions |
| RecordBounds.AvcSetsExactly | crates/picoo-bitstream/src/configuration.rs:422-433 | the reader yields sets exactly when they stand in the record, written |
| RecordBounds.ExtractsExactly | crates/picoo-bitstream/src/avc.rs:159-204 | over every byte string, extraction yields a pair exactly when a written version-1 record has them as its first sets |
| RecordBounds.SetsExactly | crates/picoo-bitstream/src/configuration.rs:484-497 | sets are read from an offset exactly when they stand there, each behind its two-byte length, inside the record |
| FrameBuses.PollsDeliver | crates/picoo-frame-hub/src/frame_bus.rs:74-117 | over every run a poll of a subscription without an end delivers the head of its queue when that waited at most 150 ms, and otherwise ends with TooOld and its identity; with nothing queued it answers none |
| FrameBuses.LiveAnswersNoneExactly | crates/picoo-frame-hub/src/frame_bus.rs:92-108 | a live subscription answers none exactly when nothing is queued |
| FrameBuses.EndsAreAnswered | crates/picoo-frame-hub/src/frame_bus.rs:78-82 | over every run an end is what the next poll answers |
| FrameBuses.PublicationsAreAdmitted | crates/picoo-frame-hub/src/frame_bus.rs:173-219 | over every run a publication becomes the latest frame, is admitted by the live subscription exactly with fewer than eight queued, ends it with QueueFull otherwise, and touches no other |
| FrameBuses.PublicationsReport | crates/picoo-frame-hub/src/frame_bus.rs:183-219 | which ends a publication reports, and when it detaches |
| FrameBuses.SubscribesExactly | crates/picoo-frame-hub/src/frame_bus.rs:143-165 | over every run refused exactly while one is live; a new subscription is live and empty |
| FrameBuses.EndsReachTheLive | crates/picoo-frame-hub/src/frame_bus.rs:222-250 | over every run a reset, a clear or the end of the bus ends the live subscription with its reason, and no other |
| FrameBuses.DropsCancel | crates/picoo-frame-hub/src/frame_bus.rs:252-260 | over every run dropping a live subscription ends it with Cancelled |
| FrameBufferPools.SmallestFitIs | crates/picoo-frame-hub/src/frame_buffer_pool.rs:201-208 | the first smallest buffer among those long enough, if there is one |
| FrameBufferPools.LargestIs | crates/picoo-frame-hub/src/frame_buffer_pool.rs:209-216 | the last largest buffer |
| FrameBufferPools.BestFitIs | crates/picoo-frame-hub/src/frame_buffer_pool.rs:201-220 | a pool that holds storage gives out the smallest that fits, else the largest |
| FrameBufferPools.CheckoutsTakeTheBest | crates/picoo-frame-hub/src/frame_buffer_pool.rs:75-86 | over every run a checkout leases the first smallest retained buffer that fits, else the last largest, the last buffer taking its place, and allocates only from an empty pool |
| FrameBufferPools.ReturnsAreRetainedExactly | crates/picoo-frame-hub/src/frame_buffer_pool.rs:182-198 | over every run storage is retained exactly within its generation, the count and the bytes, and otherwise discarded and counted |
| FrameBufferPools.ClearsInvalidate | crates/picoo-frame-hub/src/frame_buffer_pool.rs:105-115 | over every run a clear empties the pool and outdates every lease |
| FrameBufferPools.ReadyLeasesFit | crates/picoo-frame-hub/src/frame_buffer_pool.rs:87-103 | a ready lease holds storage for its length |
| FrameBufferPools.ReturnedStorageIsReused | crates/picoo-frame-hub/src/frame_buffer_pool.rs:75-198 | what a current lease returns with room for it, the next checkout of an empty pool gets without allocating |
| Nv12.NormalizeIsNearest | crates/picoo-frame-hub/src/nv12.rs:30-38 | the nearest right angle, halves upwards |
| Nv12.AcceptedExactly | crates/picoo-frame-hub/src/nv12.rs:200-220 | which layouts are accepted; accepted frames are in bounds and the output size fits 64 bits |
| Nv12.EveryPointOnce | crates/picoo-frame-hub/src/nv12.rs:222-236 | every source point is shown at exactly one output point |
| Nv12.PixelBytes | crates/picoo-frame-hub/src/nv12.rs:130-166 | the three bytes of a pixel: luma at y stride + x, the UV pair of its 2x2 block behind the luma plane |
| Nv12.RefusedWith | crates/picoo-frame-hub/src/nv12.rs:200-220 | the kind and numbers of every refusal |
| OutputSampleClocks.SlotExact | extensions/macos-camera-extension/OutputSampleClock.swift:27-31 | the split multiplication is the exact slot and never overflows |
| OutputSampleClocks.OffsetExact | extensions/macos-camera-extension/OutputSampleClock.swift:42-46 | an offset is the exact rounded time and overflows exactly when that does |
| OutputSampleClocks.AdvanceExact | extensions/macos-camera-extension/OutputSampleClock.swift:26-39 | a call at the settled rate in exact arithmetic: no tick, overflow, or slot, presentation, deadline and skips |
| OutputSampleClocks.RateChangesExactly | extensions/macos-camera-extension/OutputSampleClock.swift:16-40 | a first tick is due at once with nothing skipped; after a presentation a new rate begins one rounded period later, 33333334 or 16666667 ns, and fails exactly when that time overflows |
| OutputSampleClocks.RatesExactly | extensions/macos-camera-extension/OutputSampleClock.swift:16-17 | only 30 and 60 are taken; any other rate is refused and changes nothing |
| OutputSampleClocks.CallKeeps | extensions/macos-camera-extension/OutputSampleClock.swift:16-40 | a tick is presented no later than now, before the next deadline, and a whole period after the tick before it, across rate changes |
| OutputSampleClocks.NoDriftFromRateChange | extensions/macos-camera-extension/OutputSampleClock.swift:18-25 | the same from the call that starts the clock or changes its rate, with the anchor that call chooses |
| CameraSinks.AllClientsAreTried | extensions/macos-camera-extension/PicooCameraSink.swift:101-133 | a consuming transition ends with all its clients tried |
| CameraSinks.UnwantedSinksAreQuiet | extensions/macos-camera-extension/PicooCameraSink.swift:106-140 | over every run a stop or a lowered demand starts no consume until a later transition opens another generation |
| CameraSinks.OnlyWantedConsumes | extensions/macos-camera-extension/PicooCameraSink.swift:142-153 | over every run a step hands out at most one consume, only while started and demanded, in the current generation, for a client without one |
| CameraSinks.RepeatedDemandIsIdle | extensions/macos-camera-extension/PicooCameraSink.swift:118-134 | a demand that repeats the present one changes no field of the sink and starts no consume |
| CameraSinks.DropsAreReported | extensions/macos-camera-extension/PicooCameraProvider.swift:170-299 | over every run a drop waits to be reported exactly when an invalidation, a refused or discontinuous sample or a failed emission came after the last sample that went out |
| CameraSinks.DeliveriesPrepare | extensions/macos-camera-extension/PicooCameraProvider.swift:270-299 | a delivery prepares its sample exactly when that is compatible and of the device's generation |
| CameraSinks.CurrentSampleIsPrepared | extensions/macos-camera-extension/PicooCameraSink.swift:156-198 | a usable sample of the current generation does become the prepared one, and its loop continues |
| EncoderEventBuffers.LengthIsBounded | apps/ios/PicooCamera/VideoEncoder.swift:136-187 | never more than capacity + 1 events |
| EncoderEventBuffers.CapacityIsPassedExactly | apps/ios/PicooCamera/VideoEncoder.swift:140-167 | from a queue within capacity, a step passes it exactly when a keyframe ends a wait during which markers have filled it |
| EncoderEventBuffers.CapacityIsExceeded | apps/ios/PicooCamera/VideoEncoder.swift:140-145 | for every capacity a run that reaches capacity + 1 |
| EncoderEventBuffers.NothingIsLost | apps/ios/PicooCamera/VideoEncoder.swift:136-179 | a consumer that keeps up gets everything offered, in order |
| EncoderEventBuffers.KeyframesAreQueued | apps/ios/PicooCamera/VideoEncoder.swift:140-157 | a keyframe is always queued and ends every wait |
| EncoderEventBuffers.SubmissionsExactly | apps/ios/PicooCamera/VideoEncoder.swift:136-171 | over every run where a unit is queued or dropped, and that a full queue gives way to an overflow marker with the unit's epoch and generation, which a keyframe follows at once |
| EncoderEventBuffers.ReportsExactly | apps/ios/PicooCamera/VideoEncoder.swift:159-166 | over every run a native marker is queued last and flushes exactly a full queue |
| EncoderEventBuffers.WaitsExactly | apps/ios/PicooCamera/VideoEncoder.swift:136-187 | over every run a keyframe is awaited exactly when none came since the last discard or overflowing delta unit |
| PreviewPipelines.AcceptedWithinInterval | apps/desktop/src/preview_pipeline.rs:140-157 | a poll one interval after an accepted one is accepted |
| PreviewPipelines.PhaseIsKept | apps/desktop/src/preview_pipeline.rs:140-157 | polls that each come within their interval are all accepted and keep the phase |
| PreviewPipelines.PollsExactly | apps/desktop/src/preview_pipeline.rs:140-157 | which polls are accepted, and when a new phase begins |
| PreviewPipelines.SubmittedPreviewArrives | apps/desktop/src/preview_pipeline.rs:204-326 | a submission that meets an idle worker and no invalidation is the next preview taken |
| PreviewPipelines.SubmissionsExactly | apps/desktop/src/preview_pipeline.rs:204-241 | over every run a submission is admitted exactly when its frame or width is new, it is due and the 64-bit sequence is not used up, and what it asks for |
| PreviewPipelines.LatestRequestWins | apps/desktop/src/preview_pipeline.rs:204-300 | over every run a submission replaces what is pending, and the worker takes what is pending |
| PreviewPipelines.FinishedPreviewsArePublished | apps/desktop/src/preview_pipeline.rs:309-324 | over every run a current preparation that succeeds is published, even behind a newer pending request; any other leaves what was completed |
| PreviewPipelines.InvalidationsEmpty | apps/desktop/src/preview_pipeline.rs:257-268 | over every run an invalidation leaves nothing pending, completed or current, and stops the worker exactly at the 64-bit limit |
| PreviewPipelines.ClearsExactly | apps/desktop/src/preview_pipeline.rs:243-255 | a clear is an invalidation exactly when there is work |
| CivilDates.TextIsRead | apps/desktop/src/receiver_runtime.rs:805 | every date is read back from its padded text |
| CivilDates.EraSplits | apps/desktop/src/receiver_runtime.rs:797-800 | the year and day formulas split a 400-year era exactly, leap days included |
| CivilDates.LaterDaysLaterTexts | apps/desktop/src/receiver_runtime.rs:789-806 | up to the year 9999 later days give texts that sort later |
| BitReader.Bits.ReadUe | crates/picoo-bitstream/src/avc_vui.rs:282-295 | the loop of single-bit reads computes the specified element, stops with a limit error after 31 zeros, and its result fits 32 bits |
| BitReader.Bits.ReadSe | crates/picoo-bitstream/src/avc_vui.rs:297-301 | the signed element, within 31 bits and sign |
| BitReader.Bits.ReadN | crates/picoo-bitstream/src/avc_vui.rs:269-275 | the big-endian value of the bits, or truncation |
| BitReader.Bits.WriteU8 | crates/picoo-bitstream/src/avc_vui.rs:303-311 | exactly eight bits are overwritten, all others stay; out of range nothing changes |
| BitReader.Bits.StopBit | crates/picoo-bitstream/src/avc_vui.rs:313-318 | the position of the last one bit |
| BitReader.Bits.FinishFrom | crates/picoo-bitstream/src/avc_vui.rs:320-337 | the bytes unpack to the kept bits, a stop bit and zero padding; the last byte is never zero |
| BitReader.PackBits | crates/picoo-bitstream/src/avc_vui.rs:330-336 | setting bits byte by byte packs any bit string so that unpacking gives it back, padded |
| Rbsp.EncodeNal | crates/picoo-bitstream/src/avc_vui.rs:204-217 | the zero-counting loop writes the header and the escaped RBSP |
| AvcVui.SkipSpsToVuiFlag | crates/picoo-bitstream/src/avc_vui.rs:129-179 | the cursor method takes the specified walk, error for error |
| AvcVui.PatchColour | crates/picoo-bitstream/src/avc_vui.rs:81-88 | patching three bytes in place is a BT.709 rewrite of a parsed SPS, on which none of its failure exits is taken |
| AvcVui.AddColour | crates/picoo-bitstream/src/avc_vui.rs:89-95 | adding a colour description to a signal type without one is a BT.709 rewrite that keeps video_format; on any bits, the slice panics exactly when the last one bit is at the flag or before it |
| AvcVui.AddSignal | crates/picoo-bitstream/src/avc_vui.rs:97-101 | adding a whole signal type is a BT.709 rewrite; on any bits, the slice panics exactly when the last one bit is at the flag or before it |
| AvcVui.RewriteExistingVui | crates/picoo-bitstream/src/avc_vui.rs:69-102 | on a parsed SPS with a VUI it refuses a full-range source and otherwise always succeeds with the same syntax, signal type apart; on any bits, it panics exactly when the flag it comes to has the last one bit at it or before it |
| AvcVui.InsertMinimalVui | crates/picoo-bitstream/src/avc_vui.rs:104-118 | on a parsed SPS without a VUI it always yields the same header with the minimal BT.709 VUI |
| AccessUnits.SplitNals | crates/picoo-bitstream/src/access_unit.rs:104-151 | both splitting loops compute the specified units and refusals |
| AccessUnits.WriteNals | crates/picoo-bitstream/src/access_unit.rs:86-102 | the writer's loop and its size limits |
| AccessUnits.InspectPicture | crates/picoo-bitstream/src/access_unit.rs:215-266 | the inspection loop computes the verdict that InspectExactly states in bytes |
| AvcFraming.FindStart | crates/picoo-bitstream/src/avc.rs:5-18 | the hand-written scan finds what the bounded splitter's window search finds |
| AvcFraming.SplitAnnexBNals | crates/picoo-bitstream/src/avc.rs:4-32 | the loop yields the units between start codes |
| AvcFraming.IsLengthPrefixedAccessUnit | crates/picoo-bitstream/src/avc.rs:50-74 | recognises exactly the specified strings |
| AvcFraming.LengthPrefixedToAnnexB | crates/picoo-bitstream/src/avc.rs:77-91 | the units of a recognised string, written as Annex-B |
| AvcFraming.AnnexBToLengthPrefixed | crates/picoo-bitstream/src/avc.rs:94-105 | the units between start codes, written with lengths |
| Configurations.ValidateParameterSets | crates/picoo-bitstream/src/configuration.rs:193-216 | accepts exactly the pictures of the same codec whose parameter sets are all committed |
| Configurations.AlignAccessUnit | crates/picoo-bitstream/src/configuration.rs:318-364 | the loop with its changed flag computes the specified alignment, whose replacements ReplaceableExactly describes |
| RecordBounds.Bounds.Sets | crates/picoo-bitstream/src/configuration.rs:484-497 | walks exactly n sets of the layout, never past the end, never more than 64 in all |
| RecordBounds.Preflight | crates/picoo-bitstream/src/configuration.rs:415-455 | the bounding scan of both records, refusal by refusal |
| RecordBounds.PreflightAvc | crates/picoo-bitstream/src/configuration.rs:422-433 | the avcC branch of the scan |
| RecordBounds.PreflightHevc | crates/picoo-bitstream/src/configuration.rs:434-449 | the loop over the hvcC arrays |
| RecordBounds.ExtractAvccParameterSets | crates/picoo-bitstream/src/avc.rs:159-204 | the two loops yield the first set of each kind of the same layout |
| FrameBuses.FrameBus.PublishAt | crates/picoo-frame-hub/src/frame_bus.rs:173-219 | the new state of bus and channel for every branch of a publication |
| FrameBuses.FrameBus.SubscribeOrdered | crates/picoo-frame-hub/src/frame_bus.rs:143-165 | refused without effect exactly while a subscription is live; otherwise a fresh channel replaces the old sender |
| FrameBuses.FrameBus.EndOrdered | crates/picoo-frame-hub/src/frame_bus.rs:235-243 | ends an accepting channel with the reason, once, and drops its sender |
| FrameBuses.FrameBus.ResetOrderedSource | crates/picoo-frame-hub/src/frame_bus.rs:231-233 | ends the ordered source with Reset and keeps the latest frame |
| FrameBuses.NativeFrameSubscription.TryNextAt | crates/picoo-frame-hub/src/frame_bus.rs:70-117 | the answer, channel and normal end of every branch of a poll, which PollsDeliver states over every run |
| FrameBuses.NativeFrameSubscription.Drop | crates/picoo-frame-hub/src/frame_bus.rs:252-260 | cancels an accepting channel and forgets its queue |
| FrameBuses.Shared.CloseGate | crates/picoo-frame-hub/src/frame_bus.rs:44-48 | the cutoff changes the gate and nothing else |
| FrameBufferPools.FrameBufferPool.Checkout | crates/picoo-frame-hub/src/frame_buffer_pool.rs:75-86 | the locked section takes the best fit and counts a reuse, or counts an allocation |
| FrameBufferPools.FrameBufferPool.ClearAll | crates/picoo-frame-hub/src/frame_buffer_pool.rs:107-115 | a new generation with nothing retained |
| FrameBufferPools.FrameBufferPool.ReturnStorage | crates/picoo-frame-hub/src/frame_buffer_pool.rs:182-198 | retained within generation, count and bytes, otherwise discarded and counted |
| Nv12.TransformNv12 | crates/picoo-frame-hub/src/nv12.rs:87-175 | the two nested loops, or the no-op path, compute the frame whose pixels PixelsArePlaced places, every index in bounds |
| Nv12.FillLuma | crates/picoo-frame-hub/src/nv12.rs:130-141 | every luma byte is written once with its source sample |
| Nv12.FillChroma | crates/picoo-frame-hub/src/nv12.rs:143-166 | every UV pair is copied whole from its source pair |
| OutputSampleClocks.OutputSampleClock.TickAt | extensions/macos-camera-extension/OutputSampleClock.swift:16-40 | the new state and answer of every path, failures in the middle included |
| CameraSinks.PicooCameraSinkStreamSource.StartSection | extensions/macos-camera-extension/PicooCameraSink.swift:92-97 | the locked section of a start, which consumes exactly under demand |
| CameraSinks.PicooCameraSinkStreamSource.StopSection | extensions/macos-camera-extension/PicooCameraSink.swift:107-112 | the locked section of a stop |
| CameraSinks.PicooCameraSinkStreamSource.DemandSection | extensions/macos-camera-extension/PicooCameraSink.swift:118-126 | the locked section of a demand change |
| CameraSinks.PicooCameraSinkStreamSource.ConsumeSection | extensions/macos-camera-extension/PicooCameraSink.swift:142-152 | admission to consume |
| CameraSinks.PicooCameraSinkStreamSource.CallbackSection | extensions/macos-camera-extension/PicooCameraSink.swift:156-162 | release, currency and restart |
| CameraSinks.PicooCameraDeviceSource.InvalidateSinkSamples | extensions/macos-camera-extension/PicooCameraProvider.swift:256-268 | the new generation with nothing prepared |
| CameraSinks.PicooCameraDeviceSource.AcceptSinkSample | extensions/macos-camera-extension/PicooCameraProvider.swift:270-299 | a usable sample of the current generation becomes the prepared one, any other only marks a drop |
| EncoderEventBuffers.VideoEncoderEventBuffer.EnqueueEvent | apps/ios/PicooCamera/VideoEncoder.swift:136-171 | the new queue, wait flag and wake-up of every branch |
| EncoderEventBuffers.VideoEncoderEventBuffer.Drain | apps/ios/PicooCamera/VideoEncoder.swift:173-179 | hands over everything queued and leaves the wait as it is |
| EncoderEventBuffers.VideoEncoderEventBuffer.DiscardUntilKeyframe | apps/ios/PicooCamera/VideoEncoder.swift:181-186 | drops everything and waits for a keyframe |
| PreviewPipelines.PreviewCadence.Poll | apps/desktop/src/preview_pipeline.rs:140-157 | the deadline and answer of every branch |
| PreviewPipelines.WorkerState.PublishLatest | apps/desktop/src/preview_pipeline.rs:104-112 | only a later sequence replaces the completed preview |
| PreviewPipelines.WorkerState.TakePending | apps/desktop/src/preview_pipeline.rs:290-300 | the worker takes the pending request, or learns that it is stopped |
| PreviewPipelines.WorkerState.Finish | apps/desktop/src/preview_pipeline.rs:309-324 | a finished preparation is published unless stopped, stale or failed |
| PreviewPipelines.PreviewPipeline.SubmitLatest | apps/desktop/src/preview_pipeline.rs:204-241 | which submissions are refused, and the request an accepted one leaves pending |
| PreviewPipelines.PreviewPipeline.InvalidateSource | apps/desktop/src/preview_pipeline.rs:257-268 | a new generation, or a stop at the 64-bit limit, with nothing pending or completed |
| PreviewPipelines.PreviewPipeline.Clear | apps/desktop/src/preview_pipeline.rs:243-255 | invalidates exactly when there is work |
| PreviewPipelines.PreviewPipeline.TakePrepared | apps/desktop/src/preview_pipeline.rs:270-272 | hands over the completed preview |

## Left out

- EnsureBt709Limited: on profiles 118, 128, 134, 135, 138 and 139, which the walk misreads, what a returned SPS keeps is stated of its source alone; the only caller commits records of profile 100 (crates/picoo-bitstream/src/configuration.rs:50-70).
- RewriteExistingVui: of bits that are no parsed SPS it states when they panic and the stop bit of what is returned; the same holds of InsertMinimalVui, which never panics.
- StableExactly: over results that keep their framing, and inputs that do not parse. A result that loses it is no picture of its own framing, and nothing is stated of aligning it again. The Android adapter commits four-byte lengths and an SPS split from Annex-B (crates/picoo-bitstream/src/configuration.rs:129-187), for which KeptExactly rules such results out.
- AdmittedRecordsExtract: the avcC record only, since the extractor reads no other.
- PresentationsAreSpaced: up to the first reported overflow; a rate change that overflows leaves the new rate beside the old anchor, as RateChangesExactly says, and nothing is stated of the ticks after that.
- ClearIsFinal: the pool's generation is unbounded here; the source saturates it at 64 bits.
- NoStaleSample: the sink's generation is unbounded here; the source wraps it at 64 bits.
- LoopsAreNeverLost: transitions of the sink are serialised with each other, as one client queue serialises them; callbacks, timers and deliveries interleave freely. The generation is unbounded here.
- StorageIsConserved: the counters of the pool are unbounded here; the capacity a reallocation yields is any value of at least the length.
- NoBurst: instants are unbounded; the overflow of adding an interval to an instant is not modelled.
- Message texts of errors: only the kind of an error is kept.
- The value ranges and the emulation-prevention errors that h264_reader checks beyond the syntax: h264_reader is not part of this model, and SpsSyntax stands for its parser.
- Codec records beyond their parameter sets, visible-size checks, and HEVC parameter set parsing and constraints.
- Borrowing without copying in the wire form, pooled storage as transform output, and every other question of allocation.
- Locks, condition variables, weak references and poisoning: a locked section is one step, and a send or receive on the bounded channel is part of the section around it.
- Clocks, timers, platform callbacks and diagnostics: times, samples, capacities and outcomes are parameters of the steps.
- The viewport tracker, surfaces and float widths of the preview; the target width is a parameter.
- distinguishable_fingerprint_prefix, pairing, transport, discovery, FFI, UI and all other platform code.
