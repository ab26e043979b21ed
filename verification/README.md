# VPU driver and streaming viewer for the i.MX27: a verified model

The repository drives the i.MX27's video decoder and its two picture scalers:
a kernel driver (`kernel/`), a codec library (`lib/`), and a viewer that feeds
the decoder from RTP or TCP and shows its pictures (`apps/`). This project
models the parts of it that are hard to get right and proves what they are for.

| file | models |
|---|---|
| `Ratio.dfy` | the gcd loops and the number theory that makes the resize loops stop |
| `PpResize.dfy` | the post-processor's 40-word resize tables |
| `PrpResize.dfy` | the pre-processor's 20-entry resize tables |
| `BitstreamRing.dfy` | the bitstream ring with its concurrent hardware reader and its three writers |
| `Mpeg4Resync.dfy` | MPEG-4 over TCP: feeding, draining a backlog and cutting it at an I-VOP |
| `RtpH264.dfy` | the meaning of one RTP packet to the direct H.264 receiver |
| `RtpGate.dfy` | over whole runs of that handler: the IDR gate, and units free of gaps |
| `RtpRoundTrip.dfy` | packetizing and receiving as a round trip, and recovery while an IDR is awaited |
| `RtpResync.dfy`, `RtpExamples.dfy` | what becomes of a unit from any state of the receiver, and examples byte by byte |
| `RtpDirect.dfy` | the direct receiver as code on the ring |
| `RtpDelivery.dfy` | whole access units on the ring, by the room it has |
| `RtpSession.dfy` | a session with the decode loop's fallback to plain feeding |
| `RtpBuffered.dfy`, `RtpBufferedReceiver.dfy` | the buffered receiver, its meaning and its code, and its agreement with the direct one |
| `DmaPool.dfy` | the driver's page pool, the memory ioctls and the last close |
| `DecoderLock.dfy` | the decoder API's lock, pending instance and instance pool |
| `FrameCustody.dfy` | the decode loop's handling of pictures, on top of that API |
| `Md5.dfy`, `Md5Suite.dfy`, `Base64.dfy` | the digest and the encoding used for RTSP authentication and SDP |
| `Octets.dfy` | bytes |

Code that changes state in place is a class or a method over arrays, proved
against functions that say what it means; the theorems are about those
functions. Check everything with `dafny verify dfyconfig.toml` (Dafny 4.11).

## What is assumed of the surroundings

- The decoder moves the read pointer only forward and only through committed
  bytes, at any speed: between any two bytes of a copy and before every look at
  the pointer it gets as far as an arbitrary script says (`Ring.pace`). The
  `DEC_BUF_FLUSH` command leaves the read pointer at the start of the buffer.
- The RTP padding bit is clear: the code does not strip padding, and neither
  does the model.
- The pool's blocks are page-aligned, disjoint, not at address 0, and below
  4 GB. `GET_WORK_ADDR` is called with a descriptor that names no buffer yet,
  as the library does.
- A free lock may or may not be obtained in time; a held one is not, since the
  mutex is not recursive. The library starts with no pending instance.
- The signed accumulator of `b64_decode` wraps at 32 bits, as it does on the
  target; the C language leaves an overflowing left shift undefined.
- The decoder sets the display flag of the index it hands out. A session that
  no longer gets input leaves its loop.
- What a socket, an ioctl, a copy between user and kernel space or a watchdog
  does arrives as a parameter; the theorems hold for every value of it.

## What was found

- When a decode call has neither decoded nor shown a picture, the decode loop
  calls `feed(h, 1)` also when it receives RTP (`apps/vpu_stream.c:3284-3285`).
  That puts a whole datagram, RTP header and all, into the ring past the IDR gate
  (`BreachExample`), hides it from the handler's sequence check, and shifts the
  unit being staged (`FallBack`). What is proved of the handler's runs holds of
  the ring until such a call finds a datagram and 512 bytes of room (`Session`).
- In the direct handler a gap right before an IDR slice of several fragments loses
  that slice too: the first fragment is not used, and the others spoil the unit
  (`Resync`).
- A unit that is spoiled before anything of it is staged, and whose marker is lost,
  spoils the next one, since a new timestamp resets only what is staged
  (`Resync`, `SpoiledExample`).
- An empty datagram makes `rtp_feed_direct` return 0, also when the same call has
  committed a unit (`FeedDirect`); the decode loop takes 0 for the end of the feed
  (`apps/vpu_stream.c:3073`).
- The truncation in `bs_ring_write` is the only step that can open a hole
  (`TcpFeed.SkipToLatest`); what follows it is a hole unless it happens to start
  at an I-VOP (`HoleAfterLoss`). The comment at `apps/vpu_stream.c:2024` excludes
  it because the ring holds about 256 KB, but that bounds what `feed` adds, not
  the windows without an I-VOP that are written back whole. `TruncationExample`
  is a run that truncates, with a decoder that stands still and no more than 32
  KB in the socket at a time. After a flush nothing is ever truncated.
- `vpu_DecUpdateBitstreamBuffer` refuses an oversized update only while the
  free space does not wrap; otherwise the write pointer overruns what the decoder
  has yet to read (`Ring.UpdateBitstreamBuffer`, `OverrunExample`). Every caller
  stays within the reported room, unless a fallback as above has come between
  staging and commit.
- `PHYMEM_ALLOC` that fails in `copy_to_user` leaves its pages marked with no
  record of them (`kernel/mxc_vpu.c:1235-1240`); the last close then leaves more
  than the work buffer marked, exactly then (`AnyRequests`, `LeakExample`).
- `PHYMEM_FREE` of the work buffer's descriptor, as the error path at
  `lib/vpu_io.c:321-323` does, unmarks pages that the driver goes on handing
  out as the work buffer; so does a stale descriptor whose pages have found a new
  owner (`Pool.PhymemFree` and `HarmlessWhen` have the exact condition).
- `vpu_DecOpen` leaves its slot in use when its second lock fails
  (`lib/vpu_lib.c:1944`); four of these use up the pool (`PoolLost`).
- `vpu_DecRegisterFrameBuffer` records the buffers before it takes the lock; after
  a timeout the codec does not know of them, and a second try is refused as
  called before (`Library.RegisterFrameBuffer`).
- At `disc:` after the peer left in mid-frame, the release of a withheld picture
  waits for the lock its own session holds and has no effect, exactly then
  (`FrameCustody.Session.Run`, `StuckExample`); the close that follows gives the
  lock back (`NextSession`).
- A fragmented NAL unit that overflows the buffered receiver's 128 KB buffer
  makes the handler return without looking at the marker bit, so the unit is
  not written if it ends with that one. If it does not, the rest is written, and
  an IDR slice lost that way ends the wait for one (`BufferedExact`).

## Model

| member | source | states |
|---|---|---|
| `Ratio.Euclid` | kernel/mxc_vpu.c:394-410 | the Euclid loop returns the mathematical gcd of two positive numbers (the PrP port, lines 834-840, has the same loop) |
| `Ratio.GcdIsGreatest` | kernel/mxc_vpu.c:394-410 | the number that loop computes is at least every common divisor; with GcdDivides it is the greatest one |
| `Ratio.GcdDivides` | kernel/mxc_vpu.c:394-410 | and it divides both arguments |
| `Ratio.Orbit` | kernel/mxc_vpu.c:461-510 | multiples of x come back to zero modulo y only after whole runs of y/gcd steps: the number theory behind `while (v)` and `while (carry != init_carry)` stopping after one period and not before |
| `Ratio.Reduced` | kernel/mxc_vpu.c:516-530 | dividing both sizes by their gcd leaves coprime numbers |
| `PpResize.WeightBound` | kernel/mxc_vpu.c:412-427 | for every coefficient up to the base the weight the hardware makes of the raw one is the integer nearest to 32*coeff/base, unless that is 1 (then 2) or 31 (then 30); the raw weight is 0 or 2..31, and 31 exactly when the nearest integer is 32 |
| `PpResize.Weigh` | kernel/mxc_vpu.c:412-427 | the weight arithmetic of one table word computes that raw weight |
| `PpResize.Scale0D` | kernel/mxc_vpu.c:412-444 | one tap is appended as its weight word and skip words, earlier words untouched, or -ENOSPC exactly when the 40 words do not hold it; nothing is written past the table |
| `PpResize.DecodeEncode` | kernel/mxc_vpu.c:412-444 | reading the words of any taps back, as the hardware accumulates them, gives exactly the effective weight and advance of each tap |
| `PpResize.UpGrid` | kernel/mxc_vpu.c:461-474 | enlarging: the inputs consumed before output i are floor(i*inv/outv), its coefficient is outv - (i*inv mod outv), its advance 0 or 1 |
| `PpResize.DownGrid` | kernel/mxc_vpu.c:491-510 | reducing below 2:1: output i has the left pixel N with (2N+1)*outv < (2i+1)*inv <= (2N+3)*outv, coefficient (2N+3)*outv - (2i+1)*inv over 2*outv, advance 1 or 2 |
| `PpResize.LeftUnique` | kernel/mxc_vpu.c:491-510 | that left pixel is the only one between whose centre and the next the output falls |
| `PpResize.ExactRatio` | kernel/mxc_vpu.c:451-514 | one period has exactly outv/gcd outputs and its advances total exactly inv/gcd inputs, for every supported ratio |
| `PpResize.UpDda` | kernel/mxc_vpu.c:461-474 | one turn of the accumulator loop realises tap i, and the accumulator is zero again exactly after outv/gcd turns |
| `PpResize.DownOutput` | kernel/mxc_vpu.c:491-510 | one turn of the carry loop yields coefficient and advance of output i, and the carry is back at its start exactly after outv/gcd turns |
| `PpResize.ScaleUp` | kernel/mxc_vpu.c:461-474 | the enlarging loop terminates having appended exactly the period of the grid, or reports -ENOSPC exactly when it does not fit |
| `PpResize.ScaleDown` | kernel/mxc_vpu.c:491-510 | the same for the carry loop between 1:1 and 2:1 |
| `PpResize.ScaleBox` | kernel/mxc_vpu.c:475-490 | the same for exactly 2:1 and 4:1 |
| `PpResize.Scale1D` | kernel/mxc_vpu.c:451-514 | one axis: -EOPNOTSUPP for an unsupported ratio, otherwise the words of its whole period or -ENOSPC |
| `PpResize.NeedExact` | kernel/mxc_vpu.c:535-541 | a supported ratio in lowest terms takes one word per output, four for 4:1 |
| `PpResize.AxisExact` | kernel/mxc_vpu.c:516-555 | the words of one axis read back as outputs and input steps in exactly the proportion dst:src, and every output as the two pixels it lies between, with the nearest weight |
| `PpResize.BuildReduced` | kernel/mxc_vpu.c:532-555 | on reduced ratios: the result code is -EOPNOTSUPP, -ENOSPC or 0 exactly by the hardware limits and by the words needed (shared when both axes reduce alike) against 40 |
| `PpResize.TapSamples` | kernel/mxc_vpu.c:451-514 | every output of a table lies between the pixel it has stepped to and the next, with the nearest weight for its distance; 32 at 1:1, 16 at 2:1 and 4:1 |
| `PpResize.KnownWords` | kernel/mxc_vpu.c:412-514 | the tables for 1:1, 2:1 and 4:1, word for word |
| `PpResize.BuildResize` | kernel/mxc_vpu.c:516-555 | the same from the picture sizes on, for all of them: -EOPNOTSUPP exactly beyond four times up, twice down and four times down; on success the index register delimits two disjoint or shared runs that scale by exactly srcW:dstW and srcH:dstH and interpolate every output where it lies |
| `PrpResize.BilinearExact` | kernel/mxc_vpu.c:852-868 | a bilinear table has one entry per reduced input pixel and one valid entry per reduced output pixel |
| `PrpResize.RawRange` | kernel/mxc_vpu.c:852-860 | the weight the hardware makes of an entry is the nearest eighth, unless that is 7 (then 6); the raw weight is 7 exactly when it is 8 |
| `PrpResize.ReadBack` | kernel/mxc_vpu.c:814-832 | walking any bilinear table with prp_scale_get from index 0 yields every output's weight and advance in order and ends at index 0; below 2:1 every output is the two pixels it lies between, with the nearest weight, from 2:1 on two pixels alike |
| `PrpResize.KnownEntries` | kernel/mxc_vpu.c:852-868 | the table for 3:2, entry for entry |
| `PrpResize.UnityGain` | kernel/mxc_vpu.c:870-893 | each of the twenty averaging rows has effective weights totalling 8/8 |
| `PrpResize.RowShape` | kernel/mxc_vpu.c:870-877 | rows of up to eight pixels are the same from both ends and do not fall towards the middle |
| `PrpResize.SharesTotal` | kernel/mxc_vpu.c:905-933 | the shares of the averaging split add up to all the inputs, none lost and none used twice |
| `PrpResize.SharesShape` | kernel/mxc_vpu.c:905-923 | any two shares differ by one at most; they are the same from both ends, or but for the last one, and do not fall towards the middle |
| `PrpResize.AveExact` | reference/mx27_prphw.c:264-301 | an averaging table has one entry per input, and reads back as outv outputs that take their shares of the inputs at unity gain |
| `PrpResize.ShareOut` | kernel/mxc_vpu.c:905-923 | the in-place distribution of the remainder gives every output its quotient and the middle ones one more |
| `PrpResize.Scale.ScaleGet` | reference/mx27_prphw.c:58-85 | one call returns weight, advance and next index as the table reading of the lemmas above has them |
| `PrpResize.Scale.PutBilinear` | kernel/mxc_vpu.c:852-868 | one output is a valid entry and advance - 1 empty ones, or -1 exactly when the 20 entries do not hold it |
| `PrpResize.Scale.PutAverage` | kernel/mxc_vpu.c:895-903 | one averaging row is appended, or -1 and no change exactly when it does not fit |
| `PrpResize.Scale.AveScale` | kernel/mxc_vpu.c:905-933 | the averaging table and the recorded shares are those of the even split, and the table has inv entries |
| `PrpResize.Scale.BuildDown` | kernel/mxc_vpu.c:970-986 | the bilinear loop below 2:1 terminates with the entries of the whole period, or -1 exactly when they exceed the table |
| `PrpResize.Scale.BuildBox` | kernel/mxc_vpu.c:960-969 | the same from 2:1 on |
| `PrpResize.Scale.Build` | reference/mx27_prphw.c:313-394 | a ratio in lowest terms of at most 20 inputs is built, bilinearly or by averaging as the algorithm rule says, exactly when it is no enlargement; the length is the input count |
| `PrpResize.Scale.RealOut` | kernel/mxc_vpu.c:1007-1026 | the reported size is the outputs of the whole periods plus, for a partial last one, the least number of outputs whose inputs cover the rest (for bilinear tables also when one input is left that the next output would only blend in), in 16 bits |
| `PrpResize.Scale.BilinearRest` | kernel/mxc_vpu.c:1011-1018 | the walk over the table stops at exactly that least number |
| `PrpResize.Scale.AverageRest` | kernel/mxc_vpu.c:1024-1025 | the shares taken for a rest are the least number that covers it |
| `PrpResize.Scale.Fit` | kernel/mxc_vpu.c:990-1031 | prp_scale succeeds exactly when some d in [dout, dout+retry] has d <= din and din/gcd(din,d) <= 20; it then has built the table for the least such d; the retry loop terminates |
| `PrpResize.FitWidth` | kernel/mxc_vpu.c:1092-1095 | as the converter calls it (inv = din, vout = 0, sixteen retries) it succeeds if and only if some size in reach fits, and reports the least such d |
| `BitstreamRing.Ring.HardwareRead` | lib/vpu_lib.c:2528-2538 | the decoder reads the oldest committed bytes, unchanged and in order, from memory: what it has read stays a prefix of what was committed |
| `BitstreamRing.Ring.Tick` | lib/vpu_lib.c:2528-2530 | at any moment the decoder may get any distance through what is committed; nothing committed is lost |
| `BitstreamRing.Ring.ReadPointer` | lib/vpu_lib.c:2528-2530 | the register shows where the decoder has got to by then |
| `BitstreamRing.Ring.GetBitstreamBuffer` | lib/vpu_lib.c:2504-2545 | the reported room is capacity minus used minus one, never less than before, so that a full ring never looks empty |
| `BitstreamRing.Ring.UpdateBitstreamBuffer` | lib/vpu_lib.c:2558-2623 | within the room, exactly the staged bytes join the queue; an empty request, and no other, marks the stream end; refused exactly when the free space does not wrap and is too small, which for a decoder that stands still is known before the call; what is too large and not refused overruns the queue |
| `BitstreamRing.OverrunExample` | lib/vpu_lib.c:2591-2618 | a run from an empty ring of two updates, the second too large for the room and not refused, after which the pointers no longer delimit what is unread |
| `BitstreamRing.Ring.BitBufferFlush` | lib/vpu_lib.c:3267-3307 | drops the unread bytes and nothing else |
| `BitstreamRing.Ring.CopyIn` | apps/vpu_stream.c:1304-1306 | a copy behind staged bytes appends to them and to nothing else, with the decoder reading on between any two bytes of it |
| `BitstreamRing.Ring.DirectAppend` | apps/vpu_stream.c:1282-1309 | staging appends behind what is staged without touching an unread byte, or refuses, leaving everything staged as it was; it succeeds if and only if 512 bytes stay spare in the room it sees, which for a decoder that stands still is the room before the call |
| `BitstreamRing.Ring.CommitStaged` | apps/vpu_stream.c:1321-1344 | the commit makes exactly the staged bytes readable and cannot fail within the room |
| `BitstreamRing.Ring.Feed` | apps/vpu_stream.c:1898-1925 | one receive commits exactly the bytes received, or nothing; it never does with less than 512 bytes of room, and with them, data waiting and a readable socket it does |
| `BitstreamRing.Ring.WriteLoop` | apps/vpu_stream.c:2028-2042 | the wrap-aware copy stages exactly its argument and leaves the queue alone |
| `BitstreamRing.Ring.BsRingWrite` | apps/vpu_stream.c:2015-2045 | commits a prefix of its argument: all of it if it fits, otherwise at least the room there was |
| `BitstreamRing.Ring.Empty` | lib/vpu_util.c:581-594 | equal pointers mean an empty queue, never a full ring |
| `BitstreamRing.StagedBehind` | apps/vpu_stream.c:1282-1309 | writing behind a circular queue and staged bytes, with any wrap, keeps both and appends |
| `BitstreamRing.AnyUse` | apps/vpu_stream.c:1282-2045 | any sequence of receives, bulk writes, staging, commits and abandoned units, with the decoder reading on at any moment, is that sequence on a plain queue without pointers; each use takes at least what the room then warrants; what is decoded is a prefix of what is committed |
| `Mpeg4Resync.FindResyncStart` | apps/vpu_stream.c:1978-2009 | finds the last I-VOP start code of the drained bytes, or reports that there is none |
| `Mpeg4Resync.TcpFeed.FeedOnce` | apps/vpu_stream.c:1898-1925 | a receive keeps the committed bytes a contiguous continuation of the stream |
| `Mpeg4Resync.TcpFeed.SkipToLatest` | apps/vpu_stream.c:2047-2094 | it drains exactly from a backlog of 32 KB or 256 KB in the ring on; what enters the ring is a run of the received stream from where it was or from the last I-VOP drained; from any state, the ring stays without holes exactly when that run continues the last one or starts at an I-VOP, and nothing is missing afterwards exactly when nothing was truncated; a room of at least what is drained excludes truncation, and so does any flush; for a decoder that stands still the condition is exact |
| `Mpeg4Resync.TcpFeed.Refeed` | apps/vpu_stream.c:2080-2093 | flush and re-feed commit the drained bytes from the chosen start on, all of them after a flush |
| `Mpeg4Resync.HoleAfterLoss` | apps/vpu_stream.c:2015-2030 | after a truncation the next bytes leave a hole unless they happen to start at an I-VOP, and only then do they not |
| `Mpeg4Resync.AnyRun` | apps/vpu_stream.c:1898-2094 | over any run of receives and skips the ring is given, and the decoder reads, runs of the received stream; unless some skip truncated, each run after the first continues the one before it or starts at an I-VOP; no skip truncates while all that has been received would have fitted the room at the start |
| `Mpeg4Resync.TruncationExample` | apps/vpu_stream.c:2023-2030 | a run from an empty ring that truncates: a decoder that stands still and 32 windows of 32 KB without an I-VOP |
| `Mpeg4Resync.TcpFeed.Drain` | apps/vpu_stream.c:2070-2078 | the receive loop takes exactly what the calls return, up to the drain buffer, until one returns nothing |
| `RtpRoundTrip.HeaderParses` | apps/vpu_stream.c:1494-1511 | the fixed header of RFC 3550 sections 5.1 and 5.3.1 survives: version, sequence number, timestamp, marker, source count and extension bit |
| `RtpRoundTrip.PayloadParses` | apps/vpu_stream.c:1512-1523 | the payload is found behind any contributing sources and any header extension |
| `RtpRoundTrip.OnlyPackets` | apps/vpu_stream.c:1494-1523 | the converse: what the receiver takes for a payload is all that is behind the sources and the extension that the header announces |
| `RtpRoundTrip.Foreign` | apps/vpu_stream.c:1494-1495 | a datagram that is too short or of another version changes nothing |
| `RtpRoundTrip.OtherTypes` | apps/vpu_stream.c:1528-1585 | payloads of other types, and fragments without their header, stage nothing |
| `RtpRoundTrip.AggregatedParses` | apps/vpu_stream.c:1538-1560 | an aggregation packet splits into exactly the NAL units put into it, up to what is cut off at its end |
| `RtpRoundTrip.SoakSplit` | apps/vpu_stream.c:1561-1585 | fragments of a NAL unit, cut anywhere, stage the unit behind its start code |
| `RtpRoundTrip.SoakParcels` | apps/vpu_stream.c:1528-1585 | any mix of single, aggregated and fragmented units stages the Annex B form of what may pass, parameter sets before each IDR slice: everything, or while an IDR is awaited the units of types 5, 7 and 8, fragmented ones of type 5 only |
| `RtpRoundTrip.UnitDelivered` | apps/vpu_stream.c:1486-1590 | packets with consecutive numbers, one timestamp and a marker on the last, none of them refused room, commit once, at the marker, what their payloads stage, also while an IDR is awaited |
| `RtpRoundTrip.Recovery` | apps/vpu_stream.c:1486-1590 | a receiver in step and with room, that may await an IDR, commits exactly the Annex B form of what may pass of any access unit, parameter sets alone included, and waits no longer if and only if there is an IDR slice in it |
| `RtpRoundTrip.RoundTrip` | apps/vpu_stream.c:1486-1590 | when nothing is refused room, a synchronised receiver commits exactly the Annex B form of every access unit sent in any packetization, and stays synchronised |
| `RtpResync.Resync` | apps/vpu_stream.c:1346-1590 | from any state a run can reach: of a whole unit with a new timestamp and room, the receiver commits all, or after a loss what may pass, without the first parcel if a gap comes before a fragment, and nothing in exactly two cases; it is in step afterwards, and awaits an IDR if and only if it did or something was lost, and no IDR slice was committed |
| `RtpResync.RunsAreSane` | apps/vpu_stream.c:1486-1590 | every state of every run is one that Resync speaks of |
| `RtpResync.FreshInStep` | apps/vpu_stream.c:2604-2606 | a new receiver is in step with every sender and awaits nothing |
| `RtpExamples.ParameterSetExample` | apps/vpu_stream.c:1528-1536 | byte by byte: a parameter set alone gets through to a receiver that awaits an IDR |
| `RtpExamples.FragmentsExample` | apps/vpu_stream.c:1494-1585 | byte by byte: an IDR slice in two fragments, behind an extension and a contributing source, ends the wait |
| `RtpExamples.SpoiledExample` | apps/vpu_stream.c:1497-1511 | byte by byte: a lone fragment spoils the unit after its own |
| `RtpDelivery.FeedUnit` | apps/vpu_stream.c:1486-1590 | on the ring, the packets of a unit commit what they stage whenever that and 512 bytes more fit the room, at any pace of the decoder |
| `RtpDelivery.FeedDirect` | apps/vpu_stream.c:1797-1839 | the receive loop gives the handler the waiting datagrams in order, up to the first empty one and at most 256; the result is the number of bytes committed, -1 for none, and 0 exactly when an empty datagram ended it; a packet that finds room for itself, what is staged and 512 bytes is refused nothing |
| `RtpDelivery.FeedBurst` | apps/vpu_stream.c:1797-1839 | what may pass of an access unit of at most 256 packets that is waiting as a whole is delivered by one call, which returns its size, whenever it and 512 bytes more fit the room |
| `RtpDelivery.FeedAccessUnit` | apps/vpu_stream.c:1486-1590 | recovery and round trip on the ring: what may pass of an access unit arrives exactly whenever it and 512 bytes more fit the room; with a decoder that stands still, only then |
| `RtpGate.PlanHonest` | apps/vpu_stream.c:1528-1585 | with an IDR awaited everything a packet asks to be staged is a NAL unit of type 5, 7 or 8, the parameter sets, or the body of a fragment of type 5; and the IDR flag is set exactly when an IDR slice starts in it |
| `RtpGate.UnitStartMeans` | apps/vpu_stream.c:1501-1509 | every arrival adds to a unit that starts at the last arrival which found nothing staged |
| `RtpGate.Invariants` | apps/vpu_stream.c:1486-1590 | after every packet of every run: a unit that is not spoiled holds exactly what its packets asked for, they are consecutive, they passed the gate if it is closed, and the IDR flag is right |
| `RtpGate.CommittedUnits` | apps/vpu_stream.c:1321-1344 | the bytes committed are those of all items of the packets since the unit started; the gate opens exactly when an IDR slice starts in one of them |
| `RtpGate.StaysClosed` | apps/vpu_stream.c:1327-1341 | after a sequence gap or an abandoned unit need_idr stays set until a unit with an IDR slice is committed |
| `RtpGate.LossMeans` | apps/vpu_stream.c:1346-1374 | a loss, in terms of what has arrived: the packet has not the number after the last valid one, or a new timestamp while bytes are staged |
| `RtpGate.IdrGate` | apps/vpu_stream.c:1321-1374 | in every run of the handler, the bytes committed between a loss and the first such commit are put together from NAL units of types 5, 7 and 8, parameter sets and fragments of type 5 |
| `RtpGate.CommittedUnitsAreGapFree` | apps/vpu_stream.c:1486-1590 | in every run of the handler, a committed unit is all its packets asked for, and of all valid packets from where it started to its marker each has the number after its predecessor modulo 2^16 and the same timestamp |
| `RtpSession.FallBack` | apps/vpu_stream.c:3284-3285 | feed() on the datagram socket changes nothing, or commits a raw datagram, after which the staged unit is taken to start that many bytes further on; with 512 bytes of room, a readable socket and a datagram it does, and for a decoder that stands still exactly then |
| `RtpSession.Session` | apps/vpu_stream.c:3040-3285 | in any session, up to the first fallback that receives something, the ring is given exactly what the handler commits; while 512 bytes of the room are left there is such a fallback if and only if one finds a datagram; for a decoder that stands still, if and only if one finds a datagram and what has been committed by then leaves 512 bytes |
| `RtpSession.BreachExample` | apps/vpu_stream.c:3284-3285 | a run in which a P slice reaches the ring while an IDR is awaited |
| `RtpDirect.LocatePayload` | apps/vpu_stream.c:1512-1523 | skipping sources and extension finds the payload of the packet semantics |
| `RtpDirect.DirectReceiver.CheckSequence` | apps/vpu_stream.c:1346-1374 | detects exactly the gaps of the packet semantics and updates its fields so |
| `RtpDirect.DirectReceiver.AppendNal` | apps/vpu_stream.c:1311-1319 | start code and unit are both staged, or the unit is marked bad |
| `RtpDirect.DirectReceiver.AppendAggregated` | apps/vpu_stream.c:1538-1560 | the in-place loop stages the gated units of the packet in order |
| `RtpDirect.DirectReceiver.AppendFragment` | apps/vpu_stream.c:1561-1585 | a fragment is staged, held back or marks the unit bad as the packet semantics says |
| `RtpDirect.DirectReceiver.CheckTimestamp` | apps/vpu_stream.c:1497-1511 | a new timestamp abandons what is staged and asks for an IDR; a gap inside a unit spoils it |
| `RtpDirect.DirectReceiver.FlushUnit` | apps/vpu_stream.c:1321-1344 | the marker commits the whole staged unit or drops it, and the ring never refuses it |
| `RtpDirect.DirectReceiver.HandlePacket` | apps/vpu_stream.c:1486-1590 | one call, with the decoder reading on at any speed, is one step of the packet semantics; what it commits is appended to the ring and nothing unread changes; with room nothing is refused |
| `RtpBuffered.ParcelsTaken` | apps/vpu_stream.c:1417-1479 | the buffered receiver stages what survives of any parcels, or is spoiled for want of room, exactly by the two buffers |
| `RtpBuffered.FragmentsTaken` | apps/vpu_stream.c:1450-1479 | fragments after the first complete the unit, or lose it exactly when the fragment buffer overflows |
| `RtpBuffered.UnitWritten` | apps/vpu_stream.c:1376-1484 | a whole unit is written at its marker unless the handler gave up on the last packet |
| `RtpBuffered.BufferedExact` | apps/vpu_stream.c:1376-1484 | for every access unit, in step, awaiting an IDR or not: it writes what survives the fragment buffer, unless that exceeds the unit buffer or the last NAL unit is lost; and when it waits no longer |
| `RtpBuffered.BufferedRecovery` | apps/vpu_stream.c:1376-1484 | what may pass of an access unit is written if and only if it keeps within the two buffers; then it waits no longer if and only if there is an IDR slice in it |
| `RtpBuffered.BufferedRoundTrip` | apps/vpu_stream.c:1376-1484 | the buffered handler writes the Annex B form of an access unit if and only if that is at most 512 KB and every fragmented NAL unit at most 128 KB |
| `RtpBuffered.SameBytes` | apps/vpu_stream.c:1376-1590 | so the two handlers deliver the same bytes for a unit exactly within those limits, awaiting an IDR or not, when the direct one is refused no room |
| `RtpDelivery.FeedBoth` | apps/vpu_stream.c:1376-1590 | the same with the ring and the two buffers, given room for the unit and 512 bytes more, as long as no write to the descriptor fails |
| `RtpBufferedReceiver.BufferedReceiver.AppendNal` | apps/vpu_stream.c:1197-1211 | a unit goes into the buffer with its start code, or marks it bad, exactly by the room left |
| `RtpBufferedReceiver.BufferedReceiver.AppendBytes` | apps/vpu_stream.c:1213-1225 | the same without start code |
| `RtpBufferedReceiver.BufferedReceiver.WriteAll` | apps/vpu_stream.c:490-502 | writes on until everything is out or a call takes nothing; what has been written by then, and the result, are exactly those of the sequence of counts |
| `RtpBufferedReceiver.BufferedReceiver.FlushUnit` | apps/vpu_stream.c:1227-1249 | writes the whole unit or drops it; if the descriptor does not take all of it, a front part is written, -1 returned, and the unit is gone and the gate opened all the same |
| `RtpBufferedReceiver.BufferedReceiver.TakeFragment` | apps/vpu_stream.c:1450-1479 | the fragment branch on the byte buffers is that of the packet semantics |
| `RtpBufferedReceiver.BufferedReceiver.HandlePacket` | apps/vpu_stream.c:1376-1484 | one call on the two byte buffers is one step of the packet semantics, also when a write fails; then a front part of the output is written and -1 returned |
| `RtpDelivery.FeedBuffered` | apps/vpu_stream.c:1734-1755 | over any packets, everything is written as the packet semantics says, or up to the first write that fails a proper front part of it |
| `DmaPool.Pool.FindArea` | kernel/mxc_vpu.c:235-237 | the first run of enough free pages in a block, or none |
| `DmaPool.Pool.FirstFit` | kernel/mxc_vpu.c:233-243 | the lowest run of the first block that has one; fails exactly when no block has one |
| `DmaPool.PagesHold` | kernel/mxc_vpu.c:226 | the page count is the least that holds the bytes asked for, and zero exactly for none or within a page of 4 GB |
| `DmaPool.Pool.HoldsAll` | kernel/mxc_vpu.c:214-264 | the bytes asked for by live buffers lie inside a block each and overlap nowhere |
| `DmaPool.Pool.Take` | kernel/mxc_vpu.c:224-245 | zero exactly for no bytes, for more than a block, or with no run free; otherwise the lowest run of the first block that has one, as a page-aligned buffer that holds the bytes asked for, apart from all others, its pages marked |
| `DmaPool.Pool.PoolFree` | kernel/mxc_vpu.c:247-264 | unmarks exactly the pages from the address on, in the block that it lies in if any |
| `DmaPool.Pool.Release` | kernel/mxc_vpu.c:247-264 | for a live buffer these are its own pages; all others stay sound |
| `DmaPool.Pool.OneOwner` | kernel/mxc_vpu.c:214-264 | a page is marked if and only if exactly one live buffer owns it |
| `DmaPool.Pool.PhymemAlloc` | kernel/mxc_vpu.c:1209-1248 | result code for every case; success adds one record; a failed copy-out, and only that, leaves marked pages in nobody's list; the bytes asked for by live buffers overlap nowhere |
| `DmaPool.Pool.PhymemFree` | kernel/mxc_vpu.c:1249-1278 | for any descriptor within its block: the record of that address goes, exactly its pages are unmarked, and the invariant is kept if and only if no page of an owner that stays is among them and all pages of the dropped record are |
| `DmaPool.Pool.HarmlessWhen` | kernel/mxc_vpu.c:1249-1278 | so it is for every listed buffer, never for the work buffer, and for a stale descriptor exactly when nobody owns its pages |
| `DmaPool.Pool.GetWorkAddr` | kernel/mxc_vpu.c:1463-1486 | the work buffer is allocated at the first call that can and never again |
| `DmaPool.Pool.FreeBuffers` | kernel/mxc_vpu.c:299-316 | every listed buffer is released and the list emptied |
| `DmaPool.Pool.Close` | kernel/mxc_vpu.c:1555-1574 | after the last close exactly the work buffer is marked if and only if no copy-out had failed |
| `DmaPool.AnyRequests` | kernel/mxc_vpu.c:1189-1278 | over any sequence of opens, closes, allocations, frees of listed buffers and work-buffer requests, the bytes asked for stay apart and the marked pages are those of the live buffers, and after a last close exactly the work buffer is marked if and only if no copy-out has failed |
| `DmaPool.LeakExample` | kernel/mxc_vpu.c:1233-1240 | a run of one failed copy-out after which the last close leaves a page marked |
| `DecoderLock.Library.constructor` | lib/vpu_util.c:969-1021 | the pool starts with every slot free and numbered, the lock free |
| `DecoderLock.Library.GetCodecInstance` | lib/vpu_util.c:158-180 | the first free slot, cleared but for its index; none exactly when all four are in use |
| `DecoderLock.Library.CheckValid` | lib/vpu_util.c:226-268 | accepts exactly the pool slots in use |
| `DecoderLock.Library.DecOpen` | lib/vpu_lib.c:1847-1964 | keeps the lock invariant on every return; a new handle is a slot nobody had; a slot leaks exactly when the second lock fails |
| `DecoderLock.Library.DecClose` | lib/vpu_lib.c:1976-2030 | keeps the invariant also for an abandoned frame, whose lock it gives back; succeeds exactly when no other instance is pending and the lock comes in time |
| `DecoderLock.Library.GetInitialInfo` | lib/vpu_lib.c:2075-2329 | result code for every case, lock invariant on each of the error returns; only success changes the instance |
| `DecoderLock.Library.RegisterFrameBuffer` | lib/vpu_lib.c:2349-2490 | the same; a lock timeout leaves the buffers recorded without the codec knowing of them |
| `DecoderLock.Library.StartOneFrame` | lib/vpu_lib.c:2636-2914 | the lock stays held exactly on success, with this instance pending |
| `DecoderLock.Library.GetOutputInfo` | lib/vpu_lib.c:2928-3265 | succeeds exactly for the pending instance, and then gives the lock back |
| `DecoderLock.Library.BitBufferFlush` | lib/vpu_lib.c:3267-3307 | result code for every case; the lock is left as it was |
| `DecoderLock.Library.ClrDispFlag` | lib/vpu_lib.c:3309-3339 | clears one flag of one instance's own register; while any frame is in flight it clears nothing and times out |
| `DecoderLock.Library.SetEscSeqInit` | lib/vpu_lib.c:2032-2059 | result code for every case; the lock is left as it was |
| `DecoderLock.Library.GiveCommand` | lib/vpu_lib.c:3353-3617 | only the SPS download needs the lock; it is left as it was |
| `DecoderLock.AnyClient` | lib/vpu_lib.c:1847-3617 | over any sequence of decoder calls by any client the lock is held between calls exactly when an instance is pending; slots leak only through a failed second lock |
| `DecoderLock.NewHandle` | lib/vpu_lib.c:1847-3339 | the life of a handle just opened: nothing before a sequence header, the header once, the buffers once, then frames; the result code of every call |
| `DecoderLock.NextSession` | lib/vpu_lib.c:1991-2004 | after a session abandoned in mid-frame, closing it lets the next one open |
| `DecoderLock.PoolLost` | lib/vpu_lib.c:1944-1945 | a run of four opens that leaves the pool used up with no handle open |
| `DecoderLock.DistinctHandles` | lib/vpu_lib.c:1885-1918 | open handles are distinct slots with distinct register indices |
| `FrameCustody.Session.Render` | apps/vpu_stream.c:3122-3140 | the conversion tries the withheld picture only, before its release; an H.264 picture only while the decoder is idle |
| `FrameCustody.Session.Pipeline` | apps/vpu_stream.c:3122-3140 | at most one successful conversion while the next frame is decoded, and never of an H.264 picture; a failure switches it off for 120 turns |
| `FrameCustody.Session.Finish` | apps/vpu_stream.c:3197-3245 | a withheld picture is tried if that was not done, and released exactly once |
| `FrameCustody.Session.Receive` | apps/vpu_stream.c:3247-3284 | a picture handed out is withheld exactly while pictures are shown or in decode-only mode, and released at once otherwise |
| `FrameCustody.Session.Collect` | apps/vpu_stream.c:3170-3284 | at the end of decoding the withheld picture is finished and the one handed out takes its place exactly while pictures are shown or in decode-only mode |
| `FrameCustody.Session.TakeTurn` | apps/vpu_stream.c:3001-3321 | one turn keeps the custody invariant, leaves the loop exactly for the reasons the source has, and withholds exactly the picture the source would; a frame is in flight at the end exactly if the peer left during decoding; a failed pipeline stays off for 120 turns |
| `FrameCustody.Session.Disconnect` | apps/vpu_stream.c:3322-3333 | the way out releases the withheld picture; with a frame in flight that call has no effect, and the close gives the lock back |
| `FrameCustody.Session.Run` | apps/vpu_stream.c:3001-3333 | over any turns, every picture handed out is released exactly once on every way out, at most one is withheld, each is converted successfully at most once and before its release, and each for display but the last has been tried; with release calls in time, one is without effect if and only if the peer leaves in mid-frame while a picture is withheld |
| `FrameCustody.StuckExample` | apps/vpu_stream.c:3322-3333 | a run of two turns after which the release of the withheld picture has been without effect and its display flag is still set |
| `Md5.FoldConcat` | apps/vpu_stream.c:652-660 | compressing whole blocks in pieces is compressing them in one go |
| `Md5.Filled` | apps/vpu_stream.c:638-662 | data that fills the buffered block: the state moves on from the filled block, and the new rest is that of the remaining data |
| `Md5.StillShort` | apps/vpu_stream.c:638-662 | data that does not fill it leaves the state alone and joins the rest |
| `Md5.CountModulo` | apps/vpu_stream.c:641-643 | the 64-bit byte counter wraps without harm to the fill level |
| `Md5.BitCount` | apps/vpu_stream.c:668-674 | and its eightfold is the bit count modulo 2^64 |
| `Md5.OneStep` | apps/vpu_stream.c:601-622 | one turn of the 64-step loop, written with its own forms of the auxiliary functions and word indices, is the operation of RFC 1321 section 3.4 |
| `Md5.Turns` | apps/vpu_stream.c:601-622 | the loop is the 64 operations in order |
| `Md5.LoadWords` | apps/vpu_stream.c:596-600 | the block is read as sixteen words, low-order byte first |
| `Md5.Context.Block` | apps/vpu_stream.c:567-627 | one block is one compression of RFC 1321 |
| `Md5.Context.TopUp` | apps/vpu_stream.c:643-654 | the buffered bytes are topped up, and compressed exactly when they fill a block |
| `Md5.Context.Blocks` | apps/vpu_stream.c:655-661 | whole blocks are compressed from the input, the rest is buffered |
| `Md5.Context.Update` | apps/vpu_stream.c:638-662 | after any sequence of calls the state is that of the concatenated message and the buffer holds its last length-mod-64 bytes |
| `Md5.Context.Final` | apps/vpu_stream.c:664-685 | the output is the one-shot digest of RFC 1321 sections 3.1 to 3.5 of everything hashed, however it was split |
| `Md5Suite.AbcDigest` | apps/vpu_stream.c:567-685 | the digest of "abc" is that of RFC 1321, appendix A.5, worked through all 64 operations |
| `Md5Suite.HashAbc` | apps/vpu_stream.c:567-685 | the context comes to it, however the message is split |
| `Base64.Decode` | apps/vpu_stream.c:514-535 | the decoded bytes are the leading bits of the digits before the first stop character; -1 exactly when they exceed the buffer; nothing behind them is written |
| `Base64.DigitsStop` | apps/vpu_stream.c:518-522 | what follows a NUL, comma, semicolon, line end or padding does not change the result |
| `Base64.DigitsSkip` | apps/vpu_stream.c:523-525 | any other character outside the alphabet is passed over |
| `Base64.AlphabetDigits` | apps/vpu_stream.c:504-512 | the alphabet of RFC 4648, section 4, character by character, both ways |
| `Base64.LowBits` | apps/vpu_stream.c:526-530 | the 32-bit wrap of the accumulator does not reach the bits still pending |
| `Base64.PendingByte` | apps/vpu_stream.c:526-533 | a digit that completes a byte emits exactly the leading pending byte; only the low valb + 8 bits matter |
| `Base64.Encode` | apps/vpu_stream.c:537-554 | writes the encoding of RFC 4648 section 4 of as many whole groups as fit with the final NUL |
| `Base64.FitsWhole` | apps/vpu_stream.c:543-544 | nothing is cut exactly when the padded text and its NUL fit the buffer |
| `Base64.Vectors` | apps/vpu_stream.c:537-554 | the test vectors of RFC 4648, section 10, of four to six bytes |
| `Base64.RoundTrip` | apps/vpu_stream.c:514-554 | what the encoding of any byte string decodes to is that string and nothing else |
| `Base64.ThereAndBack` | apps/vpu_stream.c:514-554 | encoding into one buffer and decoding into another returns the text, cut to the whole groups that fit the first, or -1 exactly when that does not fit the second; nothing is cut exactly when the padded text and its NUL fit |
| `Base64.Value256Injective` | apps/vpu_stream.c:514-535 | equally long byte strings of equal value are equal: the reading by value determines the bytes |

## Left out

- PpResize.BuildResize: picture sizes are unbounded integers; the source's 32-bit sums would wrap for reduced sizes beyond a billion, far above what the registers hold.
- BitstreamRing.Ring.UpdateBitstreamBuffer: file-play mode is not modelled; the overrun by an oversized update is stated for a decoder that stands still.
- DmaPool.Pool.PoolFree: the same as for PhymemFree.
- DmaPool.Pool.GetWorkAddr: a failing first call leaves what the caller passed in the driver's descriptor; with a non-zero address in it, which the library does not pass, the driver would take that for the work buffer.
- DmaPool.AnyRequests: buffers are freed by their place in the list; for other descriptors PhymemFree has the exact condition of one call.
- DmaPool.Pool.PhymemFree: a descriptor whose pages run past the end of its block, for which the driver clears bits beyond the bitmap, is not modelled; nor is one whose two addresses differ.
- RtpResync.Resync: states it of the direct handler; of the buffered one, only from a state in step (BufferedExact).
- RtpSession.Session: a session is followed up to its first fallback that receives something; from then on au_len may exceed the room, and the pointers need not delimit the queue any more.
- DecoderLock.Library.CheckValid: slots held by encoder instances, which it tells by their codec mode, are not modelled.
- DecoderLock.Library.GiveCommand: commands that only store settings are one case with a given result; they touch neither lock nor pool.
- DecoderLock.Library.DecOpen: the register lock taken inside it, and encoder instances in the same pool, are not modelled.
- DecoderLock.Library.GetOutputInfo: the picture information it copies out is reduced to the display flags.
- `prp_set_scaler` and all register programming, interrupts, clocks, mmap and module set-up: hardware effects without a checkable meaning here.
- The MPEG-4 RTP handler and its resync flag: it repeats the ring's commit without the gate's structure.
- The H.264 branch of `find_resync_start`: its caller returns before reaching it.
- The encoder API and `vpu_SWReset`: they release or keep the lock outside the decoder protocol.
- `SET_BITWORK_MEM`, `QUERY_BITWORK_MEM` and shared-memory ioctls: they store a descriptor and touch no page.
- State left in shared memory by an earlier process: the model starts from a null pending pointer.
- Sockets, RTSP and SDP text, argument and configuration handling, logging, framebuffer and overlay calls, watchdog clocks: input and output, present only as parameters.
- The colour converters, IRAM layout and the sender scripts: they would only add easy members.
