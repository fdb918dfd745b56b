# Ghostframe client: a verified model

Ghostframe streams a remote screen over QUIC datagrams. A tile travels as a wavelet
transform cut into bit-plane passes, as palette indices or as one colour; full-screen video
travels as H.264 access units cut into fragments. Datagrams are lost, duplicated and
reordered; every counter on the wire wraps. This project models the client's receive path,
from the datagram to the exported framebuffer, together with the codec it shares with the
server and the framing of the packet bridge, and proves what that path keeps over whole runs.

`dafny verify dfyconfig.toml` checks everything (Dafny 4.11).

## What is proved, file by file

- `Serial.dfy`, `SerialMax.dfy`: wrapping frame labels beside unbounded true numbers, exactly
  where the wrapped comparison is the true order, and a wrapped maximum.
- `Bytes.dfy`, `BitPlanes.dfy`, `Wavelet.dfy`, `TileCodec.dfy`: the CDF 5/3 codec. The
  integer transform, the sparse bit-plane passes and their decoding round-trip on every tile.
- `PassWire.dfy`: run-length coding and framing of a pass; the two ways the client takes a
  pass agree on every payload.
- `TileState.dfy`, `TileDecoder.dfy`, `SteadyContents.dfy`: progressive reconstruction. Decoding
  events in batches, with one reconstruction per tile and batch, shows exactly what decoding
  them one by one shows, and exactly for which contents that holds of every stream.
- `Coverage.dfy`, `Reassembly.dfy`: per-tile coverage, and the lock-step between it and the
  pixel decoder over every run of datagrams: planes of two pictures never blend.
- `WholeClient.dfy`: the pieces put together, from datagrams to the screen: the datagram that
  completes a tile leaves exactly the server's tile on the screen, where it stays; and from the
  server's payload bytes to those datagrams.
- `TailSweep.dfy`, `Batchers.dfy`, `ClientTimers.dfy`, `QueueRuns.dfy`: requests for lost
  passes, batching and deadlines. Requests are justified, bounded and sent pass by pass; the
  clock never spins.
- `WireLoss.dfy`: loss measurement on a 512-slot ring, against what the counters are said to mean.
- `Parity.dfy`, `ParityEmitter.dfy`, `ParityWindow.dfy`, `ParityDecoder.dfy`: forward error
  correction; what is rebuilt is what was sent, and which groups can still be rebuilt.
- `GateLog.dfy`, `H264Gate.dfy`, `FrameAcks.dfy`, `H264Session.dfy`, `FrameAssembly.dfy`,
  `FrameTurns.dfy`: H.264 fragments, what the wrap of frame numbers does to them, the reference
  gate, and acknowledgements that never claim a picture a failed decoder produced.
- `Dirty.dfy`, `Coalescing.dfy`, `ExportRing.dfy`, `RingIds.dfy`: damage tracking and the export
  ring; partial copies always yield the whole framebuffer, and what a frame id that comes round does.
- `PaintOrder.dfy`: which draws may still be painted.
- `PalRle.dfy`, `PalEncode.dfy`, `TilePaints.dfy`: palette tiles, decoded in one go or split
  between core and decoder; the server's encoder, and solid and palette tiles from the datagram
  to the colour of every pixel on the screen.
- `PacketFrame.dfy`: the packet bridge's framing and its caches.

## How the model is built

- Objects the source updates in place are classes; loops are loops. Each is proved against a
  function or predicate over values. Ghost fields hold what a proof needs and the program does
  not have: full histories, true sequence numbers, logs.
- Bit masks are sets of bit numbers. A hash map whose iteration order is unspecified is drained
  in an arbitrary order. Clocks, the resolver, the video decoder and the GPU copy are parameters.
- Sequence numbers that wrap are kept wrapped; statements about order carry the true number as a
  ghost parameter and name the distance within which they hold.

## Where the code and its documentation part

Each has the input or run on which they part, and the exact condition under which they do not.

- The loss ring keeps agreeing with the true arrivals after a forward step exactly when the new
  number is less than 512 past the last settled one; a larger step below the resynchronisation
  jump leaves flags that name other numbers (`WireLoss.JudgesWrongly`, condition in
  `WireLoss.WireLossTracker.OnReceived`).
- `received` and `late_after_declared` also count late copies of datagrams that had arrived in
  time (`WireLoss.LateCopy`, conditions in `WireLoss.WireLossTracker.Replay`); a rebuilt copy of
  one counts as recovered (`WireLoss.RebuiltCopy`, condition in
  `WireLoss.WireLossTracker.OnRebuilt`).
- A bitmap that names pass 14 or 15 gives a tile whose prefix is full but whose mask never
  counts as complete (`TileState.CompleteMaskVersusFullPrefix`).
- A pass the bitmap does not name is stored all the same. If it is not empty, batched decoding
  and decoding one at a time may end with different screens
  (`SteadyContents.BatchAgreesIffSteady`, `SteadyContents.MisnamedIsUnsteady`).
- Dropping old parities is documented as dropping only what nothing can bring back; after a jump
  in the numbers it drops groups that further arrivals would have completed
  (`ParityDecoder.PruningForfeits`, condition in `ParityWindow.RebuiltLaterIff`).
- Gaps of superseded content are documented as never asked for. The queue of requests is keyed
  without the frame label, so a request that waits keeps the label the tile has left
  (`QueueRuns.OldLabelIsSent`, conditions in `ClientTimers.Clockwork.OnSource` and
  `ClientTimers.OldLabelsSent`).
- The request deadline is documented as armed only when the queue becomes non-empty; it stays
  armed when a new grid empties the queue (`QueueRuns.ArmedForNothing`, condition in
  `ClientTimers.Clockwork.QueueOk`).
- Frame assembly compares frame numbers without regard to wrapping, so after 2^31 frames no P
  frame is taken (`FrameTurns.LostAtTheWrap`, conditions in `FrameTurns.JudgedRightlyIff` and
  `FrameTurns.TakenWholeIffOneTurn`).
- Frame ids of the export ring are documented as unique; one that comes round while a frame
  still held has it confuses the two (`RingIds.HeldIdComesRound`, `RingIds.RetiredIdComesRound`,
  condition in `ExportRing.HeldAfterPublish`).
- Every frame still in a failed decoder is documented as reported refused, and only those. The
  boundary of the last failure is kept for good, so from 2^30 frames on the wrapped test can take
  the wrong side (`H264Session.FailedFrameCredited`, `H264Session.GoodFrameRefused`, condition in
  `H264Session.Session.H264Result`).

## Model

| member | source | states |
|---|---|---|
| `Serial.NewerIffTrueOrder` | ghostframe-client-core/src/cdf53_coverage.rs:113-116 | For true numbers less than a full turn apart, the 31-bit wrapping comparison agrees with the true order if and only if their difference lies in [-2^30, 2^30) |
| `Serial.NewerIffNearSide` | ghostframe-client-core/src/h264_gate.rs:81-84 | For any two true numbers, however many turns apart, the wrapped comparison is the true order if and only if the difference falls in the near half of its turn |
| `Serial.ExpiredIffTrueAge` | ghostframe-client-core/src/cdf53_coverage.rs:174-186 | A held label is expired exactly when it is more than 2^29 behind the newest received number or more than 4096 ahead of it |
| `Serial.RunsAheadIffTrueLead` | ghostframe-client-core/src/cdf53_coverage.rs:162-170 | A label is dropped as implausible exactly when it leads the newest received number by more than 4096 |
| `Serial.GenerationIffTrueOrder` | ghostframe-client-core/src/cdf53_coverage.rs:103-107 | For true generations less than a turn of 16 apart the wrapped comparison is the true order if and only if they differ by -8 to 7 |
| `Serial.ClassifySameLabel` | ghostframe-client-core/src/cdf53_coverage.rs:213-234 | Under one label the true generation decides: the same continues, a newer starts over, an older is stale |
| `Serial.ClassifyMatchesTrueOrder` | ghostframe-client-core/src/cdf53_coverage.rs:213-234 | After the two label filters, with an arrival at most 2^29 behind, distinct labels are classified by their true order |
| `Serial.ClassifyExactly` | ghostframe-client-core/src/cdf53_coverage.rs:213-234 | Without those filters the classification is the true order if and only if the distance lies in [-2^30, 2^30), with a concrete pair that is misjudged |
| `BitPlanes.DecodePlanesLoop` | ghostframe-protocol/src/codec/cdf53.rs:846-899 | The accumulating loops compute, for every prefix of planes, the coefficients `BitPlanes.PartialDecode` places |
| `BitPlanes.AddPlane` | ghostframe-protocol/src/codec/cdf53.rs:846-899 | One plane's pass over the coefficients adds exactly that plane's bit to every magnitude, or sets the signs for plane 0 |
| `BitPlanes.NonZeroIffBit` | ghostframe-protocol/src/codec/cdf53.rs:846-899 | A coefficient decodes to non-zero exactly when some magnitude plane has its bit: the midpoint never creates or cancels a coefficient |
| `BitPlanes.NonZeroGrows` | ghostframe-protocol/src/codec/cdf53.rs:846-899 | Planes that show anything still do when planes are added or bits are set |
| `BitPlanes.ExtractPlane` | ghostframe-protocol/src/codec/cdf53.rs:617-635 | Every bit of the packed plane is the sign or magnitude bit of its coefficient |
| `BitPlanes.MagnitudeTruncates` | ghostframe-protocol/src/codec/cdf53.rs:846-899 | Decoding the first k planes gives each magnitude with its unsent low bits cut off |
| `BitPlanes.PartialDecode` | ghostframe-protocol/src/codec/cdf53.rs:870-899 | From 2 to 13 planes: the true magnitude lies in the interval the planes leave open; a coefficient whose interval starts at zero stays zero, any other is put in the middle of its interval with its own sign, so it is off by at most half the interval |
| `BitPlanes.DecodeInvertsExtract` | ghostframe-protocol/src/codec/cdf53.rs:846-899 | Decoding all 14 extracted planes gives the coefficients back exactly |
| `BitPlanes.ZeroPlaneStandsIn` | ghostframe-protocol/src/codec/cdf53.rs:569-612 | A plane left out by sparse encoding may be replaced by a zero plane without losing a bit |
| `Wavelet.RowForwardInPlace` | ghostframe-protocol/src/codec/cdf53.rs:342-363 | The in-place lifting, predict then update then de-interleave, leaves the low half and the high half of the transformed row |
| `Wavelet.RowInverseInPlace` | ghostframe-protocol/src/codec/cdf53.rs:477-498 | The in-place inverse leaves exactly the synthesised row |
| `Wavelet.RowRoundTrip` | ghostframe-protocol/src/codec/cdf53.rs:342-363 | Synthesis undoes analysis on every integer row of even length, at the mirrored borders too |
| `Wavelet.FilterTaps` | ghostframe-protocol/src/codec/cdf53.rs:342-363 | Lifting computes the five-tap and three-tap filters of the transform, mirrored at the ends of the row, up to rounding |
| `TileCodec.Inverse3UndoesForward3` | ghostframe-protocol/src/codec/cdf53.rs:372-475 | Three levels of 2-D analysis are undone by three levels of synthesis |
| `TileCodec.CoarseFirst` | ghostframe-protocol/src/codec/cdf53.rs:72-150 | Coefficients are packed coarse before fine: the corner each level leaves for the next comes first |
| `TileCodec.TransformRoundTrip` | ghostframe-protocol/src/codec/cdf53.rs:38-154 | The full transform with its sub-band packing, and its inverse with clamping, give back every pixel of every BGRA tile |
| `TileCodec.ClampIsNearest` | ghostframe-protocol/src/codec/cdf53.rs:460-470 | A sample outside the byte range becomes the nearest byte |
| `TileCodec.CoefficientBound` | ghostframe-protocol/src/codec/cdf53.rs:38-154 | Every coefficient of every tile is at most 2635 in magnitude |
| `TileCodec.PassOneNeverSent` | ghostframe-protocol/src/codec/cdf53.rs:569-612 | Bit 12 is never set, so no tile ever carries pass 1 |
| `TileCodec.SparseTileRoundTrip` | ghostframe-protocol/src/codec/cdf53.rs:569-612 | The sparse pass set, with zero planes standing in, decodes to the tile's own pixels |
| `PassWire.RleEncode` | ghostframe-protocol/src/codec/cdf53.rs:645-669 | The encoder's loop yields the token stream whose expansion is the data |
| `PassWire.CompressExpands` | ghostframe-protocol/src/codec/cdf53.rs:645-669 | Expanding the run-length code gives back every byte string, and the code is at most twice as long |
| `PassWire.RleDecodeInto` | ghostframe-protocol/src/codec/cdf53.rs:679-712 | The bounded decoder reports the expanded length capped at 129, writes exactly the expansion to its slot, and touches nothing outside it |
| `PassWire.RleExpandedLen` | ghostframe-protocol/src/codec/cdf53.rs:719-737 | The branch-free count equals the decoder's capped length on every stream, a dangling escape included |
| `PassWire.ValidateCdf53` | ghostframe-client-core/src/cdf53_prevalidate.rs:90-102 | The check-only loop accepts, refuses and delimits exactly as the reference walk does |
| `PassWire.PrevalidateCdf53` | ghostframe-client-core/src/cdf53_prevalidate.rs:120-143 | The expanding loop gives the reference planes, bitmap and error |
| `PassWire.DecodeCdf53Wire` | ghostframe-client-core/src/cdf53_prevalidate.rs:107-118 | Late expansion of the framed streams gives the reference planes or error |
| `PassWire.ExpandChannels` | ghostframe-client-core/src/cdf53_prevalidate.rs:66-84 | Walking three framed blocks expands each to its own 128-byte slot, or stops at the first error in wire order |
| `PassWire.WireRouteAgrees` | ghostframe-client-core/src/cdf53_prevalidate.rs:90-143 | Validate-now-expand-later and expand-at-once accept the same payloads, fail with the same code, and agree on bitmap and planes |
| `PassWire.PassRoundTrip` | ghostframe-protocol/src/codec/cdf53.rs:569-612 | A pass framed by the server is expanded by the client to the same planes and bitmap, whatever bytes follow |
| `PassWire.PayloadRead` | ghostframe-client-core/src/cdf53_prevalidate.rs:120-143 | Every payload of the form, three length-prefixed streams of 128 bytes each and in pass 0 a bitmap naming pass 0 before them, is read as its bitmap and its three channels |
| `PassWire.PayloadAcceptedIff` | ghostframe-client-core/src/cdf53_prevalidate.rs:42-143 | A payload is accepted if and only if it has that form, whatever follows it; a pass that does not exist or a bitmap without pass 0 is refused as a bad pass, and nothing else is |
| `TileState.ResolvedPrefix` | ghostframe-client-core/src/cdf53_tile_state.rs:46-54 | The prefix length counts exactly the leading passes that are received or known absent |
| `TileState.FullPrefixIff` | ghostframe-client-core/src/cdf53_tile_state.rs:46-54 | The prefix is full if and only if every named pass below 14 has been received |
| `TileState.CompleteMaskVersusFullPrefix` | ghostframe-client-core/src/lib.rs:628-636 | The sweep's test for a complete tile agrees with a full prefix for every received set if and only if the bitmap names no pass above 13; with the bitmap of 0 and 14 and pass 0 received they part |
| `TileState.AccumulateKeepsCoherent` | ghostframe-client-core/src/cdf53_tile_state.rs:170-196 | Storing a pass, named by the bitmap or not, keeps a tile's planes those of one content and never shortens its prefix; another generation starts clean |
| `TileState.SteadyPicture` | ghostframe-client-core/src/cdf53_tile_state.rs:202-220 | Of a steady content, two entries that resolve the same prefix show the same picture, whatever other passes they hold |
| `TileState.NamesAllIsSteady` | ghostframe-client-core/src/cdf53_tile_state.rs:170-196 | A content whose unnamed passes are empty is steady; what the server sends is |
| `TileState.VisibleGrows` | ghostframe-client-core/src/cdf53_tile_state.rs:202-220 | An entry with something to show still has it after any further passes of its content |
| `TileState.FullPrefixShowsTheTile` | ghostframe-client-core/src/cdf53_tile_state.rs:202-220 | The full prefix of what the server sends for a tile is the tile's own pixels |
| `TileDecoder.CompletingPassShowsTheTile` | ghostframe-client-core/src/tile_decoder.rs:268-455 | The pass that completes a tile makes the decoder show the exact tile, in whatever order its passes came |
| `TileDecoder.PassMatches` | ghostframe-client-core/src/tile_decoder.rs:268-455 | Deferring a reconstruction keeps the coalescing decoder equal, up to the pictures it still owes, to the one-at-a-time decoder |
| `TileDecoder.FlushMatches` | ghostframe-client-core/src/tile_decoder.rs:497-521 | Paying an owed picture shows exactly what the one-at-a-time decoder already shows |
| `TileDecoder.SettledAgrees` | ghostframe-client-core/src/tile_decoder.rs:524-539 | With nothing owed, both decoders hold the same state and show the same tiles |
| `TileDecoder.TileDecoder.FlushTile` | ghostframe-client-core/src/tile_decoder.rs:497-521 | Flushing one tile is the reference flush, on any state: its picture is shown and nothing else changes |
| `TileDecoder.TileDecoder.FlushAll` | ghostframe-client-core/src/tile_decoder.rs:524-539 | Flushing every waiting tile, in order of first change, leaves nothing owed, on any state |
| `TileDecoder.TileDecoder.DecodeInto` | ghostframe-client-core/src/tile_decoder.rs:190-203 | Decoding one event is the one-at-a-time step on any event: state, output and everything shown; a steady stream stays in step |
| `TileDecoder.MarksAreHandedOn` | ghostframe-client-core/src/tile_decoder.rs:268-455 | Every event that is not about a tile or a palette is handed on once, in order, with everything before it shown |
| `TileDecoder.TileDecoder.DecodeCoalescing` | ghostframe-client-core/src/tile_decoder.rs:268-455 | One event inside a batch is the reference coalescing step on any event, with generation switches, paints and dimension changes flushing first |
| `TileDecoder.TileDecoder.DecodeBatch` | ghostframe-client-core/src/tile_decoder.rs:234-249 | A batch of any events is the reference batch; a steady stream stays in step, so with nothing owed state and screen are those of one at a time |
| `TileDecoder.TileDecoder.DecodeBatches` | ghostframe-client-core/src/tile_decoder.rs:234-249 | For any division of a steady stream into batches, state and every shown tile are those of decoding its events one at a time |
| `TileDecoder.BatchesAreRun` | ghostframe-client-core/src/tile_decoder.rs:234-249 | The batch decoder refines the one-at-a-time decoder over every steady stream and every division of it |
| `SteadyContents.BatchAgreesIffSteady` | ghostframe-client-core/src/tile_decoder.rs:234-249 | Over all streams of one content's passes, batched decoding shows what decoding one at a time shows if and only if no unnamed pass, by arriving late, changes the picture of a visible prefix |
| `SteadyContents.UnsteadyDiffers` | ghostframe-client-core/src/tile_decoder.rs:234-249 | Where one does, the stream on which the two decoders end with different screens |
| `SteadyContents.MisnamedIsUnsteady` | ghostframe-client-core/src/cdf53_tile_state.rs:202-220 | Every tile that is not blank, sent under a bitmap naming pass 0 alone, is such a content |
| `SteadyContents.SomeTileIsNotBlank` | ghostframe-client-core/src/cdf53_tile_state.rs:202-220 | There is such a tile, so the two decoders do differ on some stream |
| `Coverage.CollectBelow` | ghostframe-client-core/src/cdf53_coverage.rs:378-382 | The loop lists exactly the requested passes below the arriving one, ascending |
| `Coverage.ArrivalRequestsJustified` | ghostframe-client-core/src/cdf53_coverage.rs:267-394 | Every request an arrival raises names a pass owed by the tile's own bitmap, not received, not asked before and below the arrival; a broken pass asks only for itself |
| `Coverage.RequestsExactly` | ghostframe-client-core/src/cdf53_coverage.rs:267-394 | What an arrival asks for, exactly: a broken pass asks for itself unless its content asked before, and new content has asked for nothing; a further pass asks for every lower pass the bitmap names (pass 0 while there is none) that is neither received nor asked for; nothing else does |
| `Coverage.ArrivalLeavesNoSilentGap` | ghostframe-client-core/src/cdf53_coverage.rs:267-394 | When a pass lands, every owed lower pass is received or marked as asked for, and the passes marked by this arrival are exactly those it asks for |
| `Coverage.ArrivalLabel` | ghostframe-client-core/src/cdf53_coverage.rs:267-394 | The stored entry keeps the label of its content; exactly valid or current arrivals are stored |
| `Coverage.ApplyCdf53Arrival` | ghostframe-client-core/src/cdf53_coverage.rs:267-394 | The step-by-step update of a working entry is the arrival whose requests `Coverage.RequestsExactly` tells, and whose entry the lemmas beside it do |
| `Reassembly.ClientCore.AcceptFrameDimensions` | ghostframe-client-core/src/reassembly.rs:91-108 | A size within 1 to 8192 is taken, coverage outside a changed grid is dropped; any other size changes nothing |
| `TileDecoder.GridIsPixels` | ghostframe-client-core/src/reassembly.rs:66-74 | A frame size has exactly the tiles that hold one of its pixels, partial ones at the edges included |
| `Reassembly.SizeAccepted` | ghostframe-client-core/src/reassembly.rs:76-108 | A size is taken if and only if both sides are 1 to 8192; a changed one keeps coverage exactly where the frame has pixels |
| `Reassembly.DroppedForPlaceIff` | ghostframe-client-core/src/reassembly.rs:245-254 | A single-fragment tile datagram is dropped for its place if and only if its tile holds no pixel of the frame; otherwise the size makes no difference to it |
| `Reassembly.ClientCore.DeliverCdf53` | ghostframe-client-core/src/reassembly.rs:402-547 | A pass is filtered, stored, reported and its requests raised as the reference says |
| `Reassembly.PassTakenIff` | ghostframe-client-core/src/reassembly.rs:419-437 | In true numbers: a pass is taken if and only if it leads the newest received number by at most 4096 and the tile holds nothing, or something aged out, older, or the same label with a generation no newer |
| `Reassembly.ClientCore.HandleSourceTile` | ghostframe-client-core/src/reassembly.rs:184-319 | The core object follows the reference over its whole history, so what is proved of every run holds of it at all times |
| `Reassembly.NewestIsGreatest` | ghostframe-client-core/src/reassembly.rs:281-292 | Over every run the newest label is that of the greatest number received whole for a tile of the frame, in whatever order; rebuilt datagrams and notices do not count |
| `Reassembly.StepLocked` | ghostframe-client-core/src/reassembly.rs:184-319 | One datagram, received or rebuilt, keeps core coverage and decoder planes in step: same label, same passes, planes from datagrams of that label |
| `Reassembly.LockedDimensions` | ghostframe-client-core/src/reassembly.rs:76-108 | A new frame size keeps them in step: both sides forget the same tiles |
| `Reassembly.RunLocked` | ghostframe-client-core/src/reassembly.rs:402-547 | Over every run of datagrams, in any order and with any losses and duplicates, the two sides stay in step |
| `Reassembly.PlanesNeverBlend` | ghostframe-client-core/src/reassembly.rs:402-547 | In every reachable state all planes a tile holds came from datagrams of one frame label and generation |
| `Reassembly.RunStreamOk` | ghostframe-client-core/src/reassembly.rs:402-547 | The events of every honest run meet what the batch decoder needs, so the pixel results apply to whole sessions |
| `WholeClient.RunMatches` | ghostframe-client-core/src/tile_decoder.rs:268-455 | After every honest stream each tile the decoder holds is coherent with the content its label names and shows the longest prefix that can be seen |
| `WholeClient.PassShows` | ghostframe-client-core/src/tile_decoder.rs:268-455 | A pass that takes a tile's prefix to full puts the server's tile on the screen |
| `WholeClient.CompletedTileIsShown` | ghostframe-client-core/src/reassembly.rs:184-547 | Over every run of datagrams, lost, repeated, reordered or rebuilt: the datagram that completes a tile's coverage leaves the screen showing exactly the picture the server encoded under the tile's label |
| `WholeClient.CompletedTileStays` | ghostframe-client-core/src/reassembly.rs:184-547 | It still shows it after any further datagrams that neither paint over the tile, nor change its label, nor make its coverage begin anew |
| `WholeClient.StaysCompleteIff` | ghostframe-client-core/src/reassembly.rs:402-547 | A complete tile whose label stays is complete after a datagram if and only if the datagram does not begin its coverage anew or carries all the passes its bitmap names |
| `WholeClient.ServerPayloadReads` | ghostframe-client-core/src/cdf53_prevalidate.rs:90-143 | The payload bytes the server frames for a pass of a tile are read as that pass, whatever bytes follow |
| `WholeClient.BytesAreHonest` | ghostframe-client-core/src/reassembly.rs:402-477 | So runs of datagrams whose payload bytes are the server's, or fail the check, are the runs these results are about |
| `TilePaints.SolidShown` | ghostframe-client-core/src/reassembly.rs:337-352 | A solid tile of four bytes is on the screen at once, at its place and under its label, and nothing else moves; any other length paints nothing |
| `TilePaints.PaletteReported` | ghostframe-client-core/src/reassembly.rs:353-399 | A palette datagram is reported exactly as the check of its payload says, or as an error |
| `TilePaints.PaletteShown` | ghostframe-client-core/src/reassembly.rs:353-385 | An accepted palette datagram puts on the screen, at its place, exactly the pixels the one-go decoder draws, and leaves its palettes |
| `TilePaints.ServerTileShown` | ghostframe-protocol/src/codec/pal_rle.rs:282-358 | A tile the server encodes with its palette is on the screen in the colours its indices name, whatever the client's tables held |
| `TilePaints.NoticesHandedOn` | ghostframe-client-core/src/reassembly.rs:299-313 | An accepted size and every readable eviction notice reach the host with the screen as it then is |
| `WholeClient.DecodeSession` | ghostframe-client-core/src/tile_decoder.rs:234-249 | The batch decoder shows that same screen for any division of the run's events into batches |
| `WireLoss.DescribesAfterLoss` | ghostframe-client-core/src/wire_loss.rs:91-103 | Counting a loss keeps the counters equal to the losses and loss runs of the verdict log |
| `WireLoss.DescribesAfterOther` | ghostframe-client-core/src/wire_loss.rs:82-88 | Closing a run keeps the histogram and the longest run equal to the closed maximal runs of the log |
| `WireLoss.BucketIff` | ghostframe-client-core/src/wire_loss.rs:53-61 | The histogram's columns by run length: 1, 2, 3, 4, 5 to 8, 9 to 16, 17 to 32, and longer |
| `WireLoss.WireLossTracker.Settle` | ghostframe-client-core/src/wire_loss.rs:91-103 | Settling declares, in order, each number that left the 64-wide reorder window by its flag in the ring, true or not, and clears exactly those flags; the counters stay those of the log |
| `WireLoss.WireLossTracker.OnReceived` | ghostframe-client-core/src/wire_loss.rs:106-148 | Every case of an arrival: for every forward step the exact ring and verdicts; from a true ring it stays true, and the verdicts are the truth, if the number is less than 512 past the last settled one and only then; 447 past the newest always suffices |
| `WireLoss.StepKeepsAgreement` | ghostframe-client-core/src/wire_loss.rs:106-148 | The ring after a forward step agrees with the arrivals if and only if the number is less than 512 past the last settled one |
| `WireLoss.JudgesWrongly` | ghostframe-client-core/src/wire_loss.rs:106-148 | The numbers 0, 600 and 665: 88, which never arrived, is judged to have arrived, and 0 and 600 are judged lost |
| `WireLoss.WireLossTracker.OnRebuilt` | ghostframe-client-core/src/wire_loss.rs:152-165 | A rebuilt datagram counts as recovered unless the ring says its unsettled number arrived; that is whether it had not arrived exactly when it is not a settled number that had |
| `WireLoss.RebuiltCopy` | ghostframe-client-core/src/wire_loss.rs:152-165 | The numbers 0 to 65, then a rebuilt copy of 0: it counts as recovered although 0 had arrived |
| `WireLoss.WireLossTracker.Replay` | ghostframe-client-core/src/wire_loss.rs:106-148 | Over any run of forward steps less than 512 past the last settled number, late arrivals and resynchronisations, across any number of 32-bit wraps: verdicts as with unbounded memory, and the losses counted are the distinct numbers declared lost; `received` is the number of distinct datagrams if and only if none came late that had come before, and `late_after_declared` counts the datagrams that came after they were declared lost if and only if nothing else came late |
| `WireLoss.LostAreDistinct` | ghostframe-client-core/src/wire_loss.rs:25-31 | Each number is declared lost at most once |
| `WireLoss.OnlyLostIff` | ghostframe-client-core/src/wire_loss.rs:32-33 | Arrivals counted late are at least those that came after they were declared lost, and no more exactly when only such numbers came late |
| `WireLoss.LateCopy` | ghostframe-client-core/src/wire_loss.rs:134-140 | The numbers 0 to 65 and 0 once more: 66 datagrams count as 67, one of them late after it was declared lost, and none was lost |
| `ParityEmitter.XorPayloads` | ghostframe-lib/src/transport/reliable_emitter/parity.rs:85-97 | The loops leave the right-aligned XOR of all sources, as long as the longest |
| `ParityEmitter.GroupBuilder.Add` | ghostframe-lib/src/transport/reliable_emitter/parity.rs:43-72 | A gap in the numbers abandons the group; the group that fills is the consecutive sources ending with this one, and what goes out is their parity if and only if every length fits 16 bits |
| `Parity.MissingIsTheDifference` | ghostframe-client-core/src/parity_decoder.rs:180-238 | The parity XOR the received sources is the one absent source, byte by byte from the right |
| `Parity.OneMissing` | ghostframe-client-core/src/parity_decoder.rs:170-177 | Exactly one source is counted absent if and only if all others of the group are held |
| `Parity.XorInto` | ghostframe-client-core/src/parity_decoder.rs:21-26 | The in-place XOR acts on right-aligned bytes |
| `ParityDecoder.RecoveredIsSent` | ghostframe-client-core/src/parity_decoder.rs:180-238 | What is rebuilt from a true parity is the sent datagram byte for byte |
| `ParityDecoder.ParityDecoder.TryRecover` | ghostframe-client-core/src/parity_decoder.rs:180-238 | A result stands for a datagram never recorded, even one evicted since, and equals it if the parity is true; a parity gives its group's absent source back exactly when that is alone absent and newer than everything evicted |
| `ParityDecoder.ParityDecoder.RecordSource` | ghostframe-client-core/src/parity_decoder.rs:70-115 | Window and eviction mark by true numbers, the mark being the greatest number ever evicted; the first buffered parity made usable is used and removed, and none is missed |
| `ParityDecoder.ParityDecoder.ReceiveParity` | ghostframe-client-core/src/parity_decoder.rs:117-133 | A parity is used at once, or buffered in its group's place exactly when a source is absent |
| `ParityDecoder.ParityDecoder.Prune` | ghostframe-client-core/src/parity_decoder.rs:143-162 | What stays buffered is the parities `ParityDecoder.KeptExactly` names, and the newest of those up to capacity, no group twice |
| `ParityDecoder.KeptExactly` | ghostframe-client-core/src/parity_decoder.rs:143-151 | Pruning keeps exactly the parities whose group ends at most a window behind the greatest number recorded, in order |
| `ParityDecoder.PruneKeepsIff` | ghostframe-client-core/src/parity_decoder.rs:143-151 | The saturating 32-bit test is the test on unbounded numbers |
| `ParityDecoder.TileFlagIff` | ghostframe-protocol/src/protocol.rs:410-416 | What is rebuilt counts as a tile datagram if and only if bit 31 of its first word is set |
| `ParityWindow.RebuiltLaterIff` | ghostframe-client-core/src/parity_decoder.rs:143-162 | Some further arrivals would let a group be rebuilt if and only if an absent source of it is newer than everything evicted and outlives the evictions it takes to hold the others |
| `ParityWindow.EvictedIsPast` | ghostframe-client-core/src/parity_decoder.rs:143-162 | A group whose last number is not newer than everything evicted can never be rebuilt |
| `ParityDecoder.PruningForfeits` | ghostframe-client-core/src/parity_decoder.rs:143-162 | A run in which pruning forfeits a group: its parity is dropped after a jump in the numbers, then the second of its three sources arrives, the third is alone absent and newer than everything evicted, and nothing is rebuilt |
| `GateLog.ReferencesLeadHome` | ghostframe-client-core/src/h264_gate.rs:214-294 | In every run, each fed frame's references lead through reference pictures, each the newest or in the named long-term slot when it was predicted from, back to an IDR or a reference-free frame, with no decoder reset between |
| `GateLog.RequestsAreSpaced` | ghostframe-client-core/src/h264_gate.rs:325-347 | In every run, requests for one reason are at least 2.2 s apart, and nothing but a decoder failure is reported after a missing decoder |
| `GateLog.SlotHoldsLastPut` | ghostframe-client-core/src/h264_gate.rs:236-290 | In every run a long-term slot holds exactly the picture last put there: by an IDR, by a frame that marks itself, or by one that marks its reference |
| `GateLog.SlotNumbers` | ghostframe-client-core/src/h264_gate.rs:246-260 | The two slot numbers are the low and the next two bits of the slots byte |
| `GateLog.BadSlotsIff` | ghostframe-client-core/src/h264_gate.rs:245-262 | A frame is refused for its slots exactly when it would use a slot that is not there or put two pictures in one |
| `GateLog.NewestRefRecent` | ghostframe-client-core/src/h264_gate.rs:265-278 | The newest reference is still remembered if fewer than 128 frames were fed after it and, while no number has come round, only then |
| `H264Gate.IdrFed` | ghostframe-client-core/src/h264_gate.rs:229-243 | Feeding an IDR is safe and makes it the only reference |
| `H264Gate.PredictedFed` | ghostframe-client-core/src/h264_gate.rs:273-293 | Feeding a frame whose target is held is safe and keeps newest reference and slots those the fed frames define, all reference pictures since the last reset |
| `H264Gate.HoldsIffDecodable` | ghostframe-client-core/src/h264_gate.rs:256-267 | What the gate holds decides exactly as the log of fed frames does: the reference is in the named slot, or is the newest and among the last 128 fed, or none is named and nothing is waited for |
| `H264Gate.PacingAfterRequest` | ghostframe-client-core/src/h264_gate.rs:325-347 | A request let through by the pacing clocks is spaced from every earlier request |
| `H264Gate.DueIffSpaced` | ghostframe-client-core/src/h264_gate.rs:325-340 | The clocks allow a request exactly when every earlier one lies at least 2.2 s back |
| `H264Gate.H264Gate.OnFrame` | ghostframe-client-core/src/h264_gate.rs:214-294 | By the log alone: a frame is fed if and only if it is newer than the last fed one and is an IDR or can be decoded; the decoder is reset exactly for IDRs; a missing reference asks for an IDR if and only if no request is too near, a decoder exists, and a stream that plans its references has been refused for 2.2 s |
| `H264Gate.H264Gate.FeedPredicted` | ghostframe-client-core/src/h264_gate.rs:273-293 | The reference set, long-term slots and newest reference after a predicted frame |
| `H264Gate.H264Gate.RefuseFrame` | ghostframe-client-core/src/h264_gate.rs:310-323 | A refusal for a missing reference asks for an IDR exactly when the log allows it; other refusals never ask |
| `H264Gate.H264Gate.PacedRequest` | ghostframe-client-core/src/h264_gate.rs:325-347 | A request is made exactly when its clocks allow it |
| `H264Gate.H264Gate.Reset` | ghostframe-client-core/src/h264_gate.rs:357-378 | A reset forgets every reference, so the next frame fed must be an IDR, and asks for one exactly as its cause says |
| `FrameAcks.SlideAgrees` | ghostframe-client-core/src/h264_gate.rs:402-435 | Sliding the 64-frame masks keeps them true to the unbounded history |
| `FrameAcks.SetAgrees` | ghostframe-client-core/src/h264_gate.rs:437-450 | Setting a bit keeps the masks true; decoded is never withdrawn |
| `FrameAcks.FrameAckWindow.Record` | ghostframe-client-core/src/h264_gate.rs:402-450 | After any order of reports the masks say of each of the last 64 frames exactly whether it was ever decoded or only refused |
| `FrameAcks.FrameAckWindow.TakeDue` | ghostframe-client-core/src/h264_gate.rs:456-465 | An ack rides a batch exactly when something is unreported and the last ack is 4 ms old |
| `FrameAcks.FrameAckWindow.TakeOverdue` | ghostframe-client-core/src/h264_gate.rs:469-487 | An ack goes alone exactly when something has been unreported for 100 ms |
| `H264Session.PendingFrames.Fed` | ghostframe-client-gpu/src/h264_pending.rs:39-47 | Every frame fed is answered once, in feeding order; a full queue answers its oldest as not output |
| `H264Session.PendingFrames.Output` | ghostframe-client-gpu/src/h264_pending.rs:52-67 | A picture answers its own frame decoded and every older pending one not output; an unknown stamp answers nothing |
| `H264Session.PendingFrames.RefuseAll` | ghostframe-client-gpu/src/h264_pending.rs:71-76 | A reset answers everything pending as not output, in order |
| `H264Session.BoundaryTest` | ghostframe-client-core/src/lib.rs:345-374 | For a fed frame the serial test against the boundary frame separates those fed before the failure ended from those fed since if and only if the frame lies in the near half of the boundary's turn |
| `H264Session.Session.FinishFrame` | ghostframe-client-core/src/frame_assembly.rs:195-231 | A completed frame is fed exactly when it is newer than the last one fed and is an IDR or can be decoded; otherwise it is recorded refused, except a copy of one of the last 128 fed; the first IDR after a failure opens a new epoch |
| `H264Session.Session.H264Result` | ghostframe-client-core/src/lib.rs:345-374 | A decoded frame is acknowledged exactly when the boundary test trusts it; for a fed frame that is when no failed decoder had it, if and only if it lies in the near half of the boundary's turn |
| `H264Session.FailedFrameCredited` | ghostframe-client-core/src/lib.rs:345-374 | Frames 0 and 1, a failure on 1, an IDR numbered 2^30: the late answer for 0, fed before the failure ended, is acknowledged as decoded |
| `H264Session.GoodFrameRefused` | ghostframe-client-core/src/lib.rs:345-374 | With the boundary at 1, frame 2^30 + 2, fed and decoded since, is refused |
| `FrameAssembly.FrameAssembler.Evict` | ghostframe-client-core/src/frame_assembly.rs:166-175 | What remains is exactly the three newest frame numbers and the newest IDR while its 2 s last |
| `FrameAssembly.FrameAssembler.IsExempt` | ghostframe-client-core/src/frame_assembly.rs:180-193 | A late fragment is exempt exactly when it belongs to the newest IDR, held and in time or about to start |
| `FrameAssembly.OldFragmentIff` | ghostframe-client-core/src/frame_assembly.rs:180-193 | A fragment from before the window is taken exactly when it is an IDR's, no newer IDR is being assembled, and its own assembly, if any, began less than 2 s ago |
| `FrameAssembly.FrameAssembler.Store` | ghostframe-client-core/src/frame_assembly.rs:135-147 | A fragment fills its free slot once; a unit past 16 MiB is given up whole |
| `FrameAssembly.GivenUpIff` | ghostframe-client-core/src/frame_assembly.rs:135-147 | A fragment ends its frame's assembly exactly when all its fragments together pass 16 MiB |
| `FrameAssembly.FrameAssembler.Finish` | ghostframe-client-core/src/frame_assembly.rs:195-236 | A unit is taken out exactly when every fragment is there, and is their join in index order |
| `FrameAssembly.FrameAssembler.HandleFrameDatagram` | ghostframe-client-core/src/frame_assembly.rs:44-150 | One datagram exactly as the code compares numbers; whatever the order and duplication of fragments, a unit that comes out is the index-order join of received payloads; at most four assemblies remain, none above 16 MiB |
| `FrameAssembly.AtMostFour` | ghostframe-client-core/src/frame_assembly.rs:166-175 | The window and one exempt IDR make at most four assemblies |
| `FrameAssembly.LastFragmentCompletes` | ghostframe-client-core/src/frame_assembly.rs:195-236 | The one fragment still missing completes its unit at once |
| `FrameAssembly.FaithfulIsSent` | ghostframe-client-core/src/frame_assembly.rs:195-236 | If the fragments received are those sent, the unit is the sent one |
| `FrameTurns.JudgedRightlyIff` | ghostframe-client-core/src/frame_assembly.rs:86-100 | With true frame numbers within half a turn, a P fragment is taken exactly when true order says so if and only if it shares its turn of 2^31 with the newest and the last fed frame, or the comparison that goes wrong does not decide |
| `FrameTurns.TakenWholeIffOneTurn` | ghostframe-client-core/src/frame_assembly.rs:86-103 | A stream of P frames in order is taken whole if and only if it crosses no multiple of 2^31 |
| `FrameTurns.StuckAfterTheWrap` | ghostframe-client-core/src/frame_assembly.rs:96-103 | After the wrap, over every run, the newest number stays where it was and no P fragment is taken until the numbers come round |
| `FrameTurns.LostAtTheWrap` | ghostframe-client-core/src/frame_assembly.rs:96-103 | Frame 0x7FFF_FFFF comes out and the next, numbered 0, does not |
| `FrameTurns.IdrStartsAfterTheWrap` | ghostframe-client-core/src/frame_assembly.rs:180-193 | An IDR of the next turn, though newer than everything, is taken if and only if no other IDR is being assembled |
| `Batchers.AckBatcher.Add` | ghostframe-client-core/src/ack_batcher.rs:38-48 | The deadline is armed exactly while entries wait; the 64th entry sends the batch at once |
| `Batchers.AckBatcher.Flush` | ghostframe-client-core/src/ack_batcher.rs:64-95 | Every entry leaves first-hand exactly once, in order, followed by the last eight entries of earlier batches |
| `Batchers.AckBatcher.OnTimeout` | ghostframe-client-core/src/ack_batcher.rs:55-60 | A due batch leaves, and no deadline at or before now remains |
| `Batchers.NackBatcher.Add` | ghostframe-client-core/src/nack_batcher.rs:39-49 | As for acks, without the overlap |
| `Batchers.NackBatcher.OnTimeout` | ghostframe-client-core/src/nack_batcher.rs:56-61 | A due batch leaves, and no deadline at or before now remains |
| `Batchers.NackBatcher.Flush` | ghostframe-client-core/src/nack_batcher.rs:64-86 | Everything waiting leaves, once and in order |
| `TailSweep.SweepJustified` | ghostframe-client-core/src/lib.rs:602-675 | A sweep asks only for owed, unreceived passes that a pass at least as high has overtaken, after 1.5 s of stillness |
| `TailSweep.SweepAsksExactly` | ghostframe-client-core/src/lib.rs:602-675 | After every life of a tile, what a sweep asks for, told by that life: exactly the passes the bitmap names (pass 0 while there is none) that have not come valid and that a pass as high has overtaken, if the tile has not moved for 1.5 s and fewer than six sweeps have asked since a valid pass |
| `TailSweep.LifeSummary` | ghostframe-client-core/src/cdf53_coverage.rs:267-394 | Over every life of a tile its entry holds the passes that came valid, the highest that came at all, and when it last moved |
| `TailSweep.SweepReopensTheGap` | ghostframe-client-core/src/lib.rs:682-686 | A pass that gap detection has asked for is asked for again by the next higher pass that lands exactly because a sweep asked in between |
| `TailSweep.SweepLeavesOthers` | ghostframe-client-core/src/lib.rs:682-686 | For every other pass gap detection goes on as if there had been no sweep |
| `TailSweep.SweepsAreSpaced` | ghostframe-client-core/src/lib.rs:602-688 | Over every life of a tile two sweeps that ask lie at least 1.5 s apart |
| `TailSweep.SweepsAreBounded` | ghostframe-client-core/src/lib.rs:602-688 | Over every life of a tile at most six sweeps ask between two valid passes |
| `ClientTimers.ArrivalGrounds` | ghostframe-client-core/src/reassembly.rs:402-477 | Every request an arriving datagram raises is, of a broken datagram, for its own pass under its own label, and otherwise for a pass the tile's entry owes and has not received below its highest |
| `ClientTimers.BrokenAskedIff` | ghostframe-client-core/src/reassembly.rs:402-477 | A broken pass is asked for if and only if its tile lies in the frame, its label is plausible, no newer content is held, and its content has not asked for it |
| `ClientTimers.FlushJustified` | ghostframe-client-core/src/lib.rs:502-520 | What a flush sends is justified, as what waited is: each by an entry the client really held that showed the gap, or by the broken datagram of that pass |
| `ClientTimers.IntoValues` | ghostframe-client-core/src/lib.rs:498-500 | The queued requests in key order: pass, then row, then column |
| `ClientTimers.SentExactly` | ghostframe-client-core/src/lib.rs:502-520 | A flush sends exactly the queued requests whose pass the tile has not received meanwhile, under the flagged label, pass by pass, and within a pass row by row |
| `ClientTimers.Clockwork.QueuePassNack` | ghostframe-client-core/src/lib.rs:453-477 | One request per tile and pass; the first keeps its label, and the 50 ms deadline is armed if none is |
| `ClientTimers.Clockwork.FlushPendingNacks` | ghostframe-client-core/src/lib.rs:483-528 | The queue leaves pass by pass in batches of at most 64, none left in the batcher; afterwards the deadline is off |
| `ClientTimers.OldLabelsSent` | ghostframe-client-core/src/lib.rs:500-518 | A flush asks for content a tile has left if and only if a waiting request, whose pass the new content lacks too, was queued under the old label |
| `QueueRuns.OldLabelIsSent` | ghostframe-client-core/src/lib.rs:461-464 | A run that does: content 2 loses the pass content 1 lost, while the request waits; content 1 is asked for and content 2 counts the pass as asked |
| `QueueRuns.ArmedForNothing` | ghostframe-client-core/src/reassembly.rs:76-89 | A run that leaves the deadline armed and the queue empty: the grid shrinks under the one waiting request |
| `ClientTimers.Clockwork.SweepTail` | ghostframe-client-core/src/lib.rs:602-688 | Each half second the queue gains exactly the justified passes of every tile, under the tile's own label, and the coverage is marked |
| `ClientTimers.Clockwork.FireAcks` | ghostframe-client-core/src/lib.rs:695-706 | Exactly the acks due leave, a frame ack after its batch, and no ack deadline at or before now remains |
| `ClientTimers.Clockwork.OnTimeout` | ghostframe-client-core/src/lib.rs:694-722 | Acks, requests and feedback due leave in that order, and the next deadline lies strictly after now; every request waiting, and every request ever sent, is justified by an entry the client really held or by a broken datagram of that very pass |
| `ClientTimers.Clockwork.PollTimeout` | ghostframe-client-core/src/lib.rs:415-434 | The earliest of all armed deadlines, and one of them |
| `ClientTimers.Clockwork.OnSource` | ghostframe-client-core/src/reassembly.rs:402-477 | An arrival updates coverage and queues its requests, each justified by an entry really held or by the broken datagram itself; a broken pass not asked for before waits afterwards; a request it raises is what waits exactly when none waited under another label; requests outside a new grid are gone and all others stay; the deadline is armed exactly when something waits or was dropped that way since the last flush |
| `ClientTimers.Clockwork.PollTransmit` | ghostframe-client-core/src/lib.rs:404-406 | Messages leave in the order they were queued |
| `Dirty.GetAfterSet` | ghostframe-client-gpu/src/dirty.rs:50-68 | Marking a tile changes what is read at that tile and nowhere else |
| `Dirty.GetAfterUnion` | ghostframe-client-gpu/src/dirty.rs:86-98 | A union marks exactly the tiles either grid marks |
| `Dirty.UnionWords` | ghostframe-client-gpu/src/dirty.rs:86-98 | The word-by-word loop computes the union |
| `Dirty.IterSet` | ghostframe-client-gpu/src/dirty.rs:101-113 | The tile list is exactly the marked tiles, each once, row by row and left to right |
| `Dirty.DirtyHistory.Advance` | ghostframe-client-gpu/src/dirty.rs:165-175 | Sealing appends the accumulated grid to the history and starts an empty one |
| `Dirty.DirtyHistory.UnionSince` | ghostframe-client-gpu/src/dirty.rs:194-229 | The result is exactly the union of all generations after the watermark, and is refused exactly when the watermark is absent, nothing is sealed, or a needed generation was evicted |
| `Coalescing.HorizontalRuns` | ghostframe-client-gpu/src/coalesce.rs:117-132 | The runs of a row are exactly its maximal stretches of dirty tiles, left to right |
| `Coalescing.MergeRow` | ghostframe-client-gpu/src/coalesce.rs:66-96 | One row extends exactly the stacks whose run continues and hands back the others |
| `Coalescing.MaximalMeet` | ghostframe-client-gpu/src/coalesce.rs:55-111 | Two maximal stacks of equal runs that share a tile are the same |
| `Coalescing.MaximalCovers` | ghostframe-client-gpu/src/coalesce.rs:55-111 | The maximal stacks cover exactly the dirty tiles |
| `Coalescing.Coalesce` | ghostframe-client-gpu/src/coalesce.rs:55-111 | The rectangles are pairwise disjoint, cover exactly the dirty tiles, are the maximal stacks and come in row-major order |
| `ExportRing.PixelOfRect` | ghostframe-client-gpu/src/coalesce.rs:27-36 | The pixel rectangle holds exactly the framebuffer's pixels of its tiles |
| `ExportRing.DifferenceIsMarked` | ghostframe-client-gpu/src/ring.rs:423-490 | A pixel that differs between two generations lies in a tile marked in a generation between them |
| `ExportRing.PartialBlitCompletes` | ghostframe-client-gpu/src/ring.rs:500-540 | Copying the damage rectangles turns a buffer showing an old generation into the newest framebuffer |
| `ExportRing.PartialCopyCompletes` | ghostframe-client-gpu/src/ring.rs:500-540 | So does copying the damaged tiles one by one |
| `ExportRing.HeldAfterPublish` | ghostframe-client-gpu/src/ring.rs:626-631 | The host's frame ids keep naming exactly the buffers it holds if and only if the 32-bit id handed out names neither a buffer of the ring nor a retired one it still holds |
| `ExportRing.Ring.WriteTile` | ghostframe-client-gpu/src/ring.rs:380-382 | A tile write marks its tile and no other, and keeps the damage record complete |
| `ExportRing.Ring.WriteAll` | ghostframe-client-gpu/src/ring.rs:384-392 | A full rewrite marks exactly the tiles of the frame |
| `ExportRing.Ring.Publish` | ghostframe-client-gpu/src/ring.rs:406-642 | In every run a published buffer shows the whole framebuffer, no held buffer is written, the generation is sealed even with no buffer free, and the damage is exact against the buffer and against the previous frame; ids stay in step exactly under that condition |
| `ExportRing.Ring.Release` | ghostframe-client-gpu/src/ring.rs:772-789 | Releasing frees exactly the named buffer, a retired one first; an unknown id changes nothing |
| `ExportRing.Ring.Resize` | ghostframe-client-gpu/src/ring.rs:806-851 | A new size leaves only unfilled buffers and no history; while ids are in step everything the host holds, retired before or now, is kept under its id; a repeated size or a failed allocation changes nothing |
| `RingIds.HeldIdComesRound` | ghostframe-client-gpu/src/ring.rs:626-631 | While the host holds frame 0, 2^32 further frames are published, each released at once: the next is 0 again and one of two held buffers has no name |
| `RingIds.RetiredIdComesRound` | ghostframe-client-gpu/src/ring.rs:772-789 | While a retired frame 0 is held the same: its id then names two frames, and one release frees the retired one and leaves the new one in flight |
| `SerialMax.NewestKept` | ghostframe-client-gpu/src/paint_order.rs:56-61 | Within a window of 2^30 noting keeps the true maximum, whatever the order |
| `SerialMax.NewerThanNewest` | ghostframe-client-gpu/src/paint_order.rs:88-104 | Comparing with the kept maximum asks whether any noted number is greater |
| `PaintOrder.SlotsApart` | ghostframe-client-gpu/src/paint_order.rs:36-38 | The table has a place for every tile, and a place of its own |
| `PaintOrder.SeqLedger.Note` | ghostframe-client-gpu/src/paint_order.rs:65-72 | A note is kept for its own tile and for the screen, and moves no other tile's maximum |
| `PaintOrder.SeqLedger.Superseded` | ghostframe-client-gpu/src/paint_order.rs:88-97 | A draw is dropped exactly when a greater frame was noted for that very tile or as a picture |
| `PaintOrder.SeqLedger.H264Stale` | ghostframe-client-gpu/src/paint_order.rs:101-104 | A picture is stale exactly when a greater tile or picture was noted |
| `PaintOrder.SurvivorsAreNewest` | ghostframe-client-gpu/src/renderer.rs:1005-1025 | Draws of a tile that survive a flush carry one frame number, the greatest noted, so codec order cannot put an older frame on top |
| `PacketFrame.OutFramer.Frame` | ghostbridge/packetframe.go:52-73 | Reused buffer and cached address are invisible: the frame is the cache-free one for this payload and source |
| `PacketFrame.InFramer.Parse` | ghostbridge/packetframe.go:131-149 | The cached destination is invisible: the result is the cache-free parse |
| `PacketFrame.InFramer.Pump` | ghostbridge/main.go:831-858 | The reading loop forwards exactly what the stream says, up to its end or a malformed frame |
| `PacketFrame.FrameRoundTrip` | ghostbridge/packetframe.go:52-149 | Reading a framed datagram gives its payload and peer back and leaves the rest of the stream |
| `PacketFrame.StreamRoundTrip` | ghostbridge/packetframe.go:52-149 | Any run of framed datagrams reads back in order, each to its own peer; one that does not resolve is skipped alone |
| `PalRle.ExpandRleToIndices` | ghostframe-client-core/src/pal_rle_decode.rs:120-142 | Expansion succeeds if and only if the runs make exactly 1024 pixels, and every pixel then has its run's index |
| `PalRle.PrevalidatePalRle` | ghostframe-client-core/src/pal_rle_decode.rs:42-114 | Every branch and error of the payload check, against the reference check |
| `PalRle.TileTables.DecodePalRleTile` | ghostframe-client-core/src/pal_rle_decode.rs:150-187 | The one-go decode updates palette, count and pixels as the reference step says |
| `PalRle.WriteRows` | ghostframe-client-core/src/tile_decoder.rs:576-593 | The row writer, two pixels per byte, renders the same tile as the pixel loop |
| `PalRle.SplitIsDirect` | ghostframe-client-core/src/reassembly.rs:353-385 | Core check plus decoder update equals the direct decode: tables, pixels, and the code of a refusal |
| `PalRle.SplitRunIsDirect` | ghostframe-client-core/src/reassembly.rs:353-385 | For every sequence of payloads both paths draw the same tiles and refuse with the same codes |
| `PalEncode.EncodePalRleIndices` | ghostframe-protocol/src/codec/pal_rle.rs:282-300 | The encoder's loop yields runs that are the tile's 1024 indices, in at most 1024 bytes |
| `PalEncode.EncodePalRlePayload` | ghostframe-protocol/src/codec/pal_rle.rs:308-358 | The payload with or without its palette, at most 1091 bytes |
| `PalEncode.ThinRead` | ghostframe-protocol/src/codec/pal_rle.rs:389-396 | A payload without its palette, run-length coded or raw, is read as its indices if the client knows the palette and refused as uncached otherwise |
| `PalEncode.BundledTileShown` | ghostframe-protocol/src/codec/pal_rle.rs:308-358 | A tile sent with its palette is drawn with every pixel red, green, blue and opaque in the colour its index names, and the client knows the palette from then on |
| `PalEncode.ThinTileShown` | ghostframe-protocol/src/codec/pal_rle.rs:308-396 | So is one sent without it, in either form, once the client knows the palette |

## Left out

- Header decoding of tile, frame and parity datagrams: the model starts from decoded records.
- Server side other than the two tile codecs and the parity emitter: scheduling, palette allocation, congestion control, capture.
- Which tile datagrams are acknowledged: the batcher that sends the entries is modelled, the calls that fill it are not.
- The native, web and C front ends, the GPU kernels and GPU synchronisation: a copy is a function on pixels.
- Tile decoder: the counters of coalesced passes, the tick calls that break up long batches, a sink that stops a batch early, and passing CDF 5/3 events through undecoded.
- Two-dimensional transform: rows are lifted in place on arrays, the drivers over rows and columns are on values.
- DirtyGrid: a grid is a value whose words are replaced, the history that owns the grids is a class; writing a word in place is not modelled.
- Cdf53 tile entries are values in the decoder's map; the entry's own fields are replaced, not written in place.
- `rle_decode` and `decode_passes`: the unbounded decoder used by tools.
- Decode-error reporting, the receiver feedback contents, ping and pong, mode requests.
- The counters of frames consumed without a picture.
- 64-bit clock and counter overflow: times and totals are unbounded naturals.
- ExportRing.Ring.Publish: the framebuffer and the ring have one size, as the renderer keeps them; the order of the GPU copy and the host's last read is not modelled.
- PacketFrame.InFramer.Parse: resolving an address is a function of its text, so a name that changes its address while cached is not modelled.
- H264Session.Session.FinishFrame: the true number of a frame lies within 2^30 of the last fed and of the newest recorded one; frames further apart may share the session.
- H264Session.Session.H264Result: the true number of an answered frame lies within 2^30 of the newest recorded one.
- PaintOrder.SeqLedger.Note: the numbers noted between two clears lie within 2^30 of each other.
- ParityDecoder.ParityDecoder.RecordSource: the true numbers lie in one half-turn of the 32-bit counter, and a recorded datagram is the one sent under its number.
- TileDecoder.TileDecoder.DecodeBatch: agreement with one at a time is stated for streams with one content per frame label and generation; `Reassembly.RunStreamOk` shows that runs of honest datagrams give such streams.
- ParityEmitter.GroupBuilder.Add: the sender's true numbers grow by less than a full turn of the 32-bit counter from source to source.
- FrameTurns.JudgedRightlyIff: speaks of P fragments; of IDR fragments, which have an exemption of their own, `FrameTurns.IdrStartsAfterTheWrap` says when one of the next turn is taken.
- FrameAssembly.FrameAssembler.HandleFrameDatagram: does not model the acknowledgement and loss bookkeeping of the same datagram, which `Batchers` and `WireLoss` model on their own.
