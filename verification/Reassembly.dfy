/**
 * From source tile datagrams to tile events, and what that keeps in step.
 *
 * Datagrams are records whose headers are already decoded and whose payload
 * check is already done. The core keeps per-tile coverage; the pixel decoder
 * keeps per-tile planes; nothing but the events connects them.
 */
module Reassembly {
  import opened Serial
  import opened SerialMax
  import opened Bytes
  import opened BitPlanes
  import opened TileState
  import opened TileDecoder
  import opened Coverage

  const MAX_FRAME_DIMENSION: nat := 8192

  /** A CDF 5/3 pass payload that passed validation. */
  datatype Checked = Checked(plane: Plane, present: Option<Mask>)

  datatype Body =
    | DimensionsBody(width: nat, height: nat) // sentinel tile (255, 255)
    | EvictionBody // sentinel tile (254, 254)
    | SolidBody(quad: Option<Bgra>)
    | PalRleBody(update: Option<(byte, seq<Bgra>)>, indices: Option<(byte, seq<byte>)>)
    | Cdf53Body(generation: nat, pass: nat, checked: Option<Checked>)
    | SkipBody
    | H264Body

  /** `single` is `frag_total == 1 && frag_idx == 0`. */
  datatype Source = Source(frameSeq: nat, tile: Key, single: bool, body: Body)

  predicate IsSentinel(src: Source) { src.body.DimensionsBody? || src.body.EvictionBody? }

  /** What header decoding and payload validation guarantee. */
  predicate SourceOk(src: Source) {
    && src.frameSeq < MOD31
    && (src.body.Cdf53Body? && src.body.checked.Some? ==>
          src.body.pass < PASS_COUNT && (src.body.checked.value.present.Some? <==> src.body.pass == 0))
  }

  datatype Core = Core(dims: Option<(nat, nat)>, coverage: map<Key, CoverageEntry>, newest: Option<u32>)

  datatype Request = Request(frameSeq: nat, tile: Key, pass: nat)

  datatype Handled = Handled(core: Core, events: seq<Event>, requests: seq<Request>)

  const DECODE_ERROR: nat := 1
  const EVICTED: nat := 2

  predicate TileInGrid(dims: Option<(nat, nat)>, tile: Key) {
    dims.Some? ==> InGrid(tile, dims.value.0, dims.value.1)
  }

  function AcceptDimensions(core: Core, width: nat, height: nat): Handled {
    if !(1 <= width <= MAX_FRAME_DIMENSION) || !(1 <= height <= MAX_FRAME_DIMENSION) then Handled(core, [], [])
    else
      var changed := core.dims != Some((width, height));
      Handled(core.(dims := Some((width, height)),
                    coverage := if changed then Retain(core.coverage, width, height) else core.coverage),
              [FrameDimensions(width, height)], [])
  }

  /** The held entry, unless it has aged out. */
  function Held(core: Core, tile: Key): Option<CoverageEntry> {
    if tile in core.coverage && !LabelExpired(core.coverage[tile].frameSeq, core.newest)
    then Some(core.coverage[tile]) else None
  }

  function DeliverPass(core: Core, src: Source, now: nat): Handled
    requires src.body.Cdf53Body?
  {
    var b := src.body;
    var prev := Held(core, src.tile);
    if LabelRunsAhead(src.frameSeq, core.newest) || (prev.Some? && Order(prev, b.generation, src.frameSeq) == Stale)
    then Handled(core, [], [])
    else
      var present := if b.checked.Some? then b.checked.value.present else None;
      var o := ApplyArrival(prev, b.generation, b.pass, src.frameSeq, now, b.checked.Some?, present);
      Handled(
        core.(coverage := if o.committed then core.coverage[src.tile := o.entry] else core.coverage),
        [if b.checked.Some?
         then Cdf53(src.frameSeq, src.tile, Pass(b.generation, b.pass, b.checked.value.plane, present), o.newGeneration)
         else Other(DECODE_ERROR)],
        seq(|o.nackPasses|, i requires 0 <= i < |o.nackPasses| => Request(src.frameSeq, src.tile, o.nackPasses[i])))
  }

  function DeliverTile(core: Core, src: Source, now: nat): Handled
    requires !IsSentinel(src)
  {
    match src.body
    case SolidBody(quad) => Handled(core, if quad.Some? then [Solid(src.frameSeq, src.tile, quad.value)] else [], [])
    case PalRleBody(update, indices) =>
      if indices.None? then Handled(core, [Other(DECODE_ERROR)], []) else
        Handled(core,
                (if update.Some? then [PaletteUpdated(update.value.0, update.value.1)] else [])
                + [PalRle(src.frameSeq, src.tile, indices.value.0, indices.value.1)], [])
    case Cdf53Body(_, _, _) => DeliverPass(core, src, now)
    case SkipBody => Handled(core, [], [])
    case H264Body => Handled(core, [], [])
  }

  /** One source tile datagram, received off the wire or rebuilt from parity. */
  function HandleSource(core: Core, src: Source, received: bool, now: nat): Handled
    requires src.frameSeq < MOD31
  {
    if src.body.DimensionsBody? then AcceptDimensions(core, src.body.width, src.body.height)
    else if src.body.EvictionBody? then Handled(core, [Other(EVICTED)], [])
    else if !src.single || !TileInGrid(core.dims, src.tile) then Handled(core, [], [])
    else
      var advance := received && (core.newest.None? || IsNewer(src.frameSeq, core.newest.value));
      DeliverTile(if advance then core.(newest := Some(src.frameSeq)) else core, src, now)
  }

  /** The newest label received off the wire, once the datagram has been counted. */
  function NewestAfter(core: Core, src: Source, received: bool): Option<u32>
    requires src.frameSeq < MOD31
  {
    if received && (core.newest.None? || IsNewer(src.frameSeq, core.newest.value))
    then Some(src.frameSeq) else core.newest
  }

  /** What a size does to the core: it counts from 1 to 8192 on both axes, and coverage stays where the frame is. */
  lemma SizeAccepted(core: Core, width: nat, height: nat)
    ensures var h := AcceptDimensions(core, width, height);
            && (h.events != [] <==> 1 <= width <= 8192 && 1 <= height <= 8192)
            && (h.events == [] ==> h.core == core)
            && (h.events != [] ==>
                  && h.core.dims == Some((width, height)) && h.core.newest == core.newest
                  && (forall t :: t in h.core.coverage ==> t in core.coverage && h.core.coverage[t] == core.coverage[t])
                  && (core.dims != Some((width, height)) ==>
                        forall t :: t in core.coverage ==> (t in h.core.coverage <==> HasPixel(t, width, height))))
  {
    forall t | t in core.coverage ensures InGrid(t, width, height) <==> HasPixel(t, width, height) {
      GridIsPixels(t, width, height);
    }
  }

  /**
   * A single-fragment tile datagram is dropped for its place exactly when its tile
   * holds no pixel of the frame; otherwise the size makes no difference to it.
   */
  lemma DroppedForPlaceIff(core: Core, src: Source, received: bool, now: nat)
    requires src.frameSeq < MOD31 && src.single && !IsSentinel(src) && core.dims.Some?
    ensures var h := HandleSource(core, src, received, now);
            var free := HandleSource(core.(dims := None), src, received, now);
            if HasPixel(src.tile, core.dims.value.0, core.dims.value.1)
            then h == free.(core := free.core.(dims := core.dims)) else h == Handled(core, [], [])
  {
    hide DeliverTile, IsNewer, InGrid;
    GridIsPixels(src.tile, core.dims.value.0, core.dims.value.1);
    DeliveredAnywhere(core.(newest := NewestAfter(core, src, received)), src, now);
  }

  /** Once it is let through, a datagram is handled the same whatever the size. */
  lemma DeliveredAnywhere(core: Core, src: Source, now: nat)
    requires !IsSentinel(src)
    ensures var free := DeliverTile(core.(dims := None), src, now);
            DeliverTile(core, src, now) == free.(core := free.core.(dims := core.dims))
  {
    hide ApplyArrival, LabelRunsAhead, LabelExpired, Order;
    if src.body.Cdf53Body? { assert Held(core.(dims := None), src.tile) == Held(core, src.tile); }
  }

  /**
   * Which passes are taken, in true numbers. The arrival is at most 2^29 behind the newest
   * number received and the held label within half a turn of it. A pass is taken exactly when
   * it leads by at most 4096 and the tile holds nothing, or holds a label that has aged out,
   * or an older one, or the same one with a generation no newer than the pass's.
   */
  lemma PassTakenIff(core: Core, src: Source, now: nat, n: int, newest: int, held: int, g: int, heldG: int)
    requires src.body.Cdf53Body? && src.frameSeq == Wrap31(n) && src.body.generation == g % 16
    requires core.newest == Some(Wrap31(newest)) && -HALF31 < newest - n <= LABEL_EXPIRY
    requires src.tile in core.coverage ==>
      var e := core.coverage[src.tile];
      && e.frameSeq == Wrap31(held) && e.generation == heldG % 16
      && -HALF31 < newest - held < HALF31 && -8 <= g - heldG < 8
    ensures DeliverPass(core, src, now).events != [] <==>
      && n - newest <= 4096
      && (src.tile in core.coverage ==>
            newest - held > 0x2000_0000 || held - newest > 4096 || n > held || (n == held && g >= heldG))
  {
    hide ApplyArrival, Wrap31, IsNewer, LabelExpired, LabelRunsAhead, ClassifyArrival;
    RunsAheadIffTrueLead(newest, n);
    if src.tile in core.coverage && n - newest <= 4096 {
      ExpiredIffTrueAge(newest, held);
      if n == held {
        ClassifySameLabel(n, heldG, g);
      } else if !LabelExpired(Wrap31(held), core.newest) {
        ClassifyMatchesTrueOrder(newest, held, n, heldG % 16, g % 16);
      }
    }
  }

  // ----------------------------------------------------------- lock-step

  /** For each tile, the datagram each held pass came from. */
  type Origin = map<Key, map<nat, Source>>

  function NextOrigin(origin: Origin, src: Source, ev: Event): Origin {
    match ev
    case Cdf53(_, tile, pass, newGeneration) =>
      var held := if newGeneration || tile !in origin then map[] else origin[tile];
      origin[tile := held[pass.idx := src]]
    case FrameDimensions(width, height) => Retain(origin, width, height)
    case _ => origin
  }

  /** `src` delivered pass `p` of the content labelled `(frameSeq, generation)` of tile `t`. */
  predicate Delivers(src: Source, t: Key, frameSeq: nat, generation: nat, p: nat) {
    && src.tile == t && src.frameSeq == frameSeq && src.body.Cdf53Body? && src.body.checked.Some?
    && src.body.generation == generation && src.body.pass == p
  }

  /**
   * One tile: coverage `e`, planes `x`, and where the planes came from. All
   * planes come from datagrams with the one label and generation of `e`, the
   * masks agree, and the bitmap is the one pass 0 carried.
   */
  ghost predicate LockedAt(dims: Option<(nat, nat)>, t: Key, e: CoverageEntry, x: Entry, o: map<nat, Source>) {
    && TileInGrid(dims, t)
    && e.frameSeq < MOD31 && e.generation == x.generation
    && e.passMask != {} && RealPasses(e.passMask)
    && e.passMask == x.received == x.planes.Keys == o.Keys
    && e.present == x.present
    && (0 in e.passMask <==> e.present.Some?)
    && (forall p :: p in o ==>
      Delivers(o[p], t, e.frameSeq, e.generation, p) && x.planes[p] == o[p].body.checked.value.plane)
    && (0 in o ==> e.present == o[0].body.checked.value.present)
  }

  ghost predicate Locked(core: Core, tiles: map<Key, Entry>, origin: Origin) {
    && core.coverage.Keys == tiles.Keys == origin.Keys
    && forall t :: t in core.coverage ==> LockedAt(core.dims, t, core.coverage[t], tiles[t], origin[t])
  }

  /** The decoder and the provenance after one event. */
  datatype Pixel = Pixel(d: Decoder, origin: Origin)

  function PixelStep(px: Pixel, src: Source, ev: Event): Pixel {
    Pixel(DecodeOne(px.d, ev).0, NextOrigin(px.origin, src, ev))
  }

  function PixelAll(px: Pixel, src: Source, events: seq<Event>): Pixel
    decreases events
  {
    if events == [] then px else PixelAll(PixelStep(px, src, events[0]), src, events[1..])
  }

  /** Drawing changes what is drawn and nothing else. */
  lemma PassStored(d: Decoder, ev: Event)
    requires ev.Cdf53?
    ensures var held := if ev.newGeneration then None else Lookup(d.tiles, ev.tile);
            var e := Accumulate(held, ev.pass).0;
            var d' := DecodeOne(d, ev).0;
            && ev.tile in d'.tiles && d'.tiles == d.tiles[ev.tile := d'.tiles[ev.tile]]
            && d'.tiles[ev.tile] == e.(drawn := d'.tiles[ev.tile].drawn)
  {
    hide Accumulate, DecodePlanes;
  }

  /** A further pass of the content a tile holds. */
  lemma PassJoins(dims: Option<(nat, nat)>, e: CoverageEntry, x: Entry, o: map<nat, Source>, src: Source, now: nat)
    requires SourceOk(src) && src.body.Cdf53Body? && src.body.checked.Some?
    requires LockedAt(dims, src.tile, e, x, o)
    requires Order(Some(e), src.body.generation, src.frameSeq) == Current
    ensures var b := src.body;
            var pass := Pass(b.generation, b.pass, b.checked.value.plane, b.checked.value.present);
            var a := ApplyArrival(Some(e), b.generation, b.pass, src.frameSeq, now, true, b.checked.value.present);
            && a.committed && !a.newGeneration
            && LockedAt(dims, src.tile, a.entry, Accumulate(Some(x), pass).0, o[b.pass := src])
  {
    hide MissingBelow, Below;
  }

  /** The first pass of new content. */
  lemma PassStarts(dims: Option<(nat, nat)>, prev: Option<CoverageEntry>, src: Source, now: nat)
    requires SourceOk(src) && src.body.Cdf53Body? && src.body.checked.Some? && TileInGrid(dims, src.tile)
    requires Order(prev, src.body.generation, src.frameSeq) == NewGeneration
    ensures var b := src.body;
            var pass := Pass(b.generation, b.pass, b.checked.value.plane, b.checked.value.present);
            var a := ApplyArrival(prev, b.generation, b.pass, src.frameSeq, now, true, b.checked.value.present);
            && a.committed && a.newGeneration
            && LockedAt(dims, src.tile, a.entry, Accumulate(None, pass).0, map[b.pass := src])
  {
  }

  /** A pass that fails validation changes no mask, so what is held stays locked. */
  lemma FailedPassKeeps(
    dims: Option<(nat, nat)>, e: CoverageEntry, x: Entry, o: map<nat, Source>, src: Source, now: nat)
    requires src.body.Cdf53Body? && src.body.checked.None? && LockedAt(dims, src.tile, e, x, o)
    ensures var b := src.body;
            var a := ApplyArrival(Some(e), b.generation, b.pass, src.frameSeq, now, false, None);
            !a.newGeneration && LockedAt(dims, src.tile, a.entry, x, o)
  {
  }

  lemma LockedPass(core: Core, px: Pixel, src: Source, now: nat)
    requires SourceOk(src) && src.body.Cdf53Body? && TileInGrid(core.dims, src.tile)
    requires Locked(core, px.d.tiles, px.origin)
    ensures var h := DeliverPass(core, src, now);
            var px' := PixelAll(px, src, h.events);
            Locked(h.core, px'.d.tiles, px'.origin)
  {
    hide LockedAt, ApplyArrival, Accumulate, LabelRunsAhead, LabelExpired, DecodeOne, Locked, NextOrigin;
    var h := DeliverPass(core, src, now);
    if h.events != [] {
      assert h.events == [h.events[0]];
      OneEvent(px, src, h.events[0]);
      if src.body.checked.None? { LockedBroken(core, px, src, now); } else { LockedValid(core, px, src, now); }
    }
  }

  lemma OneEvent(px: Pixel, src: Source, ev: Event)
    ensures PixelAll(px, src, [ev]) == PixelStep(px, src, ev)
  {
    hide DecodeOne, NextOrigin;
  }

  /** A pass that arrived broken leaves the decoder alone, and is stored only over its own content. */
  lemma LockedBroken(core: Core, px: Pixel, src: Source, now: nat)
    requires SourceOk(src) && src.body.Cdf53Body? && src.body.checked.None? && TileInGrid(core.dims, src.tile)
    requires Locked(core, px.d.tiles, px.origin) && DeliverPass(core, src, now).events != []
    ensures var h := DeliverPass(core, src, now);
            var px' := PixelStep(px, src, h.events[0]);
            Locked(h.core, px'.d.tiles, px'.origin)
  {
    hide LockedAt, ApplyArrival, Accumulate, LabelRunsAhead, LabelExpired, DecodeOne;
    var t := src.tile;
    OtherKeepsTiles(px.d, DeliverPass(core, src, now).events[0]);
    if t in core.coverage { FailedPassKeeps(core.dims, core.coverage[t], px.d.tiles[t], px.origin[t], src, now); }
    FailedPassCommits(Held(core, t), src, now);
  }

  /** A valid pass is stored on both sides, over its own content or as the first of new content. */
  lemma LockedValid(core: Core, px: Pixel, src: Source, now: nat)
    requires SourceOk(src) && src.body.Cdf53Body? && src.body.checked.Some? && TileInGrid(core.dims, src.tile)
    requires Locked(core, px.d.tiles, px.origin) && DeliverPass(core, src, now).events != []
    ensures var h := DeliverPass(core, src, now);
            var px' := PixelStep(px, src, h.events[0]);
            Locked(h.core, px'.d.tiles, px'.origin)
  {
    hide LockedAt, ApplyArrival, Accumulate, LabelRunsAhead, LabelExpired, DecodeOne;
    var b, t := src.body, src.tile;
    var prev := Held(core, t);
    var h := DeliverPass(core, src, now);
    var ev := h.events[0];
    PassStored(px.d, ev);
    if Order(prev, b.generation, src.frameSeq) == Current {
      PassJoins(core.dims, core.coverage[t], px.d.tiles[t], px.origin[t], src, now);
    } else {
      PassStarts(core.dims, prev, src, now);
    }
    DrawnIsFree(core.dims, t, h.core.coverage[t], PixelStep(px, src, ev).d.tiles[t],
                PixelStep(px, src, ev).origin[t]);
  }

  /** A failed pass is stored only over the content it belongs to. */
  lemma FailedPassCommits(prev: Option<CoverageEntry>, src: Source, now: nat)
    requires src.body.Cdf53Body?
    ensures ApplyArrival(prev, src.body.generation, src.body.pass, src.frameSeq, now, false, None).committed ==>
      prev.Some?
  {
  }

  lemma OtherKeepsTiles(d: Decoder, ev: Event)
    requires !ev.Cdf53? && !ev.FrameDimensions?
    ensures DecodeOne(d, ev).0.tiles == d.tiles
  {
  }

  /** What has been drawn plays no part in the lock. */
  lemma DrawnIsFree(dims: Option<(nat, nat)>, t: Key, e: CoverageEntry, x: Entry, o: map<nat, Source>)
    ensures forall drawn :: LockedAt(dims, t, e, x.(drawn := drawn), o) <==> LockedAt(dims, t, e, x, o)
  {
  }

  lemma LockedDimensions(core: Core, px: Pixel, src: Source, width: nat, height: nat)
    requires Locked(core, px.d.tiles, px.origin)
    ensures var h := AcceptDimensions(core, width, height);
            var px' := PixelAll(px, src, h.events);
            Locked(h.core, px'.d.tiles, px'.origin)
  {
    hide LockedAt, DecodeOne;
    var h := AcceptDimensions(core, width, height);
    if h.events != [] {
      var ev := FrameDimensions(width, height);
      assert PixelAll(px, src, [ev]) == PixelStep(px, src, ev);
      DimensionsKeepTiles(px.d, width, height);
      forall t | t in core.coverage
        ensures TileInGrid(core.dims, t)
        ensures InGrid(t, width, height) ==>
          LockedAt(Some((width, height)), t, core.coverage[t], px.d.tiles[t], px.origin[t])
      {
        Regrid(core.dims, width, height, t, core.coverage[t], px.d.tiles[t], px.origin[t]);
      }
    }
  }

  lemma DimensionsKeepTiles(d: Decoder, width: nat, height: nat)
    ensures DecodeOne(d, FrameDimensions(width, height)).0.tiles == Retain(d.tiles, width, height)
  {
  }

  /** A new grid matters to a tile only by whether it contains it. */
  lemma Regrid(
    dims: Option<(nat, nat)>, width: nat, height: nat, t: Key, e: CoverageEntry, x: Entry, o: map<nat, Source>)
    requires LockedAt(dims, t, e, x, o)
    ensures TileInGrid(dims, t)
    ensures InGrid(t, width, height) ==> LockedAt(Some((width, height)), t, e, x, o)
  {
  }

  /** Events that carry no pass and no frame size touch no tile. */
  lemma {:induction false} PlainEventsKeep(px: Pixel, src: Source, events: seq<Event>)
    requires forall ev :: ev in events ==> !ev.Cdf53? && !ev.FrameDimensions?
    ensures PixelAll(px, src, events).d.tiles == px.d.tiles && PixelAll(px, src, events).origin == px.origin
    decreases events
  {
    if events == [] {
    } else {
      assert events[0] in events && forall ev :: ev in events[1..] ==> ev in events;
      OtherKeepsTiles(px.d, events[0]);
      PlainEventsKeep(PixelStep(px, src, events[0]), src, events[1..]);
    }
  }

  /** Every source datagram keeps coverage, planes and provenance in lock-step. */
  lemma StepLocked(core: Core, px: Pixel, src: Source, received: bool, now: nat)
    requires SourceOk(src) && Locked(core, px.d.tiles, px.origin)
    ensures var h := HandleSource(core, src, received, now);
            var px' := PixelAll(px, src, h.events);
            Locked(h.core, px'.d.tiles, px'.origin)
  {
    hide LockedAt, DeliverPass, AcceptDimensions, PixelAll, IsNewer;
    var h := HandleSource(core, src, received, now);
    if src.body.DimensionsBody? {
      LockedDimensions(core, px, src, src.body.width, src.body.height);
    } else if src.body.Cdf53Body? && src.single && TileInGrid(core.dims, src.tile) {
      var advance := received && (core.newest.None? || IsNewer(src.frameSeq, core.newest.value));
      LockedPass(if advance then core.(newest := Some(src.frameSeq)) else core, px, src, now);
    } else {
      PlainEventsKeep(px, src, h.events);
    }
  }

  // ---------------------------------------------------------- whole runs

  datatype Arrival = Arrival(src: Source, received: bool, now: nat)

  /** Core, decoder fed in step, provenance, and every event the core has emitted. */
  datatype Client = Client(core: Core, px: Pixel, events: seq<Event>)

  function ClientStep(c: Client, a: Arrival): Client
    requires a.src.frameSeq < MOD31
  {
    var h := HandleSource(c.core, a.src, a.received, a.now);
    Client(h.core, PixelAll(c.px, a.src, h.events), c.events + h.events)
  }

  predicate ArrivalsOk(run: seq<Arrival>) { forall i :: 0 <= i < |run| ==> SourceOk(run[i].src) }

  function ClientRun(palettes: Palettes, run: seq<Arrival>): Client
    requires ArrivalsOk(run)
  {
    if run == [] then Client(Core(None, map[], None), Pixel(Decoder(map[], palettes), map[]), [])
    else ClientStep(ClientRun(palettes, run[..|run| - 1]), run[|run| - 1])
  }

  /** Every datagram the provenance names is one of the run. */
  predicate OriginIn(origin: Origin, run: seq<Arrival>) {
    forall t, p :: t in origin && p in origin[t] ==> exists i :: 0 <= i < |run| && run[i].src == origin[t][p]
  }

  lemma {:induction false} OriginStep(px: Pixel, src: Source, events: seq<Event>, run: seq<Arrival>)
    requires OriginIn(px.origin, run) && exists i :: 0 <= i < |run| && run[i].src == src
    ensures OriginIn(PixelAll(px, src, events).origin, run)
    decreases events
  {
    hide DecodeOne;
    if events == [] {
    } else {
      OriginStep(PixelStep(px, src, events[0]), src, events[1..], run);
    }
  }

  /**
   * Over every run: coverage and planes stay in lock-step, each tile's planes all
   * come from datagrams of the run with one label and one generation, and only
   * tiles of the current grid are held.
   */
  lemma {:induction false} RunLocked(palettes: Palettes, run: seq<Arrival>)
    requires ArrivalsOk(run)
    ensures var c := ClientRun(palettes, run);
            Locked(c.core, c.px.d.tiles, c.px.origin) && OriginIn(c.px.origin, run)
  {
    hide Locked, HandleSource, PixelAll;
    if run == [] {
      EmptyLocked(palettes);
    } else {
      var before, a := run[..|run| - 1], run[|run| - 1];
      RunLocked(palettes, before);
      var c := ClientRun(palettes, before);
      StepLocked(c.core, c.px, a.src, a.received, a.now);
      assert OriginIn(c.px.origin, run) by {
        forall t, p | t in c.px.origin && p in c.px.origin[t]
          ensures exists i :: 0 <= i < |run| && run[i].src == c.px.origin[t][p]
        {
          var i :| 0 <= i < |before| && before[i].src == c.px.origin[t][p];
          assert run[i] == before[i];
        }
      }
      OriginStep(c.px, a.src, HandleSource(c.core, a.src, a.received, a.now).events, run);
    }
  }

  lemma EmptyLocked(palettes: Palettes)
    ensures Locked(Core(None, map[], None), map[], map[])
  {
  }

  /** The headline consequence: no two planes the decoder holds for a tile are from different content. */
  lemma PlanesNeverBlend(palettes: Palettes, run: seq<Arrival>, t: Key, p: nat, q: nat)
    requires ArrivalsOk(run)
    requires var tiles := ClientRun(palettes, run).px.d.tiles;
             t in tiles && p in tiles[t].planes && q in tiles[t].planes
    ensures var x := ClientRun(palettes, run).px.d.tiles[t];
            exists i, j ::
              && 0 <= i < |run| && 0 <= j < |run|
              && Delivers(run[i].src, t, run[i].src.frameSeq, x.generation, p)
              && Delivers(run[j].src, t, run[i].src.frameSeq, x.generation, q)
              && x.planes[p] == run[i].src.body.checked.value.plane
              && x.planes[q] == run[j].src.body.checked.value.plane
  {
    hide ClientRun;
    RunLocked(palettes, run);
    var c := ClientRun(palettes, run);
    var o := c.px.origin[t];
    assert LockedAt(c.core.dims, t, c.core.coverage[t], c.px.d.tiles[t], o);
    var i :| 0 <= i < |run| && run[i].src == o[p];
    var j :| 0 <= j < |run| && run[j].src == o[q];
  }

  // ------------------------------------- the core's events suit the decoder

  function LabelsOf(coverage: map<Key, CoverageEntry>): Labels {
    map t | t in coverage :: (coverage[t].frameSeq, coverage[t].generation)
  }

  /** A valid pass is the one the server made for its tile, label and generation. */
  ghost predicate HonestSource(content: Oracle, src: Source) {
    src.body.Cdf53Body? && src.body.checked.Some? ==>
      var c := content(src.tile, src.frameSeq, src.body.generation);
      && HonestPass(Pass(src.body.generation, src.body.pass, src.body.checked.value.plane,
        src.body.checked.value.present), c)
      && c.Steady()
  }

  lemma StreamExtends(content: Oracle, events: seq<Event>, ev: Event)
    requires StreamOk(content, map[], events) && EventOk(content, LabelsAfter(map[], events), ev)
    ensures StreamOk(content, map[], events + [ev])
    ensures LabelsAfter(map[], events + [ev]) == NextLabels(LabelsAfter(map[], events), ev)
  {
    assert (events + [ev])[..|events|] == events;
  }

  /** Coverage labels follow the events, and a pass that claims to continue really does. */
  lemma PassStream(content: Oracle, core: Core, src: Source, now: nat)
    requires SourceOk(src) && src.body.Cdf53Body? && HonestSource(content, src)
    requires forall t :: t in core.coverage ==> core.coverage[t].frameSeq < MOD31
    ensures var h := DeliverPass(core, src, now);
            && |h.events| <= 1
            && LabelsOf(h.core.coverage) == (if h.events == [] then LabelsOf(core.coverage)
                                             else NextLabels(LabelsOf(core.coverage), h.events[0]))
            && (h.events != [] ==> EventOk(content, LabelsOf(core.coverage), h.events[0]))
  {
    hide HonestPass, ApplyArrival, LabelRunsAhead, LabelExpired, IsNewer, ClassifyArrival, TileInGrid, Content.Steady;
    var b, prev := src.body, Held(core, src.tile);
    if prev.None? || Order(prev, b.generation, src.frameSeq) != Stale {
      ArrivalLabel(prev, b.generation, b.pass, src.frameSeq, now, b.checked.Some?,
                   if b.checked.Some? then b.checked.value.present else None);
      if Order(prev, b.generation, src.frameSeq) == Current { CurrentIsSame(prev.value, b.generation, src.frameSeq); }
    }
  }

  lemma CurrentIsSame(e: CoverageEntry, generation: nat, frameSeq: nat)
    requires e.frameSeq < MOD31 && frameSeq < MOD31 && Order(Some(e), generation, frameSeq) == Current
    ensures e.frameSeq == frameSeq && e.generation == generation
  {
  }

  /** The labels after any source datagram, and that its events suit the decoder. */
  lemma StepLabels(content: Oracle, core: Core, src: Source, received: bool, now: nat)
    requires SourceOk(src) && HonestSource(content, src)
    requires forall t :: t in core.coverage ==> core.coverage[t].frameSeq < MOD31
    requires forall t :: t in core.coverage ==> TileInGrid(core.dims, t)
    ensures var h := HandleSource(core, src, received, now);
            var labels := LabelsOf(core.coverage);
            && |h.events| <= 2
            && (|h.events| == 1 ==> EventOk(content, labels, h.events[0]))
            && (|h.events| == 2 ==> h.events[0].PaletteUpdated? && h.events[1].PalRle?)
            && LabelsOf(h.core.coverage) == if |h.events| == 1 then NextLabels(labels, h.events[0]) else labels
  {
    hide DeliverPass, IsNewer, HonestSource, HonestPass, Content.Steady, AcceptDimensions, LabelsOf, NextLabels;
    if src.body.DimensionsBody? {
      DimensionLabels(core, src.body.width, src.body.height);
    } else if src.body.EvictionBody? {
      OtherLabels(LabelsOf(core.coverage), Other(EVICTED));
    } else if src.single && TileInGrid(core.dims, src.tile) {
      var advance := received && (core.newest.None? || IsNewer(src.frameSeq, core.newest.value));
      TileLabels(content, if advance then core.(newest := Some(src.frameSeq)) else core, src, now);
    }
  }

  lemma OtherLabels(labels: Labels, ev: Event)
    requires !ev.Cdf53? && !ev.FrameDimensions?
    ensures NextLabels(labels, ev) == labels
  {
  }

  lemma DimensionLabels(core: Core, width: nat, height: nat)
    requires forall t :: t in core.coverage ==> TileInGrid(core.dims, t)
    ensures var h := AcceptDimensions(core, width, height);
            && |h.events| <= 1 && (h.events != [] ==> h.events[0].FrameDimensions?)
            && LabelsOf(h.core.coverage)
               == if h.events == [] then LabelsOf(core.coverage) else NextLabels(LabelsOf(core.coverage), h.events[0])
  {
  }

  lemma TileLabels(content: Oracle, core: Core, src: Source, now: nat)
    requires SourceOk(src) && HonestSource(content, src) && !IsSentinel(src)
    requires forall t :: t in core.coverage ==> core.coverage[t].frameSeq < MOD31
    ensures var h := DeliverTile(core, src, now);
            var labels := LabelsOf(core.coverage);
            && |h.events| <= 2
            && (|h.events| == 1 ==> EventOk(content, labels, h.events[0]))
            && (|h.events| == 2 ==> h.events[0].PaletteUpdated? && h.events[1].PalRle?)
            && LabelsOf(h.core.coverage) == if |h.events| == 1 then NextLabels(labels, h.events[0]) else labels
  {
    hide DeliverPass, HonestSource, HonestPass, Content.Steady, LabelsOf;
    if src.body.Cdf53Body? { PassStream(content, core, src, now); }
  }

  lemma StepStream(content: Oracle, c: Client, a: Arrival)
    requires SourceOk(a.src) && HonestSource(content, a.src)
    requires Locked(c.core, c.px.d.tiles, c.px.origin)
    requires StreamOk(content, map[], c.events) && LabelsAfter(map[], c.events) == LabelsOf(c.core.coverage)
    ensures var c' := ClientStep(c, a);
            StreamOk(content, map[], c'.events) && LabelsAfter(map[], c'.events) == LabelsOf(c'.core.coverage)
  {
    hide PixelAll, StreamOk, LabelsAfter, HandleSource, HonestSource;
    var h := HandleSource(c.core, a.src, a.received, a.now);
    StepLabels(content, c.core, a.src, a.received, a.now);
    if |h.events| == 0 {
      assert c.events + h.events == c.events;
    } else if |h.events| == 1 {
      assert h.events == [h.events[0]];
      StreamExtends(content, c.events, h.events[0]);
    } else {
      StreamExtends(content, c.events, h.events[0]);
      StreamExtends(content, c.events + [h.events[0]], h.events[1]);
      assert c.events + h.events == c.events + [h.events[0]] + [h.events[1]];
    }
  }

  /**
   * The events of every run with an honest server are a stream the coalescing
   * decoder is proved for: split into any batches it shows what the
   * one-at-a-time decoder shows.
   */
  lemma {:induction false} RunStreamOk(content: Oracle, palettes: Palettes, run: seq<Arrival>)
    requires ArrivalsOk(run)
    requires forall i :: 0 <= i < |run| ==> HonestSource(content, run[i].src)
    ensures var c := ClientRun(palettes, run);
            StreamOk(content, map[], c.events) && LabelsAfter(map[], c.events) == LabelsOf(c.core.coverage)
  {
    hide HandleSource, PixelAll, HonestSource, ClientStep, Locked;
    if run == [] {
    } else {
      var before := run[..|run| - 1];
      assert forall i :: 0 <= i < |before| ==> before[i] == run[i];
      RunStreamOk(content, palettes, before);
      RunLocked(palettes, before);
      StepStream(content, ClientRun(palettes, before), run[|run| - 1]);
    }
  }

  /** The numbers of the datagrams that came off the wire whole, for a tile of the frame. */
  ghost function Heard(palettes: Palettes, run: seq<Arrival>, numbers: seq<int>): seq<int>
    requires ArrivalsOk(run) && |numbers| == |run|
  {
    if run == [] then [] else
      var k := |run| - 1;
      var core, a := ClientRun(palettes, run[..k]).core, run[k];
      Heard(palettes, run[..k], numbers[..k])
      + if && a.received && !IsSentinel(a.src) && a.src.single
           && (core.dims.Some? ==> HasPixel(a.src.tile, core.dims.value.0, core.dims.value.1))
        then [numbers[k]] else []
  }

  lemma NewestStep(core: Core, a: Arrival)
    requires a.src.frameSeq < MOD31
    ensures HandleSource(core, a.src, a.received, a.now).core.newest
         == if && a.received && !IsSentinel(a.src) && a.src.single
               && (core.dims.Some? ==> HasPixel(a.src.tile, core.dims.value.0, core.dims.value.1))
            then NewestOf(core.newest, a.src.frameSeq) else core.newest
  {
    hide ApplyArrival, IsNewer, InGrid, LabelRunsAhead, LabelExpired;
    if core.dims.Some? { GridIsPixels(a.src.tile, core.dims.value.0, core.dims.value.1); }
  }

  /**
   * Over every run the newest label is that of the greatest number heard: rebuilt datagrams,
   * notices and tiles outside the frame do not count, and reordering and wraps do not matter.
   */
  lemma {:induction false} NewestIsGreatest(palettes: Palettes, run: seq<Arrival>, numbers: seq<int>, base: int)
    requires ArrivalsOk(run) && |numbers| == |run|
    requires forall i :: 0 <= i < |run| ==>
      run[i].src.frameSeq == Wrap31(numbers[i]) && base <= numbers[i] < base + HALF31
    ensures var heard := Heard(palettes, run, numbers);
            IsNewest(heard, ClientRun(palettes, run).core.newest) && InWindow(heard, base)
  {
    hide HandleSource, IsNewer, Wrap31, NewestOf;
    if run == [] {
    } else {
      var k := |run| - 1;
      var before := ClientRun(palettes, run[..k]).core;
      NewestIsGreatest(palettes, run[..k], numbers[..k], base);
      NewestStep(before, run[k]);
      hide IsNewest, InWindow;
      var rest := Heard(palettes, run[..k], numbers[..k]);
      NewestKept(rest, before.newest, numbers[k], base);
      assert rest + [] == rest;
    }
  }

  // --------------------------------------------------------------- the core

  /**
   * The core's tile state, updated in place. `run` is every datagram it has
   * handled; what is proved of `ClientRun` holds of this object at all times.
   */
  class ClientCore {
    var dims: Option<(nat, nat)>
    var coverage: map<Key, CoverageEntry>
    var newest: Option<u32>

    ghost const palettes: Palettes
    ghost var run: seq<Arrival>

    ghost function Abstract(): Core
      reads this
    {
      Core(dims, coverage, newest)
    }

    ghost predicate Valid()
      reads this
    {
      ArrivalsOk(run) && Abstract() == ClientRun(palettes, run).core
    }

    constructor (ghost p: Palettes)
      ensures Valid() && run == [] && palettes == p
    {
      dims, coverage, newest, palettes, run := None, map[], None, p, [];
    }

    /** Drop coverage of tiles a new grid no longer has, one key after the other. */
    method PurgeOutsideGrid(width: nat, height: nat)
      modifies this`coverage
      ensures coverage == Retain(old(coverage), width, height)
    {
      var rest := coverage.Keys;
      while rest != {}
        invariant rest <= coverage.Keys
        invariant forall t :: t in coverage <==> t in old(coverage) && (InGrid(t, width, height) || t in rest)
        invariant forall t :: t in coverage ==> coverage[t] == old(coverage)[t]
      {
        var t :| t in rest;
        if !InGrid(t, width, height) { coverage := coverage - {t}; }
        rest := rest - {t};
      }
    }

    method AcceptFrameDimensions(width: nat, height: nat) returns (events: seq<Event>)
      modifies this`dims, this`coverage
      ensures var h := AcceptDimensions(old(Abstract()), width, height);
              Abstract() == h.core && events == h.events
    {
      if !(1 <= width <= MAX_FRAME_DIMENSION) || !(1 <= height <= MAX_FRAME_DIMENSION) { return []; }
      var changed := dims != Some((width, height));
      dims := Some((width, height));
      if changed { PurgeOutsideGrid(width, height); }
      return [FrameDimensions(width, height)];
    }

    /** A CDF 5/3 pass: filtered, checked against the held entry, stored and reported. */
    method DeliverCdf53(src: Source, now: nat) returns (events: seq<Event>, requests: seq<Request>)
      requires src.body.Cdf53Body?
      modifies this`coverage
      ensures var h := DeliverPass(old(Abstract()), src, now);
              Abstract() == h.core && events == h.events && requests == h.requests
    {
      hide ApplyArrival, Order, LabelExpired, LabelRunsAhead;
      var b := src.body;
      if LabelRunsAhead(src.frameSeq, newest) { return [], []; }
      var prev := None;
      if src.tile in coverage && !LabelExpired(coverage[src.tile].frameSeq, newest) {
        prev := Some(coverage[src.tile]);
      }
      if prev.Some? && Order(prev, b.generation, src.frameSeq) == Stale { return [], []; }
      var present := if b.checked.Some? then b.checked.value.present else None;
      var o := ApplyCdf53Arrival(prev, b.generation, b.pass, src.frameSeq, now, b.checked.Some?, present);
      if o.committed { coverage := coverage[src.tile := o.entry]; }
      requests := [];
      for i := 0 to |o.nackPasses|
        invariant |requests| == i
        invariant forall j :: 0 <= j < i ==> requests[j] == Request(src.frameSeq, src.tile, o.nackPasses[j])
        invariant dims == old(dims) && newest == old(newest)
        invariant coverage == if o.committed then old(coverage)[src.tile := o.entry] else old(coverage)
      {
        requests := requests + [Request(src.frameSeq, src.tile, o.nackPasses[i])];
      }
      events := [if b.checked.Some?
                 then Cdf53(src.frameSeq, src.tile, Pass(b.generation, b.pass, b.checked.value.plane, present),
                   o.newGeneration)
                 else Other(DECODE_ERROR)];
    }

    method Dispatch(src: Source, received: bool, now: nat) returns (events: seq<Event>, requests: seq<Request>)
      requires src.frameSeq < MOD31
      modifies this`dims, this`coverage, this`newest
      ensures var h := HandleSource(old(Abstract()), src, received, now);
              Abstract() == h.core && events == h.events && requests == h.requests
    {
      hide IsNewer, TileInGrid, DeliverPass, AcceptDimensions;
      var body := src.body;
      if body.DimensionsBody? {
        DimensionsQuiet(Core(dims, coverage, newest), body.width, body.height);
        events := AcceptFrameDimensions(body.width, body.height);
        requests := [];
      } else if body.EvictionBody? {
        events, requests := [Other(EVICTED)], [];
      } else if !src.single || !TileInGrid(dims, src.tile) {
        events, requests := [], [];
      } else {
        if received && (newest.None? || IsNewer(src.frameSeq, newest.value)) { newest := Some(src.frameSeq); }
        if body.Cdf53Body? {
          events, requests := DeliverCdf53(src, now);
        } else {
          var h := DeliverTile(Core(dims, coverage, newest), src, now);
          events, requests := h.events, [];
        }
      }
    }

    /** One source tile datagram, received off the wire or rebuilt from parity. */
    method HandleSourceTile(src: Source, received: bool, now: nat) returns (events: seq<Event>, requests: seq<Request>)
      requires Valid() && SourceOk(src)
      modifies this
      ensures Valid() && run == old(run) + [Arrival(src, received, now)]
      ensures var h := HandleSource(old(Abstract()), src, received, now);
              Abstract() == h.core && events == h.events && requests == h.requests
    {
      hide HandleSource, ClientRun;
      RunGrows(palettes, run, Arrival(src, received, now));
      events, requests := Dispatch(src, received, now);
      run := run + [Arrival(src, received, now)];
    }
  }

  lemma DimensionsQuiet(core: Core, width: nat, height: nat)
    ensures AcceptDimensions(core, width, height).requests == []
  {
  }

  lemma RunGrows(palettes: Palettes, run: seq<Arrival>, a: Arrival)
    requires ArrivalsOk(run) && SourceOk(a.src)
    ensures ArrivalsOk(run + [a])
    ensures ClientRun(palettes, run + [a]).core
      == HandleSource(ClientRun(palettes, run).core, a.src, a.received, a.now).core
  {
    hide HandleSource;
    assert (run + [a])[..|run|] == run;
  }
}
