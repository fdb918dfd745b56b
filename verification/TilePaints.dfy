/**
 * Tiles that are painted by one datagram: solid colours and palette tiles, from the
 * datagram to the screen.
 */
module TilePaints {
  import opened Serial
  import opened Bytes
  import opened TileDecoder
  import opened Reassembly
  import P = PalRle
  import E = PalEncode

  /** The datagram is whole, is not one of the two notices, and its tile holds a pixel of the frame. */
  ghost predicate Placed(core: Core, src: Source) {
    && src.frameSeq < MOD31 && src.single && !IsSentinel(src)
    && (core.dims.Some? ==> HasPixel(src.tile, core.dims.value.0, core.dims.value.1))
  }

  lemma PlacedIsDelivered(core: Core, src: Source, received: bool, now: nat)
    requires Placed(core, src)
    ensures HandleSource(core, src, received, now)
         == DeliverTile(core.(newest := NewestAfter(core, src, received)), src, now)
  {
    hide DeliverTile, IsNewer, InGrid;
    if core.dims.Some? { GridIsPixels(src.tile, core.dims.value.0, core.dims.value.1); }
  }

  /**
   * A solid tile of four bytes is on the screen at once, in its colour, at its place and
   * under its label; nothing else on the screen and no tile's coverage moves. Any other
   * length paints nothing.
   */
  lemma SolidShown(core: Core, src: Source, received: bool, now: nat, s: Simple)
    requires Placed(core, src) && src.body.SolidBody?
    ensures var h := HandleSource(core, src, received, now); var quad := src.body.quad;
            && h.core.coverage == core.coverage && h.core.dims == core.dims && h.requests == []
            && var after := Run(s, h.events);
               after.d == s.d && after.v.marks == s.v.marks
               && after.v.screen == if quad.None? then s.v.screen
                                    else s.v.screen[src.tile := (src.frameSeq, SolidPixels(quad.value))]
  {
    hide HandleSource, IsNewer;
    PlacedIsDelivered(core, src, received, now);
    if src.body.quad.Some? { RunOne(s, Solid(src.frameSeq, src.tile, src.body.quad.value)); } else { RunNone(s); }
  }

  /** The two notices reach the host, a size if it counts, with the screen as it then is, and touch nothing on it. */
  lemma NoticesHandedOn(core: Core, src: Source, received: bool, now: nat, s: Simple)
    requires src.frameSeq < MOD31 && IsSentinel(src)
    ensures var after := Run(s, HandleSource(core, src, received, now).events).v; var b := src.body;
            && after.screen == s.v.screen
            && after.marks == s.v.marks
               + if b.EvictionBody? then [(s.v.screen, Other(EVICTED))]
                 else if 1 <= b.width <= 8192 && 1 <= b.height <= 8192
                 then [(s.v.screen, FrameDimensions(b.width, b.height))] else []
  {
    hide Retain;
    RunNone(s);
    RunOne(s, Other(EVICTED));
    if src.body.DimensionsBody? { RunOne(s, FrameDimensions(src.body.width, src.body.height)); }
  }

  /** The body of a palette datagram once its payload has been checked. */
  function PaletteBody(v: P.Result<P.Checked>): Body
    requires v.Ok? && v.value.upsert.Some? ==> |v.value.upsert.value| % 4 == 0
  {
    if v.Err? then PalRleBody(None, None) else
      var c := v.value;
      PalRleBody(if c.upsert.Some? then Some((c.id, P.Colours(c.upsert.value))) else None, Some((c.id, c.indices)))
  }

  /** A palette datagram whose payload is `payload`. */
  ghost predicate CarriesPalette(src: Source, counts: P.Counts, payload: seq<byte>) {
    src.body == PaletteBody(P.Prevalidated(payload, counts))
  }

  /** What the core reports of a palette datagram is what the check of its payload reports, or that it failed. */
  lemma PaletteReported(core: Core, src: Source, received: bool, now: nat, counts: P.Counts, payload: seq<byte>)
    requires Placed(core, src) && CarriesPalette(src, counts, payload)
    ensures var h := HandleSource(core, src, received, now); var v := P.Prevalidated(payload, counts);
            && h.core.coverage == core.coverage && h.core.dims == core.dims && h.requests == []
            && h.events == if v.Ok? then P.Reported(v.value, src.frameSeq, src.tile) else [Other(DECODE_ERROR)]
  {
    hide HandleSource, IsNewer, P.Prevalidated, P.Colours;
    PlacedIsDelivered(core, src, received, now);
  }

  lemma {:induction false} RunIsDecodeEvents(s: Simple, events: seq<Event>)
    requires forall i :: 0 <= i < |events| ==> events[i].PaletteUpdated? || (events[i].PalRle? && i == |events| - 1)
    ensures var d := P.DecodeEvents(s.d, events);
            Run(s, events) == Simple(d.0, if d.1.Some? then Show(s.v, d.1.value) else s.v)
  {
    hide Show, Recolour;
    if events == [] {
    } else {
      var front := events[..|events| - 1];
      RunIsDecodeEvents(s, front);
      assert front != [] ==> front[|front| - 1] == events[|events| - 2];
      QuietUpdates(s.d, front);
    }
  }

  lemma QuietUpdates(d: Decoder, events: seq<Event>)
    requires forall i :: 0 <= i < |events| ==> events[i].PaletteUpdated?
    ensures P.DecodeEvents(d, events).1 == None
  {
    hide Recolour;
  }

  /**
   * An accepted palette datagram puts its tile on the screen, at its place and under its
   * label, in exactly the pixels the one-go decoder draws of the payload, and leaves the
   * decoder that decoder's palettes; nothing else on the screen moves.
   */
  lemma PaletteShown(
    core: Core, src: Source, received: bool, now: nat, s: Simple, counts: P.Counts, payload: seq<byte>)
    requires Placed(core, src) && CarriesPalette(src, counts, payload)
    requires P.PalettesOk(s.d.palettes) && P.Prevalidated(payload, counts).Ok?
    ensures var after := Run(s, HandleSource(core, src, received, now).events);
            var direct := P.DirectStep(counts, s.d.palettes, payload);
            && after.d == s.d.(palettes := direct.1) && after.v.marks == s.v.marks && direct.2.Ok?
            && src.tile in after.v.screen && after.v.screen == s.v.screen[src.tile := after.v.screen[src.tile]]
            && var (label', picture) := after.v.screen[src.tile];
               && label' == src.frameSeq && picture.PalPixels?
               && P.PaletteOk(picture.palette) && |picture.indices| == 512
               && P.Render(picture.palette, picture.indices, 1024) == direct.2.value
  {
    hide HandleSource, P.Prevalidated, P.Colours, P.Render, Recolour, P.DirectStep;
    var c := P.Prevalidated(payload, counts).value;
    PaletteReported(core, src, received, now, counts, payload);
    var events := P.Reported(c, src.frameSeq, src.tile);
    RunIsDecodeEvents(s, events);
    P.ReportedDecodes(s.d, c, src.frameSeq, src.tile);
    P.DirectIs(counts, s.d.palettes, payload);
  }

  /**
   * A tile the server encodes with its palette: every pixel on the screen is the colour the
   * server's index names, whatever the client's tables held before.
   */
  lemma ServerTileShown(
    core: Core, src: Source, received: bool, now: nat, s: Simple, counts: P.Counts,
    id: byte, colours: seq<Bgra>, packed: seq<byte>, rle: seq<byte>)
    requires Placed(core, src) && P.PalettesOk(s.d.palettes) && E.ColoursOk(colours) && E.Encodes(packed, rle)
    requires CarriesPalette(src, counts, E.BundledPayload(id, colours, rle))
    ensures var screen := Run(s, HandleSource(core, src, received, now).events).v.screen;
            && src.tile in screen && |packed| == 512 && screen[src.tile].0 == src.frameSeq
            && var picture := screen[src.tile].1;
               && picture.PalPixels? && P.PaletteOk(picture.palette) && |picture.indices| == 512
               && E.Shows(P.Render(picture.palette, picture.indices, 1024), packed, colours)
  {
    hide HandleSource, P.Prevalidated, P.Render, P.DirectStep, E.Encodes, E.BundledPayload, E.Shows, Placed, Run;
    hide CarriesPalette, E.Knows;
    E.EncodedWhole(packed, rle);
    E.BundledRead(counts, id, colours, packed, rle);
    E.BundledTileShown(counts, s.d.palettes, id, colours, packed, rle);
    PaletteShown(core, src, received, now, s, counts, E.BundledPayload(id, colours, rle));
  }
}
