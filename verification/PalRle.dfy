/**
 * Palette tiles: a payload is checked and its run lengths expanded to packed
 * 4-bit indices; colours come from a table of 256 palettes that payloads update.
 *
 * The tile can be decoded in one go, or split between the protocol core, which
 * keeps only how many colours each palette has, and a pixel decoder, which keeps
 * the colours. The two give the same pixels for every run of payloads.
 */
module PalRle {
  import opened Serial
  import opened Bytes
  import opened TileDecoder

  const PIXELS: nat := 1024

  // -------------------------------------------------------------- run lengths

  function Repeat(v: nat, n: nat): (r: seq<nat>)
    ensures |r| == n && forall i :: 0 <= i < n ==> r[i] == v
  {
    seq(n, _ => v)
  }

  /** The pixel indices a stream stands for: each byte is an index and a run of 1..16. */
  function Runs(rle: seq<byte>): (r: seq<nat>)
    ensures forall i :: 0 <= i < |r| ==> r[i] < 16
  {
    if rle == [] then [] else
      var b := rle[|rle| - 1] as int;
      Runs(rle[..|rle| - 1]) + Repeat(b / 16, b % 16 + 1)
  }

  lemma RunsStep(rle: seq<byte>, k: nat)
    requires k < |rle|
    ensures Runs(rle[..k + 1]) == Runs(rle[..k]) + Repeat(rle[k] / 16, rle[k] % 16 + 1)
  {
    assert rle[..k + 1][..k] == rle[..k];
  }

  lemma {:induction false} RunsGrow(rle: seq<byte>, k: nat)
    requires k <= |rle|
    ensures |Runs(rle[..k])| <= |Runs(rle)|
    decreases |rle| - k
  {
    if k == |rle| {
      assert rle[..k] == rle;
    } else {
      RunsStep(rle, k);
      RunsGrow(rle, k + 1);
    }
  }

  /** Pixel `p` of packed indices: low nibble first. */
  function Nibble(indices: seq<byte>, p: nat): (r: nat)
    requires p / 2 < |indices|
    ensures r < 16
  {
    if p % 2 == 0 then indices[p / 2] % 16 else indices[p / 2] / 16
  }

  /** 512 bytes of indices whose pixels are the runs, if those make exactly one tile. */
  ghost predicate Expands(rle: seq<byte>, r: Option<seq<byte>>) {
    && (r.Some? <==> |Runs(rle)| == PIXELS)
    && (r.Some? ==> |r.value| == 512 && forall p :: 0 <= p < PIXELS ==> Nibble(r.value, p) == Runs(rle)[p])
  }

  /** Put one pixel's index in its half of its byte. */
  method SetNibble(indices: array<byte>, p: nat, idx: nat)
    requires p / 2 < indices.Length && idx < 16
    modifies indices
    ensures Nibble(indices[..], p) == idx
    ensures forall q :: 0 <= q / 2 < indices.Length && 0 <= q && q != p ==>
      Nibble(indices[..], q) == old(Nibble(indices[..], q))
  {
    var b := indices[p / 2] as int;
    indices[p / 2] := if p % 2 == 0 then b / 16 * 16 + idx else b % 16 + idx * 16;
  }

  /** The first pixels of `indices` are those of `px`. */
  ghost predicate Holds(indices: seq<byte>, px: seq<nat>) {
    |px| <= 2 * |indices| && forall q :: 0 <= q < |px| ==> Nibble(indices, q) == px[q]
  }

  method PutNext(indices: array<byte>, ghost px: seq<nat>, at: nat, idx: nat)
    requires at < |px| && at / 2 < indices.Length && px[at] == idx < 16 && Holds(indices[..], px[..at])
    modifies indices
    ensures Holds(indices[..], px[..at + 1])
  {
    hide Nibble;
    SetNibble(indices, at, idx);
  }

  lemma HoldsExpansion(rle: seq<byte>, indices: seq<byte>)
    requires |indices| == 512 && |Runs(rle)| == PIXELS && Holds(indices, Runs(rle))
    ensures Expands(rle, Some(indices))
  {
    hide Nibble, Runs;
  }

  /** One byte of the stream: its run, pixel by pixel, as far as the tile reaches. */
  method PutRun(indices: array<byte>, ghost px: seq<nat>, at: nat, idx: nat, len: nat) returns (full: bool)
    requires indices.Length == 512 && at <= PIXELS && at + len == |px| && idx < 16
    requires Holds(indices[..], px[..at]) && forall j :: at <= j < |px| ==> px[j] == idx
    modifies indices
    ensures full <==> |px| > PIXELS
    ensures !full ==> Holds(indices[..], px)
  {
    hide Nibble, Holds;
    for j := 0 to len
      invariant at + j <= PIXELS && Holds(indices[..], px[..at + j])
    {
      if at + j >= PIXELS { return true; }
      PutNext(indices, px, at + j, idx);
    }
    assert px[..at + len] == px;
    return false;
  }

  lemma NextRun(rle: seq<byte>, k: nat)
    requires k < |rle|
    ensures var was, px, idx := Runs(rle[..k]), Runs(rle[..k + 1]), rle[k] / 16;
            && |px| == |was| + rle[k] % 16 + 1 <= |Runs(rle)| && px[..|was|] == was && idx < 16
            && forall j :: |was| <= j < |px| ==> px[j] == idx
  {
    hide Runs, Repeat;
    RunsStep(rle, k);
    RunsGrow(rle, k + 1);
  }

  method ExpandRleToIndices(rle: seq<byte>) returns (r: Option<seq<byte>>)
    ensures Expands(rle, r)
  {
    var indices := new byte[512](_ => 0);
    var at: nat := 0;
    assert Holds(indices[..], []);
    hide Nibble, Runs, Repeat, Holds;
    assert rle[..0] == [] && Runs([]) == [] by { NoRuns(); }
    for k := 0 to |rle|
      invariant at == |Runs(rle[..k])| <= PIXELS && Holds(indices[..], Runs(rle[..k]))
    {
      var idx, len: nat := rle[k] / 16, rle[k] % 16 + 1;
      NextRun(rle, k);
      var full := PutRun(indices, Runs(rle[..k + 1]), at, idx, len);
      if full { return None; }
      at := at + len;
    }
    assert rle[..|rle|] == rle;
    if at != PIXELS { return None; }
    HoldsExpansion(rle, indices[..]);
    return Some(indices[..]);
  }

  lemma NoRuns()
    ensures Runs([]) == []
  {
  }

  /** There is one way to pack a tile's indices. */
  lemma ExpansionUnique(rle: seq<byte>, a: Option<seq<byte>>, b: Option<seq<byte>>)
    requires Expands(rle, a) && Expands(rle, b)
    ensures a == b
  {
    if a.Some? {
      forall i | 0 <= i < 512
        ensures a.value[i] == b.value[i]
      {
        assert Nibble(a.value, 2 * i) == Nibble(b.value, 2 * i);
        assert Nibble(a.value, 2 * i + 1) == Nibble(b.value, 2 * i + 1);
      }
      assert a.value == b.value;
    }
  }

  /** The packed indices as a function of the runs. */
  function Packed(px: seq<nat>): (r: seq<byte>)
    requires |px| == PIXELS && forall i :: 0 <= i < |px| ==> px[i] < 16
    ensures |r| == 512
  {
    seq(512, i requires 0 <= i < 512 => px[2 * i] + 16 * px[2 * i + 1])
  }

  function Expanded(rle: seq<byte>): Option<seq<byte>> {
    if |Runs(rle)| == PIXELS then Some(Packed(Runs(rle))) else None
  }

  lemma ExpandedExpands(rle: seq<byte>)
    ensures Expands(rle, Expanded(rle))
  {
    if |Runs(rle)| == PIXELS {
      var px := Runs(rle);
      forall p | 0 <= p < PIXELS
        ensures Nibble(Packed(px), p) == px[p]
      {
        var i := p / 2;
        assert Packed(px)[i] == px[2 * i] + 16 * px[2 * i + 1];
        assert p == 2 * i || p == 2 * i + 1;
      }
    }
  }

  // ------------------------------------------------------------------ checks

  datatype Code = PayloadTooShort | ThinUncachedPalette | BundledTruncated | CountOutOfRange

  datatype Result<T> = Ok(value: T) | Err(code: Code)

  /** How many colours each palette has; 0 for none yet. */
  type Counts = c: seq<nat> | |c| == 256 witness seq(256, _ => 0)

  datatype Checked = Checked(id: byte, count: nat, indices: seq<byte>, upsert: Option<seq<byte>>)

  predicate Bundled(payload: seq<byte>)
    requires |payload| >= 2
  {
    payload[0] % 2 == 1
  }

  predicate IndicesRaw(payload: seq<byte>)
    requires |payload| >= 2
  {
    payload[0] / 2 % 2 == 1
  }

  function WithIndices(id: byte, count: nat, rle: seq<byte>, upsert: Option<seq<byte>>): Result<Checked> {
    var indices := Expanded(rle);
    if indices.None? then Err(PayloadTooShort) else Ok(Checked(id, count, indices.value, upsert))
  }

  function Prevalidated(payload: seq<byte>, counts: Counts): (r: Result<Checked>)
    ensures r.Ok? ==> |r.value.indices| == 512
    ensures r.Ok? && r.value.upsert.Some? ==> 1 <= r.value.count <= 16 && |r.value.upsert.value| == 4 * r.value.count
  {
    if |payload| < 2 then Err(PayloadTooShort)
    else if IndicesRaw(payload) then
      if |payload| < 514 then Err(PayloadTooShort)
      else if counts[payload[1]] == 0 then Err(ThinUncachedPalette)
      else Ok(Checked(payload[1], counts[payload[1]], payload[2..514], None))
    else if Bundled(payload) then
      if |payload| == 2 then Err(BundledTruncated)
      else if !(1 <= payload[2] <= 16) then Err(CountOutOfRange)
      else if 3 + 4 * payload[2] > |payload| then Err(BundledTruncated)
      else
        var n := payload[2] as int;
        WithIndices(payload[1], n, payload[3 + 4 * n..], Some(payload[3..3 + 4 * n]))
    else if counts[payload[1]] == 0 then Err(ThinUncachedPalette)
    else WithIndices(payload[1], counts[payload[1]], payload[2..], None)
  }

  method PrevalidatePalRle(payload: seq<byte>, counts: Counts) returns (r: Result<Checked>)
    ensures r == Prevalidated(payload, counts)
  {
    hide Expanded, Expands;
    if |payload| < 2 { return Err(PayloadTooShort); }
    var id := payload[1];
    if IndicesRaw(payload) {
      if |payload| < 2 + 512 { return Err(PayloadTooShort); }
      if counts[id] == 0 { return Err(ThinUncachedPalette); }
      return Ok(Checked(id, counts[id], payload[2..2 + 512], None));
    }
    var cursor, count, upsert := 2, counts[id], None;
    if Bundled(payload) {
      if cursor >= |payload| { return Err(BundledTruncated); }
      count := payload[cursor];
      cursor := cursor + 1;
      if !(1 <= count <= 16) { return Err(CountOutOfRange); }
      if cursor + 4 * count > |payload| { return Err(BundledTruncated); }
      upsert := Some(payload[cursor..cursor + 4 * count]);
      cursor := cursor + 4 * count;
    } else if count == 0 {
      return Err(ThinUncachedPalette);
    }
    var indices := ExpandRleToIndices(payload[cursor..]);
    ExpandedExpands(payload[cursor..]);
    ExpansionUnique(payload[cursor..], indices, Expanded(payload[cursor..]));
    if indices.None? { return Err(PayloadTooShort); }
    return Ok(Checked(id, count, indices.value, upsert));
  }

  // ------------------------------------------------------------------ pixels

  predicate PaletteOk(p: Palette) { |p| == 16 && forall i :: 0 <= i < 16 ==> |p[i]| == 4 }

  ghost predicate PalettesOk(ps: Palettes) { forall i :: 0 <= i < 256 ==> PaletteOk(ps[i]) }

  /** Blue, green, red, alpha becomes red, green, blue, opaque. */
  function Swizzled(c: Bgra): (r: seq<byte>)
    requires |c| == 4
    ensures |r| == 4
  {
    [c[2], c[1], c[0], 255]
  }

  function PixelColour(palette: Palette, indices: seq<byte>, p: nat): (r: seq<byte>)
    requires PaletteOk(palette) && p / 2 < |indices|
    ensures |r| == 4
  {
    Swizzled(palette[Nibble(indices, p)])
  }

  /** The first `n` pixels of the tile. */
  function Render(palette: Palette, indices: seq<byte>, n: nat): (r: seq<byte>)
    requires PaletteOk(palette) && n <= 2 * |indices|
    ensures |r| == 4 * n
  {
    if n == 0 then [] else Render(palette, indices, n - 1) + PixelColour(palette, indices, n - 1)
  }

  function Colours(upsert: seq<byte>): (r: seq<Bgra>)
    requires |upsert| % 4 == 0
    ensures |r| == |upsert| / 4
  {
    seq(|upsert| / 4, i requires 0 <= i < |upsert| / 4 => upsert[4 * i..4 * i + 4])
  }

  lemma RecolouredOk(palette: Palette, upsert: seq<byte>)
    requires PaletteOk(palette) && |upsert| % 4 == 0
    ensures PaletteOk(Recolour(palette, Colours(upsert)))
  {
  }

  /** The whole decode in one go: what becomes of the tables, and the pixels. */
  function DirectStep(counts: Counts, palettes: Palettes, payload: seq<byte>): (Counts, Palettes, Result<seq<byte>>)
    requires PalettesOk(palettes)
  {
    var v := Prevalidated(payload, counts);
    if v.Err? then (counts, palettes, Err(v.code)) else
      var c := v.value;
      if c.upsert.None? then (counts, palettes, Ok(Render(palettes[c.id], c.indices, PIXELS))) else
        RecolouredOk(palettes[c.id], c.upsert.value);
        var slot := Recolour(palettes[c.id], Colours(c.upsert.value));
        (counts[c.id := c.count], palettes[c.id := slot], Ok(Render(slot, c.indices, PIXELS)))
  }

  lemma DirectKeeps(counts: Counts, palettes: Palettes, payload: seq<byte>)
    requires PalettesOk(palettes)
    ensures PalettesOk(DirectStep(counts, palettes, payload).1)
  {
    var v := Prevalidated(payload, counts);
    if v.Ok? && v.value.upsert.Some? { RecolouredOk(palettes[v.value.id], v.value.upsert.value); }
  }

  class TileTables {
    var counts: Counts
    var palettes: Palettes

    constructor (c: Counts, p: Palettes)
      ensures counts == c && palettes == p
    {
      counts, palettes := c, p;
    }

    /** Copy the bundled colours to the front of the palette's slots. */
    method Upsert(id: byte, upsert: seq<byte>)
      requires PalettesOk(palettes) && |upsert| % 4 == 0 && |upsert| <= 64
      modifies this`palettes
      ensures palettes == old(palettes)[id := Recolour(old(palettes)[id], Colours(upsert))]
    {
      var slot := palettes[id];
      for i := 0 to |upsert| / 4
        invariant |slot| == 16
        invariant forall j :: 0 <= j < 16 ==> slot[j] == if j < i then Colours(upsert)[j] else palettes[id][j]
        invariant palettes == old(palettes)
      {
        slot := slot[i := [upsert[i * 4], upsert[i * 4 + 1], upsert[i * 4 + 2], upsert[i * 4 + 3]]];
      }
      assert slot == Recolour(palettes[id], Colours(upsert));
      palettes := palettes[id := slot];
    }

    method DecodePalRleTile(payload: seq<byte>) returns (r: Result<seq<byte>>)
      requires PalettesOk(palettes)
      modifies this
      ensures (counts, palettes, r) == DirectStep(old(counts), old(palettes), payload) && PalettesOk(palettes)
    {
      hide Prevalidated, Render, Recolour, Colours, PixelColour;
      DirectKeeps(counts, palettes, payload);
      var v := PrevalidatePalRle(payload, counts);
      if v.Err? { return Err(v.code); }
      var c := v.value;
      if c.upsert.Some? {
        Upsert(c.id, c.upsert.value);
        if 1 <= c.count <= 16 { counts := counts[c.id := c.count]; }
      }
      var rgba := DrawPixels(palettes[c.id], c.indices);
      return Ok(rgba);
    }
  }

  method DrawPixels(palette: Palette, indices: seq<byte>) returns (rgba: seq<byte>)
    requires PaletteOk(palette) && |indices| == 512
    ensures rgba == Render(palette, indices, PIXELS)
  {
    hide Render;
    rgba := [];
    NoPixels(palette, indices);
    for p := 0 to PIXELS
      invariant rgba == Render(palette, indices, p)
    {
      var idx := if p % 2 == 0 then indices[p / 2] % 16 else indices[p / 2] / 16;
      var bgra := palette[idx];
      OnePixel(palette, indices, p);
      rgba := rgba + [bgra[2], bgra[1], bgra[0], 255];
    }
  }

  lemma NoPixels(palette: Palette, indices: seq<byte>)
    requires PaletteOk(palette)
    ensures Render(palette, indices, 0) == []
  {
  }

  lemma OnePixel(palette: Palette, indices: seq<byte>, p: nat)
    requires PaletteOk(palette) && p < 2 * |indices|
    ensures Render(palette, indices, p + 1) == Render(palette, indices, p) + Swizzled(palette[Nibble(indices, p)])
  {
  }

  /** The pixel decoder's writer: two pixels per index byte, row by row. */
  method WriteRows(palette: Palette, indices: seq<byte>) returns (rgba: seq<byte>)
    requires PaletteOk(palette) && |indices| == 512
    ensures rgba == Render(palette, indices, PIXELS)
  {
    hide Render;
    rgba := [];
    NoPixels(palette, indices);
    for y := 0 to 32
      invariant rgba == Render(palette, indices, 32 * y)
    {
      for k := 0 to 16
        invariant rgba == Render(palette, indices, 32 * y + 2 * k)
      {
        var pair := indices[y * 16 + k];
        var lo, hi := palette[pair % 16], palette[pair / 16];
        var p := 32 * y + 2 * k;
        assert p / 2 == y * 16 + k && p % 2 == 0 && (p + 1) / 2 == y * 16 + k && (p + 1) % 2 == 1;
        OnePixel(palette, indices, p);
        OnePixel(palette, indices, p + 1);
        rgba := rgba + Swizzled(lo) + Swizzled(hi);
      }
    }
  }

  // -------------------------------------------------------------- split path

  /** What the core reports for a payload that passed. */
  function Reported(c: Checked, frameSeq: nat, tile: Key): seq<Event>
    requires c.upsert.Some? ==> |c.upsert.value| % 4 == 0
  {
    (if c.upsert.Some? then [PaletteUpdated(c.id, Colours(c.upsert.value))] else [])
      + [Event.PalRle(frameSeq, tile, c.id, c.indices)]
  }

  function DecodeEvents(d: Decoder, events: seq<Event>): (Decoder, Option<Output>) {
    if events == [] then (d, None) else
      var (before, _) := DecodeEvents(d, events[..|events| - 1]);
      DecodeOne(before, events[|events| - 1])
  }

  /** The core checks and keeps counts; the decoder keeps colours and draws. */
  function SplitStep(counts: Counts, d: Decoder, payload: seq<byte>, frameSeq: nat, tile: Key):
    (Counts, Decoder, Result<Option<Output>>)
  {
    var v := Prevalidated(payload, counts);
    if v.Err? then (counts, d, Err(v.code)) else
      var c := v.value;
      var (after, out) := DecodeEvents(d, Reported(c, frameSeq, tile));
      (if c.upsert.Some? then counts[c.id := c.count] else counts, after, Ok(out))
  }

  /** The colours an accepted payload leaves in the decoder's table. */
  function Coloured(palettes: Palettes, c: Checked): Palettes
    requires c.upsert.Some? ==> |c.upsert.value| % 4 == 0
  {
    if c.upsert.Some? then palettes[c.id := Recolour(palettes[c.id], Colours(c.upsert.value))] else palettes
  }

  lemma NextEvent(d: Decoder, events: seq<Event>, ev: Event)
    ensures DecodeEvents(d, events + [ev]) == DecodeOne(DecodeEvents(d, events).0, ev)
  {
    hide DecodeOne;
    assert (events + [ev])[..|events|] == events;
  }

  lemma PaletteEvent(d: Decoder, id: byte, colors: seq<Bgra>)
    ensures DecodeOne(d, PaletteUpdated(id, colors))
         == (d.(palettes := d.palettes[id := Recolour(d.palettes[id], colors)]), None)
  {
    hide Recolour;
  }

  lemma PaintEvent(d: Decoder, frameSeq: nat, tile: Key, id: byte, indices: seq<byte>)
    ensures DecodeOne(d, Event.PalRle(frameSeq, tile, id, indices))
         == (d, Some(Painted(frameSeq, tile, PalPixels(d.palettes[id], indices))))
  {
  }

  lemma ReportedDecodes(d: Decoder, c: Checked, frameSeq: nat, tile: Key)
    requires c.upsert.Some? ==> |c.upsert.value| % 4 == 0
    ensures var ps := Coloured(d.palettes, c);
            DecodeEvents(d, Reported(c, frameSeq, tile))
            == (d.(palettes := ps), Some(Painted(frameSeq, tile, PalPixels(ps[c.id], c.indices))))
  {
    assert DecodeEvents(d, []) == (d, None);
    hide Recolour, Colours, DecodeOne, DecodeEvents;
    var paint := Event.PalRle(frameSeq, tile, c.id, c.indices);
    PaintEvent(d.(palettes := Coloured(d.palettes, c)), frameSeq, tile, c.id, c.indices);
    if c.upsert.Some? {
      var update := PaletteUpdated(c.id, Colours(c.upsert.value));
      PaletteEvent(d, c.id, Colours(c.upsert.value));
      assert [] + [update] == [update];
      NextEvent(d, [], update);
      NextEvent(d, [update], paint);
    } else {
      NextEvent(d, [], paint);
    }
  }

  lemma DirectIs(counts: Counts, palettes: Palettes, payload: seq<byte>)
    requires PalettesOk(palettes) && Prevalidated(payload, counts).Ok?
    ensures var c := Prevalidated(payload, counts).value; var ps := Coloured(palettes, c);
            && PaletteOk(ps[c.id])
            && DirectStep(counts, palettes, payload)
               == (if c.upsert.Some? then counts[c.id := c.count] else counts,
                   ps, Ok(Render(ps[c.id], c.indices, PIXELS)))
  {
    hide Prevalidated, Render, Recolour, Colours;
    var c := Prevalidated(payload, counts).value;
    if c.upsert.Some? { RecolouredOk(palettes[c.id], c.upsert.value); }
  }

  /** The pixels of what the split path painted, or the code it was refused with. */
  function Drawn(out: Result<Option<Output>>): Result<seq<byte>> {
    if out.Err? then Err(out.code)
    else if && out.value.Some? && out.value.value.Painted? && out.value.value.pixels.PalPixels?
            && PaletteOk(out.value.value.pixels.palette) && |out.value.value.pixels.indices| == 512
    then Ok(Render(out.value.value.pixels.palette, out.value.value.pixels.indices, PIXELS)) else Ok([])
  }

  /** The split decode is the direct one: same tables, same pixels, and the same code for a refusal. */
  lemma SplitIsDirect(counts: Counts, d: Decoder, payload: seq<byte>, frameSeq: nat, tile: Key)
    requires PalettesOk(d.palettes)
    ensures var s, r := SplitStep(counts, d, payload, frameSeq, tile), DirectStep(counts, d.palettes, payload);
            && s.0 == r.0 && s.1 == d.(palettes := r.1)
            && Drawn(s.2) == r.2
            && (s.2.Ok? ==> && s.2.value.Some? && s.2.value.value.Painted?
                            && s.2.value.value.frameSeq == frameSeq && s.2.value.value.tile == tile)
  {
    hide Prevalidated, Render, Coloured, DecodeEvents, Reported;
    var v := Prevalidated(payload, counts);
    if v.Ok? {
      hide DirectStep;
      DirectIs(counts, d.palettes, payload);
      ReportedDecodes(d, v.value, frameSeq, tile);
    }
  }

  datatype Arriving = Arriving(payload: seq<byte>, frameSeq: nat, tile: Key)

  /** The pixels of each tile, or why its payload was refused. */
  function DirectRun(counts: Counts, palettes: Palettes, run: seq<Arriving>): seq<Result<seq<byte>>>
    requires PalettesOk(palettes)
    decreases |run|
  {
    if run == [] then [] else
      DirectKeeps(counts, palettes, run[0].payload);
      var (c, p, r) := DirectStep(counts, palettes, run[0].payload);
      [r] + DirectRun(c, p, run[1..])
  }

  function SplitRun(counts: Counts, d: Decoder, run: seq<Arriving>): seq<Result<seq<byte>>>
    decreases |run|
  {
    if run == [] then [] else
      var (c, after, out) := SplitStep(counts, d, run[0].payload, run[0].frameSeq, run[0].tile);
      [Drawn(out)] + SplitRun(c, after, run[1..])
  }

  /** Whatever payloads come, in whatever order, both paths draw the same tiles. */
  lemma {:induction false} SplitRunIsDirect(counts: Counts, d: Decoder, run: seq<Arriving>)
    requires PalettesOk(d.palettes)
    ensures SplitRun(counts, d, run) == DirectRun(counts, d.palettes, run)
    decreases |run|
  {
    hide SplitStep, DirectStep, Render;
    if run == [] {
    } else {
      var a := run[0];
      SplitIsDirect(counts, d, a.payload, a.frameSeq, a.tile);
      DirectKeeps(counts, d.palettes, a.payload);
      var (c, after, out) := SplitStep(counts, d, a.payload, a.frameSeq, a.tile);
      SplitRunIsDirect(c, after, run[1..]);
    }
  }

}
