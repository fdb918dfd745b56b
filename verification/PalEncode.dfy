/**
 * The server's side of a palette tile, and what the client draws of it.
 *
 * The encoder runs over the tile's 1024 indices once. A payload carries the runs
 * with their palette or without it, or the packed indices as they are.
 */
module PalEncode {
  import opened Serial
  import opened Bytes
  import opened TileDecoder
  import opened PalRle

  // ------------------------------------------------------------- run lengths

  /** The first `n` pixel indices of a packed tile. */
  function Px(packed: seq<byte>, n: nat): (r: seq<nat>)
    requires n <= 2 * |packed|
    ensures |r| == n && forall p :: 0 <= p < n ==> r[p] == Nibble(packed, p)
  {
    seq(n, p requires 0 <= p < n => Nibble(packed, p))
  }

  /** The bytes are runs of the tile's indices, in order, no more and no less. */
  ghost predicate Encodes(packed: seq<byte>, rle: seq<byte>) {
    |packed| == 512 && Runs(rle) == Px(packed, PIXELS) && |rle| <= PIXELS
  }

  /** The bytes put out and the run still open are the indices walked. */
  ghost predicate Walked(packed: seq<byte>, n: nat, out: seq<byte>, idx: nat, run: nat) {
    && n <= 2 * |packed| && idx < 16 && run <= 16 && Runs(out) + Repeat(idx, run) == Px(packed, n)
    && (run == 0 <==> n == 0) && |out| + (if n > 0 then 1 else 0) <= n
  }

  function RunByte(idx: nat, run: nat): byte
    requires idx < 16 && 1 <= run <= 16
  {
    idx * 16 + (run - 1)
  }

  lemma RunClosed(out: seq<byte>, idx: nat, run: nat)
    requires idx < 16 && 1 <= run <= 16
    ensures Runs(out + [RunByte(idx, run)]) == Runs(out) + Repeat(idx, run)
  {
    hide Repeat;
    var b := RunByte(idx, run) as int;
    assert b / 16 == idx && b % 16 + 1 == run;
    assert (out + [RunByte(idx, run)])[..|out|] == out;
  }

  lemma OneMore(packed: seq<byte>, n: nat)
    requires n < 2 * |packed|
    ensures Px(packed, n + 1) == Px(packed, n) + [Nibble(packed, n)]
  {
  }

  lemma RepeatMore(idx: nat, run: nat)
    ensures Repeat(idx, run + 1) == Repeat(idx, run) + [idx] && Repeat(idx, 1) == [idx] && Repeat(idx, 0) == []
  {
  }

  /** One index: it lengthens the open run, or closes it and opens its own. */
  method Walk(packed: seq<byte>, ghost n: nat, out: seq<byte>, idx: nat, run: nat, next: nat)
    returns (out': seq<byte>, idx': nat, run': nat)
    requires Walked(packed, n, out, idx, run) && n < 2 * |packed| && next == Nibble(packed, n)
    requires n == 0 ==> idx == next
    ensures Walked(packed, n + 1, out', idx', run')
  {
    hide Runs, Repeat, Nibble, Px;
    OneMore(packed, n);
    RepeatMore(idx, run);
    RepeatMore(next, 0);
    if next == idx && run < 16 {
      out', idx', run' := out, idx, run + 1;
      assert Runs(out) + (Repeat(idx, run) + [idx]) == (Runs(out) + Repeat(idx, run)) + [idx];
    } else {
      out', idx', run' := out + [RunByte(idx, run)], next, 1;
      RunClosed(out, idx, run);
    }
  }

  lemma NothingWalked(packed: seq<byte>, idx: nat)
    requires idx < 16
    ensures Walked(packed, 0, [], idx, 0)
  {
  }

  /** The encoder's loop: two indices a byte, low nibble first. */
  method EncodePalRleIndices(packed: seq<byte>) returns (out: seq<byte>)
    requires |packed| == 512
    ensures Encodes(packed, out)
  {
    hide Walked, Runs, Repeat, Nibble, Px;
    out := [];
    var idx: nat, run: nat := packed[0] % 16, 0;
    NothingWalked(packed, idx);
    for i := 0 to 512
      invariant Walked(packed, 2 * i, out, idx, run) && (i == 0 ==> idx == packed[0] % 16)
    {
      BothNibbles(packed, i);
      out, idx, run := Walk(packed, 2 * i, out, idx, run, packed[i] % 16);
      out, idx, run := Walk(packed, 2 * i + 1, out, idx, run, packed[i] / 16);
    }
    LastRun(packed, out, idx, run);
    out := out + [RunByte(idx, run)];
  }

  lemma BothNibbles(packed: seq<byte>, i: nat)
    requires i < |packed|
    ensures Nibble(packed, 2 * i) == packed[i] % 16 && Nibble(packed, 2 * i + 1) == packed[i] / 16
  {
  }

  lemma LastRun(packed: seq<byte>, out: seq<byte>, idx: nat, run: nat)
    requires |packed| == 512 && Walked(packed, 1024, out, idx, run)
    ensures idx < 16 && 1 <= run <= 16 && Encodes(packed, out + [RunByte(idx, run)])
  {
    hide Runs, Repeat, Nibble, Px;
    RunClosed(out, idx, run);
  }

  // ---------------------------------------------------------------- payloads

  /** The colours' bytes, one colour after the other. */
  function Flat(colours: seq<Bgra>): (r: seq<byte>)
    requires forall i :: 0 <= i < |colours| ==> |colours[i]| == 4
    ensures |r| == 4 * |colours| && forall i, k :: 0 <= i < |colours| && 0 <= k < 4 ==> r[4 * i + k] == colours[i][k]
  {
    seq(4 * |colours|, j requires 0 <= j < 4 * |colours| => colours[j / 4][j % 4])
  }

  predicate ColoursOk(colours: seq<Bgra>) {
    1 <= |colours| <= 16 && forall i :: 0 <= i < |colours| ==> |colours[i]| == 4
  }

  function BundledPayload(id: byte, colours: seq<Bgra>, rle: seq<byte>): seq<byte>
    requires ColoursOk(colours)
  {
    [1, id, |colours|] + Flat(colours) + rle
  }

  function ThinPayload(id: byte, rle: seq<byte>): seq<byte> { [0, id] + rle }

  function RawPayload(id: byte, packed: seq<byte>): seq<byte> { [2, id] + packed }

  /** Flags, palette number, the palette if it goes along, and the runs. */
  method EncodePalRlePayload(packed: seq<byte>, colours: seq<Bgra>, id: byte, bundled: bool)
    returns (out: seq<byte>, ghost rle: seq<byte>)
    requires |packed| == 512 && ColoursOk(colours)
    ensures Encodes(packed, rle) && |out| <= 1091
    ensures out == if bundled then BundledPayload(id, colours, rle) else ThinPayload(id, rle)
  {
    hide Encodes;
    out := [if bundled then 1 else 0, id];
    if bundled {
      out := out + [|colours|];
      for i := 0 to |colours|
        invariant out == [1, id, |colours|] + Flat(colours)[..4 * i]
      {
        assert Flat(colours)[..4 * (i + 1)] == Flat(colours)[..4 * i] + colours[i];
        out := out + colours[i];
      }
      assert Flat(colours)[..4 * |colours|] == Flat(colours);
    }
    var runs := EncodePalRleIndices(packed);
    assert |runs| <= 1024 by { EncodedShort(packed, runs); }
    rle := runs;
    out := out + runs;
  }

  lemma EncodedShort(packed: seq<byte>, rle: seq<byte>)
    requires Encodes(packed, rle)
    ensures |rle| <= 1024
  {
  }

  // -------------------------------------------------------------- round trip

  /** The client reads the runs back as the packed indices. */
  lemma RunsRead(packed: seq<byte>, rle: seq<byte>)
    requires Encodes(packed, rle)
    ensures Expanded(rle) == Some(packed)
  {
    hide Runs;
    ExpandedExpands(rle);
    assert Expands(rle, Some(packed));
    ExpansionUnique(rle, Expanded(rle), Some(packed));
  }

  /** A bundled payload is read as its palette and its indices. */
  lemma BundledRead(counts: Counts, id: byte, colours: seq<Bgra>, packed: seq<byte>, rle: seq<byte>)
    requires ColoursOk(colours) && Encodes(packed, rle)
    ensures Prevalidated(BundledPayload(id, colours, rle), counts)
         == Ok(Checked(id, |colours|, packed, Some(Flat(colours))))
  {
    hide Expanded, Encodes, Flat;
    RunsRead(packed, rle);
    var payload, n := BundledPayload(id, colours, rle), |colours|;
    assert payload[0] == 1 && payload[1] == id && payload[2] == n;
    assert payload[3..3 + 4 * n] == Flat(colours) && payload[3 + 4 * n..] == rle;
  }

  /** One without it is read as its indices, if the client knows the palette, and is refused otherwise. */
  lemma ThinRead(counts: Counts, id: byte, packed: seq<byte>, rle: seq<byte>)
    requires Encodes(packed, rle)
    ensures Prevalidated(ThinPayload(id, rle), counts)
         == if counts[id] == 0 then Err(ThinUncachedPalette) else Ok(Checked(id, counts[id], packed, None))
    ensures Prevalidated(RawPayload(id, packed), counts)
         == if counts[id] == 0 then Err(ThinUncachedPalette) else Ok(Checked(id, counts[id], packed, None))
  {
    hide Expanded, Runs, Px;
    RunsRead(packed, rle);
    var thin, raw := ThinPayload(id, rle), RawPayload(id, packed);
    assert thin[0] == 0 && thin[1] == id && thin[2..] == rle;
    assert raw[0] == 2 && raw[1] == id && raw[2..514] == packed;
  }

  lemma FlatColours(colours: seq<Bgra>)
    requires ColoursOk(colours)
    ensures Colours(Flat(colours)) == colours
  {
    var flat := Flat(colours);
    forall i | 0 <= i < |colours| ensures flat[4 * i..4 * i + 4] == colours[i] {
      assert forall k :: 0 <= k < 4 ==> flat[4 * i + k] == colours[i][k];
    }
  }

  /** The client's tables hold the palette under its number. */
  ghost predicate Knows(counts: Counts, palettes: Palettes, id: byte, colours: seq<Bgra>) {
    && |colours| <= |palettes[id]| && counts[id] == |colours|
    && forall i :: 0 <= i < |colours| ==> palettes[id][i] == colours[i]
  }

  /** Pixel `p` is red, green, blue and opaque, of the colour its index names. */
  ghost predicate ShowsAt(px: seq<byte>, packed: seq<byte>, colours: seq<Bgra>, p: nat)
    requires |px| == 4096 && |packed| == 512 && p < PIXELS && ColoursOk(colours)
  {
    var i := if p % 2 == 0 then packed[p / 2] % 16 else packed[p / 2] / 16;
    i < |colours| ==>
      && px[4 * p] == colours[i][2] && px[4 * p + 1] == colours[i][1]
      && px[4 * p + 2] == colours[i][0] && px[4 * p + 3] == 255
  }

  ghost predicate Shows(px: seq<byte>, packed: seq<byte>, colours: seq<Bgra>)
    requires |packed| == 512 && ColoursOk(colours)
  {
    |px| == 4096 && forall p :: 0 <= p < PIXELS ==> ShowsAt(px, packed, colours, p)
  }

  lemma {:induction false} RenderedAt(palette: Palette, indices: seq<byte>, n: nat, p: nat)
    requires PaletteOk(palette) && p < n <= 2 * |indices|
    ensures var c := palette[Nibble(indices, p)]; var r := Render(palette, indices, n);
            r[4 * p] == c[2] && r[4 * p + 1] == c[1] && r[4 * p + 2] == c[0] && r[4 * p + 3] == 255
  {
    if p < n - 1 { RenderedAt(palette, indices, n - 1, p); }
  }

  /** What is rendered from a palette that starts with the colours shows them. */
  lemma RenderedShows(palette: Palette, packed: seq<byte>, colours: seq<Bgra>)
    requires PaletteOk(palette) && |packed| == 512 && ColoursOk(colours)
    requires forall i :: 0 <= i < |colours| ==> palette[i] == colours[i]
    ensures Shows(Render(palette, packed, PIXELS), packed, colours)
  {
    hide Render;
    forall p | 0 <= p < PIXELS ensures ShowsAt(Render(palette, packed, PIXELS), packed, colours, p) {
      RenderedAt(palette, packed, PIXELS, p);
    }
  }

  /**
   * A tile sent with its palette: the client knows the palette from then on, whatever its
   * tables held, and draws every pixel in the colour the server's index names.
   */
  lemma BundledTileShown(
    counts: Counts, palettes: Palettes, id: byte, colours: seq<Bgra>, packed: seq<byte>, rle: seq<byte>)
    requires PalettesOk(palettes) && ColoursOk(colours) && Encodes(packed, rle)
    ensures var d := DirectStep(counts, palettes, BundledPayload(id, colours, rle));
            && Knows(d.0, d.1, id, colours) && d.2.Ok? && Shows(d.2.value, packed, colours)
  {
    hide Prevalidated, Render, Encodes, Flat, BundledPayload;
    assert |packed| == 512 by { EncodedWhole(packed, rle); }
    BundledRead(counts, id, colours, packed, rle);
    FlatColours(colours);
    RecolouredOk(palettes[id], Flat(colours));
    RenderedShows(Recolour(palettes[id], colours), packed, colours);
  }

  /** A tile sent without it, in either form, is drawn so too once the client knows the palette. */
  lemma ThinTileShown(
    counts: Counts, palettes: Palettes, id: byte, colours: seq<Bgra>, packed: seq<byte>, rle: seq<byte>)
    requires PalettesOk(palettes) && ColoursOk(colours) && Encodes(packed, rle) && Knows(counts, palettes, id, colours)
    ensures |packed| == 512
    ensures forall payload :: payload == ThinPayload(id, rle) || payload == RawPayload(id, packed) ==>
      var d := DirectStep(counts, palettes, payload);
      d.0 == counts && d.1 == palettes && d.2.Ok? && Shows(d.2.value, packed, colours)
  {
    hide Prevalidated, Render, Encodes, ThinPayload, RawPayload;
    EncodedWhole(packed, rle);
    ThinRead(counts, id, packed, rle);
    RenderedShows(palettes[id], packed, colours);
  }

  lemma EncodedWhole(packed: seq<byte>, rle: seq<byte>)
    requires Encodes(packed, rle)
    ensures |packed| == 512
  {
  }
}
