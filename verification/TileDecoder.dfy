/**
 * The pixel decoder: one event at a time, or a whole batch with each CDF 5/3
 * tile reconstructed once.
 *
 * `DecodeOne` is the one-at-a-time decoder as a function. The class is the
 * coalescing one; it is proved to show, at every event that is not about a
 * tile and at every batch end, exactly what the one-at-a-time decoder shows.
 */
module TileDecoder {
  import opened Serial
  import opened Bytes
  import opened BitPlanes
  import opened TileState
  import TileCodec

  type Key = (nat, nat)
  type Bgra = seq<byte>
  type Palette = seq<Bgra>

  datatype Event =
    | Cdf53(frameSeq: nat, tile: Key, pass: Pass, newGeneration: bool)
    | Solid(frameSeq: nat, tile: Key, bgra: Bgra)
    | PalRle(frameSeq: nat, tile: Key, paletteId: byte, indices: seq<byte>)
    | PaletteUpdated(id: byte, colors: seq<Bgra>)
    | FrameDimensions(width: nat, height: nat)
    | Other(tag: nat) // TileReady, NeedsH264, DecodeError, Evicted: passed on

  datatype Pixels =
    | SolidPixels(bgra: Bgra)
    | PalPixels(palette: Palette, indices: seq<byte>)
    | CdfPixels(bgr: seq<byte>)

  datatype Output = Painted(frameSeq: nat, tile: Key, pixels: Pixels) | Forwarded(event: Event)

  /** Tile `(x, y)` lies in the grid of a `width` x `height` frame. */
  predicate InGrid(tile: Key, width: nat, height: nat) {
    tile.0 < (width + 31) / 32 && tile.1 < (height + 31) / 32
  }

  /** The tile of a pixel. */
  function TileAt(x: nat, y: nat): Key { (x / 32, y / 32) }

  /** Some pixel of a `width` x `height` frame lies in the tile. */
  ghost predicate HasPixel(tile: Key, width: nat, height: nat) {
    exists x: nat, y: nat :: x < width && y < height && TileAt(x, y) == tile
  }

  /** The grid has exactly the tiles that hold a pixel of the frame, partial ones at its edges too. */
  lemma GridIsPixels(tile: Key, width: nat, height: nat)
    ensures InGrid(tile, width, height) <==> HasPixel(tile, width, height)
  {
    if InGrid(tile, width, height) {
      assert TileAt(32 * tile.0, 32 * tile.1) == tile;
    }
    if x: nat, y: nat :| x < width && y < height && TileAt(x, y) == tile {
      assert x / 32 < (width + 31) / 32 && y / 32 < (height + 31) / 32;
    }
  }

  function Retain<V>(m: map<Key, V>, width: nat, height: nat): map<Key, V> {
    map t | t in m && InGrid(t, width, height) :: m[t]
  }

  function Lookup<K, V>(m: map<K, V>, k: K): Option<V> { if k in m then Some(m[k]) else None }

  /** Reported colours replace the first slots; later slots keep what they held. */
  function Recolour(palette: Palette, colors: seq<Bgra>): (r: Palette)
    ensures |r| == |palette|
  {
    seq(|palette|, i requires 0 <= i < |palette| => if i < |colors| then colors[i] else palette[i])
  }

  type Palettes = p: seq<Palette> | |p| == 256 witness seq(256, _ => [])

  // ------------------------------------------------------- one at a time

  datatype Decoder = Decoder(tiles: map<Key, Entry>, palettes: Palettes)

  function DecodeOne(d: Decoder, ev: Event): (r: (Decoder, Option<Output>)) {
    match ev
    case Cdf53(frameSeq, tile, pass, newGeneration) =>
      var held := if newGeneration then None else Lookup(d.tiles, tile);
      var (e, changed) := Accumulate(held, pass);
      if !changed then (d.(tiles := d.tiles[tile := e]), None) else
        var (e', picture) := Reconstruct(e);
        (d.(tiles := d.tiles[tile := e']),
         if picture.Some? then Some(Painted(frameSeq, tile, CdfPixels(picture.value))) else None)
    case Solid(frameSeq, tile, bgra) => (d, Some(Painted(frameSeq, tile, SolidPixels(bgra))))
    case PalRle(frameSeq, tile, id, indices) =>
      (d, Some(Painted(frameSeq, tile, PalPixels(d.palettes[id], indices))))
    case PaletteUpdated(id, colors) =>
      (d.(palettes := d.palettes[id := Recolour(d.palettes[id], colors)]), None)
    case FrameDimensions(width, height) => (d.(tiles := Retain(d.tiles, width, height)), Some(Forwarded(ev)))
    case Other(_) => (d, Some(Forwarded(ev)))
  }

  // -------------------------------------------------------- what is seen

  type Screen = map<Key, (nat, Pixels)>

  /**
   * What a consumer sees: the last picture of every tile, and the screen as it
   * was when each event that is not about a tile was handed on.
   */
  datatype View = View(screen: Screen, marks: seq<(Screen, Event)>)

  function Show(v: View, o: Output): View {
    match o
    case Painted(frameSeq, tile, pixels) => v.(screen := v.screen[tile := (frameSeq, pixels)])
    case Forwarded(ev) => v.(marks := v.marks + [(v.screen, ev)])
  }

  function ShowAll(v: View, outs: seq<Output>): View {
    if outs == [] then v else Show(ShowAll(v, outs[..|outs| - 1]), outs[|outs| - 1])
  }

  /** The one-at-a-time decoder together with what it has shown. */
  datatype Simple = Simple(d: Decoder, v: View)

  function Step(s: Simple, ev: Event): Simple {
    var (d, o) := DecodeOne(s.d, ev);
    Simple(d, if o.Some? then Show(s.v, o.value) else s.v)
  }

  function Run(s: Simple, events: seq<Event>): Simple {
    if events == [] then s else Step(Run(s, events[..|events| - 1]), events[|events| - 1])
  }

  lemma RunNone(s: Simple)
    ensures Run(s, []) == s
  {
  }

  lemma RunOne(s: Simple, ev: Event)
    ensures Run(s, [ev]) == Step(s, ev)
  {
    hide Step;
    assert [ev][..0] == [];
  }

  /** The events that are not about a tile or a palette, each with the screen as the events before it left it. */
  function HandedOn(s: Simple, events: seq<Event>): seq<(Screen, Event)> {
    if events == [] then [] else
      var front, ev := events[..|events| - 1], events[|events| - 1];
      HandedOn(s, front) + if ev.FrameDimensions? || ev.Other? then [(Run(s, front).v.screen, ev)] else []
  }

  /** Every one of them is handed on, once, in order, and after all that came before it was shown. */
  lemma {:induction false} MarksAreHandedOn(s: Simple, events: seq<Event>)
    ensures Run(s, events).v.marks == s.v.marks + HandedOn(s, events)
  {
    hide Accumulate, Reconstruct, Recolour, Retain;
    if events == [] {
    } else {
      MarksAreHandedOn(s, events[..|events| - 1]);
    }
  }

  // ------------------------------------------------- the stream of one core

  /** Label and generation of the content a tile currently accumulates. */
  type Labels = map<Key, (nat, nat)>

  /** What the server sends of each (tile, label, generation). */
  type Oracle = (Key, nat, nat) -> Content

  function NextLabels(labels: Labels, ev: Event): Labels {
    match ev
    case Cdf53(frameSeq, tile, pass, _) => labels[tile := (frameSeq, pass.generation)]
    case FrameDimensions(width, height) => Retain(labels, width, height)
    case _ => labels
  }

  /** A pass of the content its label names, and of the label the tile holds unless it opens a generation. */
  ghost predicate EventOk(content: Oracle, labels: Labels, ev: Event) {
    ev.Cdf53? ==>
      var c := content(ev.tile, ev.frameSeq, ev.pass.generation);
      && HonestPass(ev.pass, c) && c.Steady()
      && (ev.newGeneration || Lookup(labels, ev.tile) == Some((ev.frameSeq, ev.pass.generation)))
  }

  function LabelsAfter(labels: Labels, events: seq<Event>): Labels {
    if events == [] then labels else NextLabels(LabelsAfter(labels, events[..|events| - 1]), events[|events| - 1])
  }

  ghost predicate StreamOk(content: Oracle, labels: Labels, events: seq<Event>) {
    events != [] ==>
      var n := |events| - 1;
      StreamOk(content, labels, events[..n]) && EventOk(content, LabelsAfter(labels, events[..n]), events[n])
  }

  // --------------------------------------------------- the simulation relation

  /** A tile waiting for its one reconstruction in a batch. */
  datatype Pending = Pending(frameSeq: nat, generation: nat)

  /**
   * One tile in the coalescing decoder (`e`, `waiting`, `shown`) against the
   * one-at-a-time decoder (`s`, `shown1`). They hold the same planes. A tile
   * that is not waiting shows the same; one that is has its picture outstanding,
   * and that picture is the one already shown by the other decoder.
   */
  ghost predicate TileMatches(
    c: Content, at: (nat, nat), e: Entry, waiting: Option<Pending>, s: Entry,
    shown: Option<(nat, Pixels)>, shown1: Option<(nat, Pixels)>)
  {
    && Coherent(e, c) && c.Steady() && e.generation == at.1
    && s == e.(drawn := DrawnOnce(e))
    && (e.drawn.Some? ==> e.drawn.value <= PrefixOf(e) && Visible(e))
    && match waiting
       case None => e.drawn == DrawnOnce(e) && shown == shown1
       case Some(w) =>
         && w == Pending(at.0, at.1) && e.drawn != Some(PrefixOf(e))
         && shown1 == if Visible(e) then Some((at.0, CdfPixels(Picture(e)))) else shown
  }

  /** What an entry draws is what it holds, not what it has drawn. */
  lemma DrawnIsFree(e: Entry, drawn: Option<nat>)
    ensures var f := e.(drawn := drawn);
            && PrefixOf(f) == PrefixOf(e) && PrefixPlanes(f) == PrefixPlanes(e)
            && (Visible(f) <==> Visible(e)) && Picture(f) == Picture(e) && DrawnOnce(f) == DrawnOnce(e)
            && forall c :: Coherent(f, c) <==> Coherent(e, c)
  {
    hide DecodePlanes, AllZero;
    assert PrefixPlanes(e.(drawn := drawn)) == PrefixPlanes(e);
  }

  /** Reconstructing a waiting tile brings both decoders to the same picture. */
  lemma FlushMatches(
    c: Content, at: (nat, nat), e: Entry, w: Pending, s: Entry,
    shown: Option<(nat, Pixels)>, shown1: Option<(nat, Pixels)>)
    requires TileMatches(c, at, e, Some(w), s, shown, shown1)
    ensures var (e', picture) := Reconstruct(e);
            TileMatches(c, at, e', None, s,
                        if picture.Some? then Some((w.frameSeq, CdfPixels(picture.value))) else shown, shown1)
  {
    hide Visible, Picture, Coherent, Reconstruct, Content.Steady;
    ReconstructIs(e);
    DrawnIsFree(e, Some(PrefixOf(e)));
  }

  /** The entry the one-at-a-time decoder keeps after a pass, and the picture it shows, if any. */
  function SimpleAfter(held: Option<Entry>, p: Pass): (Entry, Option<seq<byte>>) {
    var (e, changed) := Accumulate(held, p);
    if changed then Reconstruct(e) else (e, None)
  }

  /**
   * What the one-at-a-time decoder does with a pass, in terms of what it then
   * holds: it shows the new prefix exactly when that is visible and was not drawn.
   */
  lemma SimplePass(held: Option<Entry>, p: Pass, c: Content)
    requires HonestPass(p, c)
    requires held.Some? ==> && held.value.generation == p.generation && Coherent(held.value, c)
                            && held.value.drawn == DrawnOnce(held.value)
    ensures var e := Accumulate(held, p).0;
            SimpleAfter(held, p) ==
              (e.(drawn := DrawnOnce(e)),
               if Visible(e) && !(held.Some? && DrawnOnce(held.value) == Some(PrefixOf(e)))
               then Some(Picture(e)) else None)
  {
    AccumulateKeepsCoherent(held, p, c);
    var e := Accumulate(held, p).0;
    hide Visible, Picture, Coherent, Reconstruct, HonestPass;
    ReconstructIs(e);
    if held.Some? {
      DrawnIsFree(held.value, None);
      if Visible(held.value) { VisibleGrows(held.value, e); }
    }
  }

  /**
   * The pass that completes a server-encoded tile, whatever order the passes
   * came in and however often, shows exactly that tile's colour bytes.
   */
  lemma CompletingPassShowsTheTile(held: Option<Entry>, p: Pass, picture: TileCodec.Tile)
    requires HonestPass(p, ServerContent(picture))
    requires held.Some? ==>
      && held.value.generation == p.generation && Coherent(held.value, ServerContent(picture))
      && held.value.drawn == DrawnOnce(held.value) && PrefixOf(held.value) < PASS_COUNT
    requires PrefixOf(Accumulate(held, p).0) == PASS_COUNT
    ensures SimpleAfter(held, p).1 == Some(TileCodec.Bgr(picture))
  {
    var c := ServerContent(picture);
    hide ServerContent, Accumulate, Coherent, HonestPass, SimpleAfter, Picture;
    SimplePass(held, p, c);
    AccumulateKeepsCoherent(held, p, c);
    FullPrefixShowsTheTile(picture, Accumulate(held, p).0);
  }

  /** Accumulating does not look at what has been drawn. */
  lemma AccumulateIgnoresDrawn(e: Entry, drawn: Option<nat>, p: Pass)
    requires e.generation == p.generation
    ensures Accumulate(Some(e.(drawn := drawn)), p).0 == Accumulate(Some(e), p).0.(drawn := drawn)
  {
  }

  /** The first pass of a generation puts the two decoders in step. */
  lemma FirstPassMatches(c: Content, at: (nat, nat), shown: Option<(nat, Pixels)>, p: Pass)
    requires HonestPass(p, c) && c.Steady() && p.generation == at.1
    ensures var (e, changed) := Accumulate(None, p);
            var (s, picture) := SimpleAfter(None, p);
            && changed
            && TileMatches(c, at, e, Some(Pending(at.0, at.1)), s,
                           shown, if picture.Some? then Some((at.0, CdfPixels(picture.value))) else shown)
  {
    hide Visible, Picture, Coherent, HonestPass, Content.Steady;
    AccumulateKeepsCoherent(None, p, c);
    SimplePass(None, p, c);
  }

  /** A further pass keeps the two decoders in step, whether or not the tile was already waiting. */
  lemma PassMatches(
    c: Content, at: (nat, nat), held: Entry, waiting: Option<Pending>, held1: Entry,
    shown: Option<(nat, Pixels)>, shown1: Option<(nat, Pixels)>, p: Pass)
    requires HonestPass(p, c) && p.generation == at.1
    requires TileMatches(c, at, held, waiting, held1, shown, shown1)
    ensures var (e, changed) := Accumulate(Some(held), p);
            var (s, picture) := SimpleAfter(Some(held1), p);
            TileMatches(c, at, e, if changed then Some(Pending(at.0, at.1)) else waiting, s,
                        shown, if picture.Some? then Some((at.0, CdfPixels(picture.value))) else shown1)
  {
    var (e, changed) := Accumulate(Some(held), p);
    assert changed <==> e.drawn != Some(PrefixOf(e));
    hide Visible, Picture, Coherent, HonestPass, Content.Steady, Accumulate, SimpleAfter, PrefixOf, Extends;
    AccumulateKeepsCoherent(Some(held), p, c);
    assert PrefixOf(held) <= PrefixOf(e) by { ExtendsPrefix(held, e); }
    FurtherSimplePass(held, held1, p, c);
    if Visible(held) {
      VisibleGrows(held, e);
      if PrefixOf(held) == PrefixOf(e) { SteadyPicture(held, e, c); }
    }
  }

  lemma ExtendsPrefix(e: Entry, f: Entry)
    requires Extends(e, f)
    ensures PrefixOf(e) <= PrefixOf(f)
  {
  }

  /** A further pass in the one-at-a-time decoder, told by what the other decoder holds. */
  lemma FurtherSimplePass(held: Entry, held1: Entry, p: Pass, c: Content)
    requires HonestPass(p, c) && held.generation == p.generation && Coherent(held, c)
    requires held1 == held.(drawn := DrawnOnce(held))
    ensures var e := Accumulate(Some(held), p).0;
            SimpleAfter(Some(held1), p) ==
              (e.(drawn := DrawnOnce(e)),
               if Visible(e) && DrawnOnce(held) != Some(PrefixOf(e)) then Some(Picture(e)) else None)
  {
    hide Visible, Picture, Coherent, HonestPass, Accumulate, SimpleAfter, PrefixOf;
    AccumulateIgnoresDrawn(held, held1.drawn, p);
    DrawnIsFree(held, held1.drawn);
    DrawnIsFree(Accumulate(Some(held), p).0, held1.drawn);
    SimplePass(Some(held1), p, c);
  }

  /** The coalescing decoder (`tiles`, `pending`, `palettes`, `v`) beside the one-at-a-time one. */
  datatype Both = Both(
    labels: Labels, tiles: map<Key, Entry>, pending: map<Key, Pending>, palettes: Palettes, v: View, s: Simple)

  ghost predicate MatchesAt(content: Oracle, b: Both, t: Key)
    requires t in b.labels && t in b.tiles && t in b.s.d.tiles
  {
    var at := b.labels[t];
    TileMatches(content(t, at.0, at.1), at, b.tiles[t], Lookup(b.pending, t),
                b.s.d.tiles[t], Lookup(b.v.screen, t), Lookup(b.s.v.screen, t))
  }

  ghost predicate Matches(content: Oracle, b: Both) {
    && b.labels.Keys == b.tiles.Keys == b.s.d.tiles.Keys && b.pending.Keys <= b.tiles.Keys
    && b.palettes == b.s.d.palettes && b.v.marks == b.s.v.marks
    && (forall t :: t in b.tiles ==> MatchesAt(content, b, t))
    && (forall t :: t !in b.tiles ==> Lookup(b.v.screen, t) == Lookup(b.s.v.screen, t))
  }

  /** The two states differ at tile `t` at most. */
  ghost predicate SameElsewhere(a: Both, b: Both, t: Key) {
    && a.palettes == b.palettes && a.s.d.palettes == b.s.d.palettes
    && a.v.marks == b.v.marks && a.s.v.marks == b.s.v.marks
    && (forall k :: k != t ==> Lookup(a.labels, k) == Lookup(b.labels, k))
    && (forall k :: k != t ==> Lookup(a.tiles, k) == Lookup(b.tiles, k))
    && (forall k :: k != t ==> Lookup(a.pending, k) == Lookup(b.pending, k))
    && (forall k :: k != t ==> Lookup(a.s.d.tiles, k) == Lookup(b.s.d.tiles, k))
    && (forall k :: k != t ==> Lookup(a.v.screen, k) == Lookup(b.v.screen, k))
    && (forall k :: k != t ==> Lookup(a.s.v.screen, k) == Lookup(b.s.v.screen, k))
  }

  lemma OneTileChanged(content: Oracle, a: Both, b: Both, t: Key)
    requires Matches(content, a) && SameElsewhere(a, b, t)
    requires if t in b.tiles then t in b.labels && t in b.s.d.tiles && MatchesAt(content, b, t)
             else && t !in b.labels && t !in b.s.d.tiles && t !in b.pending
                  && Lookup(b.v.screen, t) == Lookup(b.s.v.screen, t)
    ensures Matches(content, b)
  {
    hide TileMatches;
    forall k: Key
      ensures k in b.labels <==> k in b.tiles
      ensures k in b.labels <==> k in b.s.d.tiles
      ensures k in b.pending ==> k in b.tiles
      ensures k in b.tiles ==> k in b.labels && k in b.s.d.tiles && MatchesAt(content, b, k)
      ensures k !in b.tiles ==> Lookup(b.v.screen, k) == Lookup(b.s.v.screen, k)
    {
      if k != t {
        assert Lookup(a.labels, k) == Lookup(b.labels, k) && Lookup(a.tiles, k) == Lookup(b.tiles, k);
        assert Lookup(a.s.d.tiles, k) == Lookup(b.s.d.tiles, k) && Lookup(a.pending, k) == Lookup(b.pending, k);
        if k in a.tiles { assert MatchesAt(content, a, k); }
      }
    }
    assert b.labels.Keys == b.tiles.Keys == b.s.d.tiles.Keys;
  }

  lemma MatchesKeys(content: Oracle, b: Both)
    requires Matches(content, b)
    ensures b.labels.Keys == b.tiles.Keys == b.s.d.tiles.Keys && b.palettes == b.s.d.palettes
    ensures b.pending.Keys <= b.tiles.Keys
    ensures forall t :: t in b.tiles ==> MatchesAt(content, b, t)
  {
  }

  /** A tile that is not waiting shows the same in both, and may show anything else instead. */
  lemma NotWaiting(
    c: Content, at: (nat, nat), e: Entry, s: Entry,
    shown: Option<(nat, Pixels)>, shown1: Option<(nat, Pixels)>, other: Option<(nat, Pixels)>)
    requires TileMatches(c, at, e, None, s, shown, shown1)
    ensures e == s && shown == shown1 && TileMatches(c, at, e, None, s, other, other)
  {
  }

  /** With nothing waiting, the decoders agree on everything. */
  lemma SettledAgrees(content: Oracle, b: Both)
    requires Matches(content, b) && b.pending == map[]
    ensures Decoder(b.tiles, b.palettes) == b.s.d && b.v == b.s.v
  {
    hide TileMatches;
    forall t: Key
      ensures Lookup(b.v.screen, t) == Lookup(b.s.v.screen, t)
      ensures t in b.tiles ==> b.tiles[t] == b.s.d.tiles[t]
    {
      if t in b.tiles {
        assert MatchesAt(content, b, t);
        NotWaiting(content(t, b.labels[t].0, b.labels[t].1), b.labels[t], b.tiles[t], b.s.d.tiles[t],
                   Lookup(b.v.screen, t), Lookup(b.s.v.screen, t), None);
      }
    }
    assert forall t: Key :: t in b.v.screen <==> Lookup(b.v.screen, t).Some?;
    assert forall t: Key :: t in b.s.v.screen <==> Lookup(b.s.v.screen, t).Some?;
    assert b.v.screen == b.s.v.screen;
    assert b.tiles == b.s.d.tiles;
  }

  /** The state after reconstructing waiting tile `t`. */
  function Flushed(b: Both, t: Key): Both
    requires t in b.pending && t in b.tiles
  {
    var (e, picture) := Reconstruct(b.tiles[t]);
    b.(tiles := b.tiles[t := e], pending := b.pending - {t},
       v := if picture.Some? then Show(b.v, Painted(b.pending[t].frameSeq, t, CdfPixels(picture.value))) else b.v)
  }

  lemma MatchesAfterFlush(content: Oracle, b: Both, t: Key)
    requires Matches(content, b) && t in b.pending
    ensures Matches(content, Flushed(b, t))
  {
    hide TileMatches, Reconstruct, Matches, Flushed;
    MatchesKeys(content, b);
    FlushMatches(content(t, b.labels[t].0, b.labels[t].1), b.labels[t], b.tiles[t], b.pending[t],
                 b.s.d.tiles[t], Lookup(b.v.screen, t), Lookup(b.s.v.screen, t));
    FlushedElsewhere(b, t);
    OneTileChanged(content, b, Flushed(b, t), t);
  }

  /** What a flush changes. */
  lemma FlushedElsewhere(b: Both, t: Key)
    requires t in b.pending && t in b.tiles
    ensures var b' := Flushed(b, t);
            var (e, picture) := Reconstruct(b.tiles[t]);
            && SameElsewhere(b, b', t) && b'.labels == b.labels && b'.s == b.s
            && Lookup(b'.tiles, t) == Some(e) && Lookup(b'.pending, t) == None
            && Lookup(b'.v.screen, t)
               == if picture.Some? then Some((b.pending[t].frameSeq, CdfPixels(picture.value)))
                  else Lookup(b.v.screen, t)
  {
    hide Reconstruct;
  }

  /** The state after accumulating a pass without reconstructing. */
  function Accumulated(b: Both, ev: Event): Both
    requires ev.Cdf53?
  {
    var (e, changed) := Accumulate(if ev.newGeneration then None else Lookup(b.tiles, ev.tile), ev.pass);
    b.(labels := NextLabels(b.labels, ev), tiles := b.tiles[ev.tile := e],
       pending := if changed then b.pending[ev.tile := Pending(ev.frameSeq, ev.pass.generation)] else b.pending,
       s := Step(b.s, ev))
  }

  lemma AccumulatedElsewhere(b: Both, ev: Event)
    requires ev.Cdf53?
    ensures SameElsewhere(b, Accumulated(b, ev), ev.tile)
  {
    hide Accumulate, Reconstruct;
  }

  lemma PassMatchesAt(content: Oracle, b: Both, ev: Event)
    requires Matches(content, b) && ev.Cdf53? && EventOk(content, b.labels, ev)
    requires ev.newGeneration ==> ev.tile !in b.pending
    ensures MatchesAt(content, Accumulated(b, ev), ev.tile)
  {
    hide TileMatches, Accumulate, Reconstruct, HonestPass;
    var t, at := ev.tile, (ev.frameSeq, ev.pass.generation);
    var c := content(t, at.0, at.1);
    var shown, shown1 := Lookup(b.v.screen, t), Lookup(b.s.v.screen, t);
    if t in b.tiles { assert MatchesAt(content, b, t); }
    if ev.newGeneration {
      if t in b.tiles {
        NotWaiting(content(t, b.labels[t].0, b.labels[t].1), b.labels[t], b.tiles[t], b.s.d.tiles[t], shown, shown1,
          None);
      }
      FirstPassMatches(c, at, shown, ev.pass);
    } else {
      PassMatches(c, at, b.tiles[t], Lookup(b.pending, t), b.s.d.tiles[t], shown, shown1, ev.pass);
    }
  }

  lemma MatchesAfterPass(content: Oracle, b: Both, ev: Event)
    requires Matches(content, b) && ev.Cdf53? && EventOk(content, b.labels, ev)
    requires ev.newGeneration ==> ev.tile !in b.pending
    ensures Matches(content, Accumulated(b, ev))
  {
    hide TileMatches, Accumulate, Reconstruct, SameElsewhere, Matches, MatchesAt;
    AccumulatedElsewhere(b, ev);
    PassMatchesAt(content, b, ev);
    OneTileChanged(content, b, Accumulated(b, ev), ev.tile);
  }

  /** A Solid or PalRle tile whose key is not waiting is painted alike by both decoders. */
  lemma MatchesAfterPaint(content: Oracle, b: Both, ev: Event, pixels: Pixels)
    requires Matches(content, b)
    requires (ev.Solid? && pixels == SolidPixels(ev.bgra))
          || (ev.PalRle? && pixels == PalPixels(b.palettes[ev.paletteId], ev.indices))
    requires ev.tile !in b.pending
    ensures Matches(content, b.(labels := NextLabels(b.labels, ev),
                                v := Show(b.v, Painted(ev.frameSeq, ev.tile, pixels)), s := Step(b.s, ev)))
  {
    hide TileMatches, Show, Step, Matches;
    var t := ev.tile;
    var b' := b.(labels := NextLabels(b.labels, ev), v := Show(b.v, Painted(ev.frameSeq, t, pixels)),
                 s := Step(b.s, ev));
    MatchesKeys(content, b);
    PaintElsewhere(b, ev, pixels);
    if t in b.tiles {
      NotWaiting(content(t, b.labels[t].0, b.labels[t].1), b.labels[t], b.tiles[t], b.s.d.tiles[t],
                 Lookup(b.v.screen, t), Lookup(b.s.v.screen, t), Some((ev.frameSeq, pixels)));
    }
    OneTileChanged(content, b, b', t);
  }

  /** Painting shows one tile alike in both and leaves everything else. */
  lemma PaintElsewhere(b: Both, ev: Event, pixels: Pixels)
    requires b.palettes == b.s.d.palettes
    requires (ev.Solid? && pixels == SolidPixels(ev.bgra))
          || (ev.PalRle? && pixels == PalPixels(b.palettes[ev.paletteId], ev.indices))
    ensures var b' := b.(labels := NextLabels(b.labels, ev), v := Show(b.v, Painted(ev.frameSeq, ev.tile, pixels)),
                         s := Step(b.s, ev));
            && SameElsewhere(b, b', ev.tile) && b'.labels == b.labels && b'.s.d == b.s.d
            && Lookup(b'.v.screen, ev.tile) == Lookup(b'.s.v.screen, ev.tile) == Some((ev.frameSeq, pixels))
  {
  }

  /** A palette update changes no tile. */
  lemma MatchesAfterPalette(content: Oracle, b: Both, ev: Event)
    requires Matches(content, b) && ev.PaletteUpdated?
    ensures Matches(content, b.(labels := NextLabels(b.labels, ev),
                                palettes := b.palettes[ev.id := Recolour(b.palettes[ev.id], ev.colors)],
                                s := Step(b.s, ev)))
  {
    hide TileMatches;
    var b' := b.(labels := NextLabels(b.labels, ev),
                 palettes := b.palettes[ev.id := Recolour(b.palettes[ev.id], ev.colors)], s := Step(b.s, ev));
    assert forall k :: k in b.tiles ==> MatchesAt(content, b, k) && MatchesAt(content, b', k);
  }

  /** An event that is not about a tile is handed on over the same screen. */
  lemma MatchesAfterForward(content: Oracle, b: Both, ev: Event)
    requires Matches(content, b) && b.pending == map[] && (ev.FrameDimensions? || ev.Other?)
    ensures Matches(content, b.(labels := NextLabels(b.labels, ev),
                                tiles := if ev.FrameDimensions? then Retain(b.tiles, ev.width, ev.height) else b.tiles,
                                v := Show(b.v, Forwarded(ev)), s := Step(b.s, ev)))
  {
    hide TileMatches;
    SettledAgrees(content, b);
    var b' := b.(labels := NextLabels(b.labels, ev),
                 tiles := if ev.FrameDimensions? then Retain(b.tiles, ev.width, ev.height) else b.tiles,
                 v := Show(b.v, Forwarded(ev)), s := Step(b.s, ev));
    assert forall k :: k in b'.tiles ==> MatchesAt(content, b, k) && MatchesAt(content, b', k);
  }

  /** From a settled state, the one-at-a-time step itself keeps the two in step. */
  lemma SettledStep(content: Oracle, b: Both, ev: Event)
    requires Matches(content, b) && b.pending == map[] && EventOk(content, b.labels, ev)
    ensures var s := Step(b.s, ev);
            Matches(content, Both(NextLabels(b.labels, ev), s.d.tiles, map[], s.d.palettes, s.v, s))
  {
    hide Matches, TileMatches, Accumulate, Reconstruct, EventOk;
    SettledAgrees(content, b);
    match ev {
      case Cdf53(_, t, _, _) =>
        var b1 := Accumulated(b, ev);
        MatchesAfterPass(content, b, ev);
        if t in b1.pending {
          MatchesAfterFlush(content, b1, t);
          SettledAgrees(content, Flushed(b1, t));
        } else {
          SettledAgrees(content, b1);
        }
      case Solid(_, _, bgra) => MatchesAfterPaint(content, b, ev, SolidPixels(bgra));
      case PalRle(_, _, id, indices) => MatchesAfterPaint(content, b, ev, PalPixels(b.palettes[id], indices));
      case PaletteUpdated(_, _) => MatchesAfterPalette(content, b, ev);
      case FrameDimensions(_, _) => MatchesAfterForward(content, b, ev);
      case Other(_) => MatchesAfterForward(content, b, ev);
    }
  }

  const EMPTY_VIEW := View(map[], [])

  ghost function Start(palettes: Palettes): Simple { Simple(Decoder(map[], palettes), EMPTY_VIEW) }

  /** One more event, one more step. */
  lemma RunExtends(s: Simple, labels: Labels, seen: seq<Event>, ev: Event)
    ensures Run(s, seen + [ev]) == Step(Run(s, seen), ev)
    ensures LabelsAfter(labels, seen + [ev]) == NextLabels(LabelsAfter(labels, seen), ev)
  {
    assert (seen + [ev])[..|seen|] == seen;
  }

  lemma ShowExtends(outs: seq<Output>, o: Output)
    ensures ShowAll(EMPTY_VIEW, outs + [o]) == Show(ShowAll(EMPTY_VIEW, outs), o)
  {
    assert (outs + [o])[..|outs|] == outs;
  }

  /** A good stream can be cut anywhere. */
  lemma {:induction false} StreamSplits(content: Oracle, labels: Labels, a: seq<Event>, b: seq<Event>)
    requires StreamOk(content, labels, a + b)
    ensures StreamOk(content, labels, a) && StreamOk(content, LabelsAfter(labels, a), b)
    ensures LabelsAfter(labels, a + b) == LabelsAfter(LabelsAfter(labels, a), b)
    decreases |b|
  {
    if b == [] {
      assert a + b == a;
    } else {
      var m := |b| - 1;
      assert (a + b)[..|a + b| - 1] == a + b[..m];
      StreamSplits(content, labels, a, b[..m]);
    }
  }

  function Flatten(batches: seq<seq<Event>>): seq<Event> {
    if batches == [] then [] else Flatten(batches[..|batches| - 1]) + batches[|batches| - 1]
  }

  // ------------------------------------------------ the coalescing decoder

  /** The coalescing decoder's state; `emitted` is everything handed to the consumer. */
  datatype Batch = Batch(
    tiles: map<Key, Entry>, palettes: Palettes, pending: map<Key, Pending>, order: seq<Key>, emitted: seq<Output>)

  /** Every pending tile is in the order list; the list may also name one flushed since, or one twice. */
  ghost predicate OrderOk(b: Batch) { forall t :: t in b.pending ==> t in b.order }

  function FlushTileOf(b: Batch, t: Key): Batch {
    if t !in b.pending then b else
      var rest := b.(pending := b.pending - {t});
      if t !in b.tiles then rest else
        var (e, picture) := Reconstruct(b.tiles[t]);
        rest.(tiles := b.tiles[t := e],
              emitted := if picture.Some? then b.emitted + [Painted(b.pending[t].frameSeq, t, CdfPixels(picture.value))]
                         else b.emitted)
  }

  function FlushEach(b: Batch, order: seq<Key>): Batch
    decreases |order|
  {
    if order == [] then b else FlushEach(FlushTileOf(b, order[0]), order[1..])
  }

  function FlushAllOf(b: Batch): Batch { FlushEach(b, b.order).(order := []) }

  /** One event inside a batch. */
  function Coalesced(b: Batch, ev: Event): Batch {
    match ev
    case Cdf53(frameSeq, t, pass, newGeneration) =>
      var switch := t in b.pending && (newGeneration || b.pending[t].generation != pass.generation);
      var c := if switch then FlushTileOf(b, t) else b;
      var (e, changed) := Accumulate(if newGeneration then None else Lookup(c.tiles, t), pass);
      var stored := c.(tiles := c.tiles[t := e]);
      if !changed then stored else
        stored.(pending := c.pending[t := Pending(frameSeq, pass.generation)],
                order := if t in c.pending then c.order else c.order + [t])
    case Solid(frameSeq, t, bgra) =>
      var c := FlushTileOf(b, t);
      c.(emitted := c.emitted + [Painted(frameSeq, t, SolidPixels(bgra))])
    case PalRle(frameSeq, t, id, indices) =>
      var c := FlushTileOf(b, t);
      c.(emitted := c.emitted + [Painted(frameSeq, t, PalPixels(c.palettes[id], indices))])
    case PaletteUpdated(id, colors) => b.(palettes := b.palettes[id := Recolour(b.palettes[id], colors)])
    case FrameDimensions(width, height) =>
      var c := FlushAllOf(b);
      c.(tiles := Retain(c.tiles, width, height), emitted := c.emitted + [Forwarded(ev)])
    case Other(_) =>
      var c := FlushAllOf(b);
      c.(emitted := c.emitted + [Forwarded(ev)])
  }

  function CoalescedAll(b: Batch, events: seq<Event>): Batch {
    if events == [] then b else Coalesced(CoalescedAll(b, events[..|events| - 1]), events[|events| - 1])
  }

  /** A whole batch: every event, then whatever is still pending. */
  function BatchOf(b: Batch, events: seq<Event>): Batch { FlushAllOf(CoalescedAll(b, events)) }

  function BatchesOf(b: Batch, batches: seq<seq<Event>>): Batch {
    if batches == [] then b else BatchOf(BatchesOf(b, batches[..|batches| - 1]), batches[|batches| - 1])
  }

  // ---------------------------------------------- the simulation, on values

  ghost function BothOf(labels: Labels, b: Batch, s: Simple): Both {
    Both(labels, b.tiles, b.pending, b.palettes, ShowAll(EMPTY_VIEW, b.emitted), s)
  }

  /** The batch decoder is the one-at-a-time decoder `s`, up to the pictures it owes. */
  ghost predicate InStepWith(content: Oracle, labels: Labels, b: Batch, s: Simple) {
    Matches(content, BothOf(labels, b, s)) && OrderOk(b)
  }

  lemma FlushTileKeeps(content: Oracle, labels: Labels, b: Batch, s: Simple, t: Key)
    requires Matches(content, BothOf(labels, b, s))
    ensures Matches(content, BothOf(labels, FlushTileOf(b, t), s))
  {
    if t in b.pending {
      assert t in b.tiles;
      hide Matches, Reconstruct, ShowAll;
      MatchesAfterFlush(content, BothOf(labels, b, s), t);
      var (e, picture) := Reconstruct(b.tiles[t]);
      if picture.Some? { ShowExtends(b.emitted, Painted(b.pending[t].frameSeq, t, CdfPixels(picture.value))); }
      assert BothOf(labels, FlushTileOf(b, t), s) == Flushed(BothOf(labels, b, s), t);
    }
  }

  lemma {:induction false} FlushEachKeeps(content: Oracle, labels: Labels, b: Batch, s: Simple, order: seq<Key>)
    requires Matches(content, BothOf(labels, b, s))
    ensures Matches(content, BothOf(labels, FlushEach(b, order), s))
    decreases |order|
  {
    hide Matches, FlushTileOf;
    if order == [] {
    } else {
      FlushTileKeeps(content, labels, b, s, order[0]);
      FlushEachKeeps(content, labels, FlushTileOf(b, order[0]), s, order[1..]);
    }
  }

  lemma {:induction false} FlushEachEmpties(b: Batch, order: seq<Key>)
    ensures forall t :: t in FlushEach(b, order).pending <==> t in b.pending && t !in order
    ensures FlushEach(b, order).order == b.order && FlushEach(b, order).palettes == b.palettes
    decreases |order|
  {
    hide Reconstruct;
    if order == [] {
    } else {
      FlushEachEmpties(FlushTileOf(b, order[0]), order[1..]);
    }
  }

  lemma FlushAllKeeps(content: Oracle, labels: Labels, b: Batch, s: Simple)
    requires InStepWith(content, labels, b, s)
    ensures InStepWith(content, labels, FlushAllOf(b), s) && FlushAllOf(b).pending == map[]
  {
    hide Matches, FlushEach;
    FlushEachKeeps(content, labels, b, s, b.order);
    FlushEachEmpties(b, b.order);
    assert BothOf(labels, FlushAllOf(b), s) == BothOf(labels, FlushEach(b, b.order), s);
  }

  lemma OrderStaysOk(b: Batch, ev: Event)
    requires OrderOk(b)
    ensures OrderOk(Coalesced(b, ev)) && OrderOk(FlushAllOf(b)) && FlushAllOf(b).pending == map[]
  {
    hide Reconstruct, Accumulate, FlushEach, Retain;
    FlushEachEmpties(b, b.order);
  }

  lemma CoalescedPass(content: Oracle, labels: Labels, b: Batch, s: Simple, ev: Event)
    requires InStepWith(content, labels, b, s) && ev.Cdf53? && EventOk(content, labels, ev)
    ensures InStepWith(content, NextLabels(labels, ev), Coalesced(b, ev), Step(s, ev))
  {
    OrderStaysOk(b, ev);
    hide Matches, EventOk, Accumulate, Step, OrderOk, ShowAll;
    var t := ev.tile;
    var switch := t in b.pending && (ev.newGeneration || b.pending[t].generation != ev.pass.generation);
    var c := if switch then FlushTileOf(b, t) else b;
    if switch { FlushTileKeeps(content, labels, b, s, t); }
    hide FlushTileOf;
    assert ev.newGeneration ==> t !in c.pending by { FlushedIsNotPending(b, t); }
    MatchesAfterPass(content, BothOf(labels, c, s), ev);
    assert BothOf(NextLabels(labels, ev), Coalesced(b, ev), Step(s, ev)) == Accumulated(BothOf(labels, c, s), ev);
  }

  lemma FlushedIsNotPending(b: Batch, t: Key)
    ensures t !in FlushTileOf(b, t).pending && FlushTileOf(b, t).palettes == b.palettes
  {
    hide Reconstruct;
  }

  lemma CoalescedPaint(content: Oracle, labels: Labels, b: Batch, s: Simple, ev: Event)
    requires InStepWith(content, labels, b, s) && (ev.Solid? || ev.PalRle?)
    ensures InStepWith(content, NextLabels(labels, ev), Coalesced(b, ev), Step(s, ev))
  {
    OrderStaysOk(b, ev);
    hide Matches, Step, OrderOk, ShowAll, FlushTileOf;
    var c := FlushTileOf(b, ev.tile);
    var pixels := if ev.Solid? then SolidPixels(ev.bgra) else PalPixels(b.palettes[ev.paletteId], ev.indices);
    FlushTileKeeps(content, labels, b, s, ev.tile);
    FlushedIsNotPending(b, ev.tile);
    MatchesAfterPaint(content, BothOf(labels, c, s), ev, pixels);
    ShowExtends(c.emitted, Painted(ev.frameSeq, ev.tile, pixels));
  }

  lemma CoalescedForward(content: Oracle, labels: Labels, b: Batch, s: Simple, ev: Event)
    requires InStepWith(content, labels, b, s) && (ev.FrameDimensions? || ev.Other?)
    ensures InStepWith(content, NextLabels(labels, ev), Coalesced(b, ev), Step(s, ev))
  {
    OrderStaysOk(b, ev);
    FlushAllKeeps(content, labels, b, s);
    hide Matches, Step, OrderOk, ShowAll, FlushAllOf, Retain;
    var c := FlushAllOf(b);
    MatchesAfterForward(content, BothOf(labels, c, s), ev);
    ShowExtends(c.emitted, Forwarded(ev));
  }

  /** One event of a batch keeps the two in step. */
  lemma CoalescedKeeps(content: Oracle, labels: Labels, b: Batch, s: Simple, ev: Event)
    requires InStepWith(content, labels, b, s) && EventOk(content, labels, ev)
    ensures InStepWith(content, NextLabels(labels, ev), Coalesced(b, ev), Step(s, ev))
  {
    hide InStepWith, EventOk, Coalesced, Step;
    match ev {
      case Cdf53(_, _, _, _) => CoalescedPass(content, labels, b, s, ev);
      case Solid(_, _, _) => CoalescedPaint(content, labels, b, s, ev);
      case PalRle(_, _, _, _) => CoalescedPaint(content, labels, b, s, ev);
      case PaletteUpdated(_, _) => CoalescedPalette(content, labels, b, s, ev);
      case FrameDimensions(_, _) => CoalescedForward(content, labels, b, s, ev);
      case Other(_) => CoalescedForward(content, labels, b, s, ev);
    }
  }

  lemma CoalescedPalette(content: Oracle, labels: Labels, b: Batch, s: Simple, ev: Event)
    requires InStepWith(content, labels, b, s) && ev.PaletteUpdated?
    ensures InStepWith(content, NextLabels(labels, ev), Coalesced(b, ev), Step(s, ev))
  {
    hide Matches, Step, ShowAll, Recolour;
    MatchesAfterPalette(content, BothOf(labels, b, s), ev);
  }

  lemma {:induction false} CoalescedAllKeeps(content: Oracle, labels: Labels, b: Batch, s: Simple, events: seq<Event>)
    requires InStepWith(content, labels, b, s) && StreamOk(content, labels, events)
    ensures InStepWith(content, LabelsAfter(labels, events), CoalescedAll(b, events), Run(s, events))
  {
    hide InStepWith, EventOk, Coalesced, Step, NextLabels;
    if events == [] {
    } else {
      var n := |events| - 1;
      CoalescedAllKeeps(content, labels, b, s, events[..n]);
      CoalescedKeeps(
        content, LabelsAfter(labels, events[..n]), CoalescedAll(b, events[..n]), Run(s, events[..n]), events[n]);
    }
  }

  /** What a consumer of the batch decoder sees, and the state it is left in. */
  ghost function SeenOf(b: Batch): Simple { Simple(Decoder(b.tiles, b.palettes), ShowAll(EMPTY_VIEW, b.emitted)) }

  /** A batch ends where the one-at-a-time decoder does. */
  lemma BatchIsRun(content: Oracle, labels: Labels, b: Batch, s: Simple, events: seq<Event>)
    requires InStepWith(content, labels, b, s) && StreamOk(content, labels, events)
    ensures var after := BatchOf(b, events);
            && InStepWith(content, LabelsAfter(labels, events), after, Run(s, events))
            && after.pending == map[] && SeenOf(after) == Run(s, events)
  {
    CoalescedAllKeeps(content, labels, b, s, events);
    hide Matches, CoalescedAll, Run, LabelsAfter, FlushAllOf, StreamOk;
    FlushAllKeeps(content, LabelsAfter(labels, events), CoalescedAll(b, events), Run(s, events));
    SettledAgrees(content, BothOf(LabelsAfter(labels, events), BatchOf(b, events), Run(s, events)));
  }

  lemma {:induction false} RunJoins(s: Simple, a: seq<Event>, b: seq<Event>)
    ensures Run(s, a + b) == Run(Run(s, a), b)
  {
    hide Step;
    if b == [] {
      assert a + b == a;
    } else {
      var n := |a + b| - 1;
      RunJoins(s, a, b[..|b| - 1]);
      assert (a + b)[..n] == a + b[..|b| - 1] && (a + b)[n] == b[|b| - 1];
    }
  }

  /** However the stream is cut into batches, they end where the one-at-a-time decoder does. */
  lemma {:induction false} BatchesAreRun(content: Oracle, labels: Labels, b: Batch, s: Simple, batches: seq<seq<Event>>)
    requires InStepWith(content, labels, b, s) && b.pending == map[] && SeenOf(b) == s
    requires StreamOk(content, labels, Flatten(batches))
    ensures var after := BatchesOf(b, batches);
            && InStepWith(content, LabelsAfter(labels, Flatten(batches)), after, Run(s, Flatten(batches)))
            && after.pending == map[] && SeenOf(after) == Run(s, Flatten(batches))
  {
    hide InStepWith, BatchOf, StreamOk, SeenOf, Step, NextLabels;
    if batches == [] {
    } else {
      var n := |batches| - 1;
      var front, last := Flatten(batches[..n]), batches[n];
      StreamSplits(content, labels, front, last);
      BatchesAreRun(content, labels, b, s, batches[..n]);
      BatchIsRun(content, LabelsAfter(labels, front), BatchesOf(b, batches[..n]), Run(s, front), last);
      RunJoins(s, front, last);
    }
  }

  /** The coalescing decoder. */
  class TileDecoder {
    var tiles: map<Key, Entry>
    var palettes: Palettes
    /** Tiles whose newest passes are accumulated but not reconstructed. */
    var pendingTiles: map<Key, Pending>
    /** Tiles in the order they became pending; may name one flushed since, or one twice. */
    var order: seq<Key>
    /** Everything handed to the consumer, in order. */
    var emitted: seq<Output>

    ghost var seen: seq<Event>
    ghost const content: Oracle
    ghost const initialPalettes: Palettes

    ghost function State(): Batch
      reads this
    {
      Batch(tiles, palettes, pendingTiles, order, emitted)
    }

    ghost function Labelled(): Labels
      reads this
    {
      LabelsAfter(map[], seen)
    }

    /** What a decoder that takes the same events one at a time holds and has shown. */
    ghost function OneAtATime(): Simple
      reads this
    {
      Run(Start(initialPalettes), seen)
    }

    ghost function Shown(): View
      reads this
    {
      ShowAll(EMPTY_VIEW, emitted)
    }

    /** Nothing is pending; holds between batches. */
    ghost predicate Settled()
      reads this
    {
      OrderOk(State()) && pendingTiles == map[]
    }

    /** The decoder is, between batches, the one-at-a-time decoder of the same events. */
    ghost predicate InStep()
      reads this
    {
      InStepWith(content, Labelled(), State(), OneAtATime()) && SeenOf(State()) == OneAtATime()
    }

    constructor (initial: Palettes, ghost oracle: Oracle)
      ensures Settled() && InStep() && seen == [] && emitted == []
      ensures content == oracle && initialPalettes == initial
    {
      tiles, palettes, pendingTiles, order, emitted := map[], initial, map[], [], [];
      seen := [];
      content := oracle;
      initialPalettes := initial;
    }

    method Emit(o: Output)
      modifies this`emitted
      ensures emitted == old(emitted) + [o]
    {
      emitted := emitted + [o];
    }

    /** Reconstruct and hand on one pending tile, if it is pending. */
    method FlushTile(t: Key)
      modifies this`tiles, this`pendingTiles, this`emitted
      ensures State() == FlushTileOf(old(State()), t)
    {
      hide Reconstruct;
      if t in pendingTiles {
        var w := pendingTiles[t];
        pendingTiles := pendingTiles - {t};
        if t in tiles {
          var (e, picture) := Reconstruct(tiles[t]);
          tiles := tiles[t := e];
          if picture.Some? { Emit(Painted(w.frameSeq, t, CdfPixels(picture.value))); }
        }
      }
    }

    /** Reconstruct every pending tile, oldest first. */
    method FlushAll()
      requires OrderOk(State())
      modifies this`tiles, this`pendingTiles, this`order, this`emitted
      ensures State() == FlushAllOf(old(State())) && Settled()
    {
      hide FlushTileOf;
      FlushEachEmpties(State(), order);
      var scratch := order;
      for i := 0 to |scratch|
        invariant FlushEach(State(), scratch[i..]) == FlushEach(old(State()), scratch)
        invariant order == scratch
      {
        assert scratch[i..][1..] == scratch[i + 1..];
        FlushTile(scratch[i]);
      }
      assert scratch[|scratch|..] == [];
      order := [];
    }

    /** A CDF 5/3 pass: flush on a switch of content, then accumulate. */
    method OnPass(ev: Event)
      requires ev.Cdf53?
      modifies this`tiles, this`pendingTiles, this`order, this`emitted
      ensures State() == Coalesced(old(State()), ev)
    {
      hide Accumulate, FlushTileOf;
      var t := ev.tile;
      if t in pendingTiles && (ev.newGeneration || pendingTiles[t].generation != ev.pass.generation) {
        FlushTile(t);
      }
      var (e, changed) := Accumulate(if ev.newGeneration then None else Lookup(tiles, t), ev.pass);
      tiles := tiles[t := e];
      if changed {
        if t !in pendingTiles { order := order + [t]; }
        pendingTiles := pendingTiles[t := Pending(ev.frameSeq, ev.pass.generation)];
      }
    }

    /** One event inside a batch. */
    method DecodeCoalescing(ev: Event)
      requires OrderOk(State())
      modifies this`tiles, this`pendingTiles, this`palettes, this`order, this`emitted
      ensures State() == Coalesced(old(State()), ev) && OrderOk(State())
    {
      OrderStaysOk(State(), ev);
      hide FlushTileOf, FlushAllOf, Recolour, Retain, OrderOk;
      match ev {
        case Cdf53(_, _, _, _) => OnPass(ev);
        case Solid(frameSeq, t, bgra) =>
          FlushTile(t);
          Emit(Painted(frameSeq, t, SolidPixels(bgra)));
        case PalRle(frameSeq, t, id, indices) =>
          FlushTile(t);
          Emit(Painted(frameSeq, t, PalPixels(palettes[id], indices)));
        case PaletteUpdated(id, colors) => palettes := palettes[id := Recolour(palettes[id], colors)];
        case FrameDimensions(width, height) =>
          FlushAll();
          tiles := Retain(tiles, width, height);
          Emit(Forwarded(ev));
        case Other(_) =>
          FlushAll();
          Emit(Forwarded(ev));
      }
    }

    /** One event on its own, between batches. */
    method DecodeInto(ev: Event) returns (o: Option<Output>)
      requires Settled()
      modifies this
      ensures Settled() && seen == old(seen) + [ev]
      ensures (Decoder(tiles, palettes), o) == DecodeOne(old(Decoder(tiles, palettes)), ev)
      ensures emitted == old(emitted) + if o.Some? then [o.value] else []
      ensures old(InStep() && EventOk(content, Labelled(), ev)) ==> InStep()
    {
      hide Matches, Run, LabelsAfter, NextLabels, EventOk, ShowAll, DecodeOne;
      RunExtends(Start(initialPalettes), map[], seen, ev);
      ghost var b := BothOf(Labelled(), State(), OneAtATime());
      if InStep() && EventOk(content, Labelled(), ev) { SettledStep(content, b, ev); }
      var (d, output) := DecodeOne(Decoder(tiles, palettes), ev);
      o := output;
      tiles, palettes := d.tiles, d.palettes;
      if o.Some? {
        ShowExtends(emitted, o.value);
        Emit(o.value);
      }
      seen := seen + [ev];
    }

    /**
     * Decode a batch, whatever the events. If they are passes of steady contents,
     * and so was everything before, the decoder ends in the state of the
     * one-at-a-time decoder, with the same screen, and every event that is not
     * about a tile was handed on over the same screen.
     */
    method DecodeBatch(events: seq<Event>)
      requires Settled()
      modifies this
      ensures Settled() && seen == old(seen) + events
      ensures State() == BatchOf(old(State()), events)
      ensures old(InStep()) && StreamOk(content, old(Labelled()), events) ==>
        InStep() && Labelled() == LabelsAfter(old(Labelled()), events)
    {
      hide Matches, Run, LabelsAfter, StreamOk, Coalesced, FlushAllOf, OrderOk, InStepWith, SeenOf;
      NoEvents(State());
      for i := 0 to |events|
        invariant OrderOk(State()) && State() == CoalescedAll(old(State()), events[..i]) && seen == old(seen)
      {
        assert events[..i + 1][..i] == events[..i];
        DecodeCoalescing(events[i]);
      }
      assert events[..|events|] == events;
      FlushAll();
      seen := seen + events;
      if old(InStep()) && StreamOk(content, old(Labelled()), events) {
        BatchIsRun(content, old(Labelled()), old(State()), old(OneAtATime()), events);
        RunJoins(Start(initialPalettes), old(seen), events);
        LabelsJoin(map[], old(seen), events);
      }
    }

    /** A stream cut into batches in any way ends as the one-at-a-time decoder does. */
    method DecodeBatches(batches: seq<seq<Event>>)
      requires Settled()
      modifies this
      ensures Settled() && seen == old(seen) + Flatten(batches)
      ensures State() == BatchesOf(old(State()), batches)
      ensures old(InStep()) && StreamOk(content, old(Labelled()), Flatten(batches)) ==>
        && Decoder(tiles, palettes) == OneAtATime().d && Shown() == OneAtATime().v
        && InStep()
    {
      hide Matches, Run, LabelsAfter, StreamOk, BatchOf, OrderOk, InStepWith, InStep;
      for i := 0 to |batches|
        invariant Settled() && State() == BatchesOf(old(State()), batches[..i])
        invariant seen == old(seen) + Flatten(batches[..i])
      {
        assert batches[..i + 1][..i] == batches[..i];
        DecodeBatch(batches[i]);
      }
      assert batches[..|batches|] == batches;
      if old(InStep()) && StreamOk(content, old(Labelled()), Flatten(batches)) { JoinedUp(batches); }
    }

    /** The batches as one run of the value-level decoder. */
    twostate lemma JoinedUp(batches: seq<seq<Event>>)
      requires old(InStep() && Settled()) && StreamOk(content, old(Labelled()), Flatten(batches))
      requires State() == BatchesOf(old(State()), batches) && seen == old(seen) + Flatten(batches)
      ensures Decoder(tiles, palettes) == OneAtATime().d && Shown() == OneAtATime().v && InStep()
    {
      hide Matches, Run, LabelsAfter, StreamOk, BatchesOf, OrderOk, ShowAll;
      BatchesAreRun(content, old(Labelled()), old(State()), old(OneAtATime()), batches);
      RunJoins(Start(initialPalettes), old(seen), Flatten(batches));
      LabelsJoin(map[], old(seen), Flatten(batches));
    }
  }

  lemma NoEvents(b: Batch)
    ensures CoalescedAll(b, []) == b
  {
  }

  lemma {:induction false} LabelsJoin(labels: Labels, a: seq<Event>, b: seq<Event>)
    ensures LabelsAfter(labels, a + b) == LabelsAfter(LabelsAfter(labels, a), b)
  {
    if b == [] {
      assert a + b == a;
    } else {
      LabelsJoin(labels, a, b[..|b| - 1]);
      assert (a + b)[..|a + b| - 1] == a + b[..|b| - 1];
    }
  }

}
