/**
 * The ring of export buffers: a published buffer shows the whole framebuffer,
 * although only the damage since that buffer was last written is copied into it.
 */
module ExportRing {
  import opened Serial
  import opened Dirty
  import opened Coalescing

  const TILE_SIZE: nat := 32
  const HISTORY_CAPACITY: nat := 256

  type Pixels = (nat, nat) -> int

  ghost predicate SameOn(w: nat, h: nat, a: Pixels, b: Pixels) {
    forall x: nat, y: nat :: x < w && y < h ==> a(x, y) == b(x, y)
  }

  function TileOf(x: nat, y: nat): Tile { (x / TILE_SIZE, y / TILE_SIZE) }

  function TileCount(pixels: nat): nat { (pixels + TILE_SIZE - 1) / TILE_SIZE }

  function Min(a: nat, b: nat): nat { if a < b then a else b }

  function SaturatingSub(a: nat, b: nat): nat { if a < b then 0 else a - b }

  /** A rectangle of tiles in pixels, cut off at the framebuffer's edges. */
  function ToPixels(r: Rect, width: nat, height: nat): Rect {
    var x, y := r.x * TILE_SIZE, r.y * TILE_SIZE;
    Rect(x, y, Min(r.w * TILE_SIZE, SaturatingSub(width, x)), Min(r.h * TILE_SIZE, SaturatingSub(height, y)))
  }

  function AllToPixels(rects: seq<Rect>, width: nat, height: nat): seq<Rect> {
    seq(|rects|, i requires 0 <= i < |rects| => ToPixels(rects[i], width, height))
  }

  /** The cut-off rectangle has exactly the framebuffer's pixels of its tiles. */
  lemma PixelOfRect(r: Rect, width: nat, height: nat, x: nat, y: nat)
    ensures Inside(ToPixels(r, width, height), (x, y)) <==> x < width && y < height && Inside(r, TileOf(x, y))
  {
  }

  lemma PixelOfRects(rects: seq<Rect>, width: nat, height: nat, x: nat, y: nat)
    ensures InSome(AllToPixels(rects, width, height), (x, y)) <==>
      x < width && y < height && InSome(rects, TileOf(x, y))
  {
    hide ToPixels, Inside;
    var ps := AllToPixels(rects, width, height);
    forall i | 0 <= i < |rects|
      ensures Inside(ps[i], (x, y)) <==> x < width && y < height && Inside(rects[i], TileOf(x, y))
    {
      PixelOfRect(rects[i], width, height, x, y);
    }
  }

  /** The render-pass copy: what lies outside the rectangles is kept. */
  function Blit(dst: Pixels, src: Pixels, rects: seq<Rect>): Pixels {
    (x: nat, y: nat) => if InSome(rects, (x, y)) then src(x, y) else dst(x, y)
  }

  /** The compute copy: whole tiles of the framebuffer, one by one. */
  function CopyTiles(dst: Pixels, src: Pixels, tiles: seq<Tile>): Pixels {
    (x: nat, y: nat) => if TileOf(x, y) in tiles then src(x, y) else dst(x, y)
  }

  /** Between the two pictures only marked tiles changed. */
  ghost predicate Tracks(before: Pixels, after: Pixels, d: DirtyGrid, w: nat, h: nat)
    requires GridOk(d)
  {
    forall x: nat, y: nat :: x < w && y < h && before(x, y) != after(x, y) ==> Get(d, TileOf(x, y))
  }

  ghost predicate GridsOk(all: seq<DirtyGrid>) { forall i :: 0 <= i < |all| ==> GridOk(all[i]) }

  /** `frames[g]` is the framebuffer when generation `g` was sealed. */
  ghost predicate Chronicle(frames: seq<Pixels>, all: seq<DirtyGrid>, w: nat, h: nat)
    requires GridsOk(all)
  {
    |frames| == |all| && forall g {:trigger all[g]} :: 0 < g < |all| ==> Tracks(frames[g - 1], frames[g], all[g], w, h)
  }

  /** What differs between two generations was marked in one sealed between them. */
  lemma {:induction false} DifferenceIsMarked(
    frames: seq<Pixels>, all: seq<DirtyGrid>, w: nat, h: nat, from: nat, until: nat, x: nat, y: nat)
    requires GridsOk(all) && Chronicle(frames, all, w, h) && from <= until < |all| && x < w && y < h
    requires frames[from](x, y) != frames[until](x, y)
    ensures ChangedIn(all, from + 1, until + 1, TileOf(x, y))
    decreases until
  {
    hide Get;
    if frames[until - 1](x, y) != frames[until](x, y) {
      assert Tracks(frames[until - 1], frames[until], all[until], w, h);
      assert Get(all[until], TileOf(x, y));
    } else {
      DifferenceIsMarked(frames, all, w, h, from, until - 1, x, y);
      var g :| from + 1 <= g < until && g < |all| && Get(all[g], TileOf(x, y));
      assert Get(all[g], TileOf(x, y));
    }
  }

  /** Outside the damage since generation `from`, that picture is the newest one. */
  lemma DamageIsEnough(
    frames: seq<Pixels>, all: seq<DirtyGrid>, w: nat, h: nat, from: nat, d: DirtyGrid, x: nat, y: nat)
    requires GridsOk(all) && Chronicle(frames, all, w, h) && from < |all| == |frames| && x < w && y < h
    requires GridOk(d) && IsUnion(d, all, from + 1, |all|) && !Get(d, TileOf(x, y))
    ensures frames[from](x, y) == frames[|all| - 1](x, y)
  {
    hide Get;
    if frames[from](x, y) != frames[|all| - 1](x, y) {
      DifferenceIsMarked(frames, all, w, h, from, |all| - 1, x, y);
    }
  }

  /** Copying the damage brings a buffer that shows an old generation up to date. */
  lemma PartialBlitCompletes(
    c: Pixels, frames: seq<Pixels>, all: seq<DirtyGrid>, w: nat, h: nat, from: nat, d: DirtyGrid, rects: seq<Rect>)
    requires GridsOk(all) && Chronicle(frames, all, w, h) && from < |all| == |frames| && SameOn(w, h, c, frames[from])
    requires GridOk(d) && IsUnion(d, all, from + 1, |all|) && Covers(d, rects)
    ensures SameOn(w, h, Blit(c, frames[|all| - 1], AllToPixels(rects, w, h)), frames[|all| - 1])
  {
    hide Get, Chronicle, AllToPixels, InSome, IsUnion;
    var f := frames[|all| - 1];
    var copy := Blit(c, f, AllToPixels(rects, w, h));
    forall x: nat, y: nat | x < w && y < h
      ensures copy(x, y) == f(x, y)
    {
      PixelOfRects(rects, w, h, x, y);
      if !Get(d, TileOf(x, y)) { DamageIsEnough(frames, all, w, h, from, d, x, y); }
    }
  }

  lemma PartialCopyCompletes(
    c: Pixels, frames: seq<Pixels>, all: seq<DirtyGrid>, w: nat, h: nat, from: nat, d: DirtyGrid, tiles: seq<Tile>)
    requires GridsOk(all) && Chronicle(frames, all, w, h) && from < |all| == |frames| && SameOn(w, h, c, frames[from])
    requires GridOk(d) && IsUnion(d, all, from + 1, |all|) && forall t: Tile :: t in tiles <==> Get(d, t)
    ensures SameOn(w, h, CopyTiles(c, frames[|all| - 1], tiles), frames[|all| - 1])
  {
    hide Get, Chronicle, IsUnion;
    var f := frames[|all| - 1];
    var copy := CopyTiles(c, f, tiles);
    forall x: nat, y: nat | x < w && y < h
      ensures copy(x, y) == f(x, y)
    {
      if !Get(d, TileOf(x, y)) { DamageIsEnough(frames, all, w, h, from, d, x, y); }
    }
  }

  /** Pixels outside the damage reported against an earlier frame did not change. */
  ghost predicate CoversChange(before: Pixels, after: Pixels, damage: seq<Rect>, w: nat, h: nat) {
    forall x: nat, y: nat :: x < w && y < h && before(x, y) != after(x, y) ==> InSome(damage, (x, y))
  }

  lemma DamageCoversChange(
    frames: seq<Pixels>, all: seq<DirtyGrid>, w: nat, h: nat, from: nat, d: DirtyGrid, rects: seq<Rect>)
    requires GridsOk(all) && Chronicle(frames, all, w, h) && from < |all| == |frames|
    requires GridOk(d) && IsUnion(d, all, from + 1, |all|) && Covers(d, rects)
    ensures CoversChange(frames[from], frames[|all| - 1], AllToPixels(rects, w, h), w, h)
  {
    hide Get, Chronicle, AllToPixels, InSome, IsUnion;
    var was, f := frames[from], frames[|all| - 1];
    forall x: nat, y: nat | x < w && y < h && was(x, y) != f(x, y)
      ensures InSome(AllToPixels(rects, w, h), (x, y))
    {
      PixelOfRects(rects, w, h, x, y);
      if !Get(d, TileOf(x, y)) { DamageIsEnough(frames, all, w, h, from, d, x, y); }
    }
  }

  /** The rectangles hold exactly the framebuffer's pixels of the tiles changed since `from`. */
  ghost predicate DamageIs(damage: seq<Rect>, all: seq<DirtyGrid>, from: nat, w: nat, h: nat)
    requires GridsOk(all)
  {
    forall x: nat, y: nat :: InSome(damage, (x, y)) <==> x < w && y < h && ChangedIn(all, from + 1, |all|, TileOf(x, y))
  }

  ghost predicate FullDamage(damage: seq<Rect>, w: nat, h: nat) {
    forall x: nat, y: nat :: InSome(damage, (x, y)) <==> x < w && y < h
  }

  /** The generations after `from` are all still in the history. */
  predicate Retained(from: Option<nat>, sealed: nat) { from.Some? && from.value + 1 + HISTORY_CAPACITY >= sealed }

  /** Damage against generation `from`: exact while the history reaches back that far, else everything. */
  ghost predicate GoodDamage(
    damage: seq<Rect>, frames: seq<Pixels>, all: seq<DirtyGrid>, from: Option<nat>, w: nat, h: nat)
    requires GridsOk(all) && |frames| == |all| > 0 && (from.Some? ==> from.value < |all|)
  {
    && Disjoint(damage)
    && if Retained(from, |all|)
       then DamageIs(damage, all, from.value, w, h)
         && CoversChange(frames[from.value], frames[|frames| - 1], damage, w, h)
       else FullDamage(damage, w, h)
  }

  lemma DamageExact(all: seq<DirtyGrid>, w: nat, h: nat, from: nat, d: DirtyGrid, rects: seq<Rect>)
    requires GridsOk(all) && GridOk(d) && IsUnion(d, all, from + 1, |all|) && Covers(d, rects)
    ensures DamageIs(AllToPixels(rects, w, h), all, from, w, h)
  {
    hide Get, AllToPixels, InSome, ChangedIn;
    var damage := AllToPixels(rects, w, h);
    forall x: nat, y: nat
      ensures InSome(damage, (x, y)) <==> x < w && y < h && ChangedIn(all, from + 1, |all|, TileOf(x, y))
    {
      PixelOfRects(rects, w, h, x, y);
    }
  }

  lemma PartialDamage(
    frames: seq<Pixels>, all: seq<DirtyGrid>, w: nat, h: nat, from: nat, d: DirtyGrid, rects: seq<Rect>)
    requires GridsOk(all) && Chronicle(frames, all, w, h) && from < |all| == |frames| && Retained(Some(from), |all|)
    requires GridOk(d) && IsUnion(d, all, from + 1, |all|) && Covers(d, rects) && Disjoint(rects)
    ensures GoodDamage(AllToPixels(rects, w, h), frames, all, Some(from), w, h)
  {
    hide Chronicle, IsUnion, Covers, Disjoint, AllToPixels, DamageIs, CoversChange;
    DamageExact(all, w, h, from, d, rects);
    DamageCoversChange(frames, all, w, h, from, d, rects);
    DisjointPixels(rects, w, h);
  }

  lemma WholeDamage(frames: seq<Pixels>, all: seq<DirtyGrid>, w: nat, h: nat, from: Option<nat>)
    requires GridsOk(all) && |frames| == |all| > 0 && (from.Some? ==> from.value < |all|) && !Retained(from, |all|)
    ensures GoodDamage(AllToPixels([Rect(0, 0, TileCount(w), TileCount(h))], w, h), frames, all, from, w, h)
  {
    var rects := [Rect(0, 0, TileCount(w), TileCount(h))];
    var damage := AllToPixels(rects, w, h);
    OneIsDisjoint(rects, w, h);
    hide AllToPixels, InSome;
    forall x: nat, y: nat
      ensures InSome(damage, (x, y)) <==> x < w && y < h
    {
      PixelOfRects(rects, w, h, x, y);
      if x < w && y < h { Only(rects, TileOf(x, y)); }
    }
  }

  lemma DisjointPixels(rects: seq<Rect>, w: nat, h: nat)
    requires Disjoint(rects)
    ensures Disjoint(AllToPixels(rects, w, h))
  {
    hide ToPixels, Inside;
    var ps := AllToPixels(rects, w, h);
    forall i, j, t: Tile | 0 <= i < j < |ps|
      ensures !(Inside(ps[i], t) && Inside(ps[j], t))
    {
      PixelOfRect(rects[i], w, h, t.0, t.1);
      PixelOfRect(rects[j], w, h, t.0, t.1);
    }
  }

  /** The one rectangle of a full copy, and the list of all tiles, miss nothing. */
  lemma FullCopyCompletes(c: Pixels, f: Pixels, w: nat, h: nat, tiles: seq<Tile>)
    requires forall t: Tile :: t.0 < TileCount(w) && t.1 < TileCount(h) ==> t in tiles
    ensures SameOn(w, h, Blit(c, f, AllToPixels([Rect(0, 0, TileCount(w), TileCount(h))], w, h)), f)
    ensures SameOn(w, h, CopyTiles(c, f, tiles), f)
  {
    var rects := [Rect(0, 0, TileCount(w), TileCount(h))];
    hide AllToPixels, InSome;
    forall x: nat, y: nat | x < w && y < h
      ensures Blit(c, f, AllToPixels(rects, w, h))(x, y) == f(x, y)
    {
      PixelOfRects(rects, w, h, x, y);
      Only(rects, TileOf(x, y));
    }
  }

  lemma Only(rects: seq<Rect>, t: Tile)
    requires |rects| == 1 && Inside(rects[0], t)
    ensures InSome(rects, t)
  {
  }

  /** No tile is marked. */
  ghost predicate Clean(g: DirtyGrid) { GridOk(g) && forall u: Tile :: !Get(g, u) }

  lemma NewIsClean(cols: nat, rows: nat)
    ensures Clean(NewGrid(cols, rows))
  {
    hide Get, NewGrid;
    forall u: Tile ensures GridOk(NewGrid(cols, rows)) && !Get(NewGrid(cols, rows), u) { GetOfNew(cols, rows, u); }
    GetOfNew(cols, rows, (0, 0));
  }

  lemma MarkedInRange(g: DirtyGrid, u: Tile)
    requires GridOk(g)
    ensures Get(g, u) ==> u.0 < g.cols && u.1 < g.rows
  {
  }

  lemma TileInRange(x: nat, pixels: nat)
    requires x < pixels
    ensures x / TILE_SIZE < TileCount(pixels)
  {
  }

  // ----------------------------------------------------------- the ring

  datatype ExportBuffer = ExportBuffer(content: Pixels, filledAtGen: Option<nat>, inFlight: bool)

  datatype SincePrevious = SincePrevious(frameId: nat, damage: seq<Rect>)

  datatype PublishedFrame = PublishedFrame(
    frameId: nat, bufferId: nat, damage: seq<Rect>, sincePrevious: Option<SincePrevious>)

  /** A buffer said to be filled at a generation shows that generation. */
  ghost predicate Shows(b: ExportBuffer, frames: seq<Pixels>, w: nat, h: nat) {
    b.filledAtGen.Some? ==> b.filledAtGen.value < |frames| && SameOn(w, h, b.content, frames[b.filledAtGen.value])
  }

  ghost predicate AllShow(buffers: seq<ExportBuffer>, frames: seq<Pixels>, w: nat, h: nat) {
    forall i :: 0 <= i < |buffers| ==> Shows(buffers[i], frames, w, h)
  }

  lemma AllShowExtended(buffers: seq<ExportBuffer>, frames: seq<Pixels>, f: Pixels, w: nat, h: nat)
    requires AllShow(buffers, frames, w, h)
    ensures AllShow(buffers, frames + [f], w, h)
  {
    hide SameOn;
    forall i | 0 <= i < |buffers|
      ensures Shows(buffers[i], frames + [f], w, h)
    {
      assert Shows(buffers[i], frames, w, h);
    }
  }

  /**
   * The host's frame ids name exactly the buffers it holds, one id each, and none
   * of them is also the id of a retired buffer it still holds.
   */
  ghost predicate Held(buffers: seq<ExportBuffer>, ids: map<nat, nat>, retired: set<nat>) {
    && ids.Keys !! retired
    && (forall id :: id in ids ==> ids[id] < |buffers| && buffers[ids[id]].inFlight)
    && (forall id, id2 :: id in ids && id2 in ids && ids[id] == ids[id2] ==> id == id2)
    && forall i :: 0 <= i < |buffers| && buffers[i].inFlight ==> Named(ids, i)
  }

  ghost predicate Named(ids: map<nat, nat>, i: nat) { exists id :: id in ids && ids[id] == i }

  /**
   * Handing out a buffer keeps the ids and the held buffers in step exactly when
   * the new id is in use neither for a buffer of the ring nor for a retired one; a
   * 32-bit id comes round again.
   */
  lemma HeldAfterPublish(
    buffers: seq<ExportBuffer>, ids: map<nat, nat>, retired: set<nat>, i: nat, b: ExportBuffer, id: nat)
    requires Held(buffers, ids, retired) && i < |buffers| && !buffers[i].inFlight && b.inFlight
    ensures Held(buffers[i := b], ids[id := i], retired) <==> id !in ids && id !in retired
  {
    var now, names := buffers[i := b], ids[id := i];
    if id in ids {
      var lost := ids[id];
      assert now[lost].inFlight && !Named(names, lost);
    } else if id in retired {
      assert id in names.Keys;
    } else {
      forall j | 0 <= j < |now| && now[j].inFlight
        ensures Named(names, j)
      {
        if j == i {
          assert id in names;
        } else {
          assert Named(ids, j);
          var k :| k in ids && ids[k] == j;
          assert k in names && names[k] == j;
        }
      }
    }
  }

  lemma HeldAfterRelease(buffers: seq<ExportBuffer>, ids: map<nat, nat>, retired: set<nat>, id: nat)
    requires Held(buffers, ids, retired) && id in ids
    ensures Held(buffers[ids[id] := buffers[ids[id]].(inFlight := false)], ids - {id}, retired)
  {
    var now, names := buffers[ids[id] := buffers[ids[id]].(inFlight := false)], ids - {id};
    forall j | 0 <= j < |now| && now[j].inFlight
      ensures Named(names, j)
    {
      assert Named(ids, j);
      var k :| k in ids && ids[k] == j;
      assert k in names && names[k] == j;
    }
  }

  /** Every frame the host holds, retired before or now, is kept under its id, with its pixels. */
  ghost predicate Retired(
    buffers: seq<ExportBuffer>, ids: map<nat, nat>, was: map<nat, Pixels>, now: map<nat, Pixels>)
  {
    && now.Keys == was.Keys + ids.Keys
    && (forall id :: id in ids ==> ids[id] < |buffers| && now[id] == buffers[ids[id]].content)
    && forall id :: id in was ==> now[id] == was[id]
  }

  /** So are those held but the ones in `rest`. */
  ghost predicate RetiredBut(
    buffers: seq<ExportBuffer>, ids: map<nat, nat>, was: map<nat, Pixels>, rest: set<nat>, now: map<nat, Pixels>)
  {
    && now.Keys == was.Keys + (ids.Keys - rest)
    && (forall id :: id in ids && id !in rest ==> ids[id] < |buffers| && now[id] == buffers[ids[id]].content)
    && forall id :: id in was ==> now[id] == was[id]
  }

  lemma NoneRetired(buffers: seq<ExportBuffer>, ids: map<nat, nat>, was: map<nat, Pixels>)
    ensures RetiredBut(buffers, ids, was, ids.Keys, was)
  {
  }

  lemma AllRetired(buffers: seq<ExportBuffer>, ids: map<nat, nat>, was: map<nat, Pixels>, now: map<nat, Pixels>)
    requires RetiredBut(buffers, ids, was, {}, now)
    ensures Retired(buffers, ids, was, now)
  {
  }

  lemma RetireOne(
    buffers: seq<ExportBuffer>, ids: map<nat, nat>, was: map<nat, Pixels>, rest: set<nat>, now: map<nat, Pixels>,
    id: nat)
    requires Held(buffers, ids, was.Keys) && RetiredBut(buffers, ids, was, rest, now) && id in rest && rest <= ids.Keys
    ensures ids[id] < |buffers|
    ensures RetiredBut(buffers, ids, was, rest - {id}, now[id := buffers[ids[id]].content])
  {
    hide Named;
    assert ids.Keys - (rest - {id}) == ids.Keys - rest + {id};
  }

  lemma OneBufferEach(buffers: seq<ExportBuffer>, ids: map<nat, nat>, retired: set<nat>)
    requires Held(buffers, ids, retired)
    ensures forall id, id2 :: id in ids && id2 in ids && ids[id] == ids[id2] ==> id == id2
  {
  }

  ghost predicate GoodSince(
    r: Option<SincePrevious>, last: Option<(nat, nat)>, frames: seq<Pixels>, all: seq<DirtyGrid>, w: nat, h: nat)
    requires GridsOk(all) && |frames| == |all| > 0 && (last.Some? ==> last.value.1 < |all|)
  {
    && (r.Some? <==> last.Some? && Retained(Some(last.value.1), |all|))
    && (r.Some? ==>
      r.value.frameId == last.value.0 && GoodDamage(r.value.damage, frames, all, Some(last.value.1), w, h))
  }

  function Freed(buffers: seq<ExportBuffer>, i: nat): seq<ExportBuffer> {
    if i < |buffers| then buffers[i := buffers[i].(inFlight := false)] else buffers
  }

  class Ring {
    var width: nat
    var height: nat
    const history: DirtyHistory
    var buffers: seq<ExportBuffer>
    /** Frames the host holds, by id. */
    var inFlight: map<nat, nat>
    /** Buffers of an earlier size the host still holds, by frame id. */
    var graveyard: map<nat, Pixels>
    var lastPublish: Option<(nat, nat)>
    var nextFrameId: u32

    /** The framebuffer as it was when each generation was sealed. */
    ghost var frames: seq<Pixels>
    /** The framebuffer now. */
    ghost var shown: Pixels

    ghost predicate HistoryOk()
      reads this`width, this`height, history
    {
      && history.Valid() && history.capacity == HISTORY_CAPACITY
      && history.cols == TileCount(width) && history.rows == TileCount(height)
    }

    /** Every write since the last seal is marked, and so is every one before it. */
    ghost predicate Marked()
      reads this`width, this`height, this`frames, this`shown, history
      requires HistoryOk()
    {
      && Chronicle(frames, history.all, width, height)
      && (|frames| > 0 ==> Tracks(frames[|frames| - 1], shown, history.current, width, height))
    }

    ghost predicate Valid()
      reads this, history
    {
      && HistoryOk() && Marked()
      && AllShow(buffers, frames, width, height)
      && (lastPublish.Some? ==> lastPublish.value.1 < |frames|)
    }

    /** What the host holds and what its ids name are in step. */
    ghost predicate InStep()
      reads this`buffers, this`inFlight, this`graveyard
    {
      Held(buffers, inFlight, graveyard.Keys)
    }

    constructor (w: nat, h: nat, blank: seq<Pixels>, fb: Pixels)
      ensures Valid() && InStep() && fresh(history)
      ensures width == w && height == h && shown == fb && |buffers| == |blank|
      ensures inFlight == map[] && graveyard == map[] && nextFrameId == 0
      ensures forall i :: 0 <= i < |buffers| ==> !buffers[i].inFlight
    {
      width, height := w, h;
      history := new DirtyHistory(TileCount(w), TileCount(h), HISTORY_CAPACITY);
      buffers := seq(|blank|, i requires 0 <= i < |blank| => ExportBuffer(blank[i], None, false));
      inFlight, graveyard, lastPublish, nextFrameId, frames, shown := map[], map[], None, 0, [], fb;
    }

    /** The renderer writes one tile of the framebuffer and marks it. */
    method WriteTile(t: Tile, ghost fb: Pixels)
      requires Valid() && t.0 < TileCount(width) && t.1 < TileCount(height)
      requires forall x: nat, y: nat :: fb(x, y) != shown(x, y) ==> TileOf(x, y) == t
      modifies this`shown, history
      ensures Valid() && shown == fb && history.all == old(history.all)
      ensures forall u: Tile :: Get(history.current, u) <==> Get(old(history.current), u) || u == t
    {
      hide SameOn, Get, Set, Chronicle;
      ghost var was := history.current;
      history.Mark(t);
      forall u: Tile ensures Get(history.current, u) <==> Get(was, u) || u == t { GetAfterSet(was, t, u); }
      shown := fb;
    }

    /** The renderer rewrites the whole framebuffer and marks every tile. */
    method WriteAll(ghost fb: Pixels)
      requires Valid()
      modifies this`shown, history
      ensures Valid() && shown == fb && history.all == old(history.all)
      ensures forall u: Tile :: Get(history.current, u) <==> u.0 < TileCount(width) && u.1 < TileCount(height)
    {
      hide SameOn, Get, Set, Chronicle, TileCount;
      for ty := 0 to TileCount(height)
        invariant HistoryOk() && history.all == old(history.all)
        invariant forall t: Tile :: t.0 < TileCount(width) && t.1 < ty ==> Get(history.current, t)
      {
        for tx := 0 to TileCount(width)
          invariant HistoryOk() && history.all == old(history.all)
          invariant forall t: Tile :: t.0 < TileCount(width) && t.1 < ty ==> Get(history.current, t)
          invariant forall t: Tile :: t.0 < tx && t.1 == ty ==> Get(history.current, t)
        {
          ghost var was := history.current;
          history.Mark((tx, ty));
          forall u: Tile
            ensures Get(history.current, u) <==> Get(was, u) || u == (tx, ty)
          {
            GetAfterSet(was, (tx, ty), u);
          }
        }
      }
      forall u: Tile ensures Get(history.current, u) ==> u.0 < TileCount(width) && u.1 < TileCount(height) {
        MarkedInRange(history.current, u);
      }
      forall x: nat, y: nat | x < width && y < height
        ensures Get(history.current, TileOf(x, y))
      {
        TileInRange(x, width);
        TileInRange(y, height);
      }
      shown := fb;
    }

    /** First buffer the host does not hold. */
    method FreeBuffer() returns (r: Option<nat>)
      ensures r.None? <==> forall i :: 0 <= i < |buffers| ==> buffers[i].inFlight
      ensures r.Some? ==>
        && r.value < |buffers| && !buffers[r.value].inFlight
        && forall j :: 0 <= j < r.value ==> buffers[j].inFlight
    {
      for i := 0 to |buffers|
        invariant forall j :: 0 <= j < i ==> buffers[j].inFlight
      {
        if !buffers[i].inFlight { return Some(i); }
      }
      return None;
    }

    method AllTiles() returns (tiles: seq<Tile>)
      ensures forall t: Tile :: t.0 < TileCount(width) && t.1 < TileCount(height) ==> t in tiles
    {
      hide TileCount;
      tiles := [];
      for ty := 0 to TileCount(height)
        invariant forall t: Tile :: t.0 < TileCount(width) && t.1 < ty ==> t in tiles
      {
        for tx := 0 to TileCount(width)
          invariant forall t: Tile :: t.0 < TileCount(width) && t.1 < ty ==> t in tiles
          invariant forall t: Tile :: t.0 < tx && t.1 == ty ==> t in tiles
        {
          tiles := tiles + [(tx, ty)];
        }
      }
    }

    /** Bring the buffer's contents up to the newest sealed generation. */
    method Fill(b: ExportBuffer, fb: Pixels, kernel: bool) returns (content: Pixels, damage: seq<Rect>)
      requires HistoryOk() && Chronicle(frames, history.all, width, height) && |frames| == |history.all| > 0
      requires fb == frames[|frames| - 1] && Shows(b, frames, width, height)
      ensures SameOn(width, height, content, fb)
      ensures GoodDamage(damage, frames, history.all, b.filledAtGen, width, height)
    {
      hide Get, Chronicle, SameOn, AllToPixels, Covers, IsUnion, Disjoint, Blit, CopyTiles, TileCount, GoodDamage;
      var dirty := history.UnionSince(b.filledAtGen);
      if dirty.Some? {
        ghost var since := b.filledAtGen.value;
        var rects := Coalesce(dirty.value);
        var tiles := IterSet(dirty.value);
        damage := AllToPixels(rects, width, height);
        PartialBlitCompletes(b.content, frames, history.all, width, height, since, dirty.value, rects);
        PartialCopyCompletes(b.content, frames, history.all, width, height, since, dirty.value, tiles);
        PartialDamage(frames, history.all, width, height, since, dirty.value, rects);
        content := if kernel && |tiles| > 0 then CopyTiles(b.content, fb, tiles) else Blit(b.content, fb, damage);
      } else {
        var rects := [Rect(0, 0, TileCount(width), TileCount(height))];
        var tiles := AllTiles();
        damage := AllToPixels(rects, width, height);
        FullCopyCompletes(b.content, fb, width, height, tiles);
        WholeDamage(frames, history.all, width, height, b.filledAtGen);
        content := if kernel && |tiles| > 0 then CopyTiles(b.content, fb, tiles) else Blit(b.content, fb, damage);
      }
    }

    /** What changed since the frame published before, exactly when the history still says. */
    method DamageSincePrevious() returns (r: Option<SincePrevious>)
      requires HistoryOk() && Chronicle(frames, history.all, width, height) && |frames| == |history.all| > 0
      requires lastPublish.Some? ==> lastPublish.value.1 < |frames|
      ensures GoodSince(r, lastPublish, frames, history.all, width, height)
    {
      hide Get, Chronicle, AllToPixels, Covers, IsUnion, Disjoint, GoodDamage;
      if lastPublish.None? { return None; }
      var dirty := history.UnionSince(Some(lastPublish.value.1));
      if dirty.None? { return None; }
      var rects := Coalesce(dirty.value);
      PartialDamage(frames, history.all, width, height, lastPublish.value.1, dirty.value, rects);
      return Some(SincePrevious(lastPublish.value.0, AllToPixels(rects, width, height)));
    }

    method Seal(fb: Pixels) returns (gen: nat)
      requires Valid() && fb == shown
      modifies this`frames, history
      ensures Valid() && frames == old(frames) + [fb] && gen == |frames| - 1 && |history.all| == |frames|
      ensures history.all == old(history.all) + [old(history.current)] && Clean(history.current)
    {
      hide SameOn, Get, NewGrid;
      AllShowExtended(buffers, frames, fb, width, height);
      gen := history.Advance();
      NewIsClean(history.cols, history.rows);
      frames := frames + [fb];
    }

    /**
     * Publish: the generation is sealed whether or not a buffer is free; a
     * published buffer shows the whole framebuffer; no buffer the host holds is
     * written; and the damage against the previous frame misses no change.
     */
    method Publish(fb: Pixels, kernel: bool) returns (r: Option<PublishedFrame>)
      requires Valid() && fb == shown
      modifies this`frames, this`buffers, this`inFlight, this`lastPublish, this`nextFrameId, history
      ensures Valid() && shown == old(shown) && frames == old(frames) + [fb]
      ensures history.all == old(history.all) + [old(history.current)]
      ensures Clean(history.current)
      ensures r.None? <==> forall i :: 0 <= i < |old(buffers)| ==> old(buffers)[i].inFlight
      ensures r.None? ==> buffers == old(buffers) && inFlight == old(inFlight)
      ensures r.Some? ==>
        && r.value.bufferId < |old(buffers)| == |buffers| && !old(buffers)[r.value.bufferId].inFlight
        && (forall j :: 0 <= j < r.value.bufferId ==> old(buffers)[j].inFlight)
        && SameOn(width, height, buffers[r.value.bufferId].content, fb)
        && buffers == old(buffers)[r.value.bufferId :=
             ExportBuffer(buffers[r.value.bufferId].content, Some(|frames| - 1), true)]
        && |frames| == |history.all|
        && GoodDamage(r.value.damage, frames, history.all, old(buffers)[r.value.bufferId].filledAtGen, width, height)
        && GoodSince(r.value.sincePrevious, old(lastPublish), frames, history.all, width, height)
        && r.value.frameId == old(nextFrameId) && nextFrameId == Wrap32(old(nextFrameId) + 1)
        && lastPublish == Some((r.value.frameId, |frames| - 1))
        && inFlight == old(inFlight)[r.value.frameId := r.value.bufferId]
      ensures old(InStep()) ==>
        (InStep() <==> r.None? || (r.value.frameId !in old(inFlight) && r.value.frameId !in graveyard))
    {
      hide SameOn, Get, Chronicle, GoodDamage, GoodSince, Held, Tracks;
      var gen := Seal(fb);
      var free := FreeBuffer();
      if free.None? { return None; }
      var id := free.value;
      var content, damage := Fill(buffers[id], fb, kernel);
      var since := DamageSincePrevious();
      var frameId := HandOut(id, content, gen);
      return Some(PublishedFrame(frameId, id, damage, since));
    }

    /** Give the host a filled buffer under the next frame id. */
    method HandOut(i: nat, content: Pixels, gen: nat) returns (frameId: nat)
      requires Valid() && i < |buffers| && !buffers[i].inFlight && |frames| > 0 && gen == |frames| - 1
      requires SameOn(width, height, content, frames[gen])
      modifies this`buffers, this`inFlight, this`lastPublish, this`nextFrameId
      ensures Valid() && buffers == old(buffers)[i := ExportBuffer(content, Some(gen), true)]
      ensures frameId == old(nextFrameId) && nextFrameId == Wrap32(frameId + 1) && lastPublish == Some((frameId, gen))
      ensures inFlight == old(inFlight)[frameId := i]
      ensures old(InStep()) ==> (InStep() <==> frameId !in old(inFlight) && frameId !in graveyard)
    {
      hide SameOn, Get, Chronicle, Held, Tracks, Marked;
      var filled := ExportBuffer(content, Some(gen), true);
      frameId := nextFrameId;
      if InStep() { HeldAfterPublish(buffers, inFlight, graveyard.Keys, i, filled, frameId); }
      buffers := buffers[i := filled];
      nextFrameId := Wrap32(nextFrameId + 1);
      inFlight := inFlight[frameId := i];
      lastPublish := Some((frameId, gen));
    }

    /**
     * The host is done with a frame. An unknown id is ignored. An id in use twice
     * gives up the retired frame and leaves the ring's buffer out of reach.
     */
    method Release(frameId: nat)
      requires Valid()
      modifies this`buffers, this`inFlight, this`graveyard
      ensures Valid() && (old(InStep()) ==> InStep())
      ensures graveyard == old(graveyard) - {frameId}
      ensures frameId in old(graveyard) || frameId !in old(inFlight) ==>
        buffers == old(buffers) && inFlight == old(inFlight)
      ensures frameId !in old(graveyard) && frameId in old(inFlight) ==>
        && inFlight == old(inFlight) - {frameId}
        && buffers == Freed(old(buffers), old(inFlight)[frameId])
    {
      hide SameOn, Get, Chronicle, Tracks;
      if frameId in graveyard {
        graveyard := graveyard - {frameId};
        return;
      }
      if frameId in inFlight {
        if InStep() { HeldAfterRelease(buffers, inFlight, graveyard.Keys, frameId); }
        var id := inFlight[frameId];
        if id < |buffers| { buffers := buffers[id := buffers[id].(inFlight := false)]; }
        inFlight := inFlight - {frameId};
      }
    }

    /** Move the buffers the host holds out of the ring, under their frame ids. */
    method Retire() returns (kept: map<nat, Pixels>)
      ensures InStep() ==> Retired(buffers, inFlight, graveyard, kept)
    {
      hide Held, RetiredBut;
      kept := graveyard;
      var rest, taken := inFlight.Keys, {};
      if InStep() { NoneRetired(buffers, inFlight, graveyard); }
      while rest != {}
        invariant rest <= inFlight.Keys
        invariant forall i: nat :: i in taken <==> exists id :: id in inFlight && id !in rest && inFlight[id] == i
        invariant InStep() ==> RetiredBut(buffers, inFlight, graveyard, rest, kept)
      {
        var id :| id in rest;
        var i := inFlight[id];
        if InStep() {
          OneBufferEach(buffers, inFlight, graveyard.Keys);
          RetireOne(buffers, inFlight, graveyard, rest, kept, id);
        }
        if i < |buffers| && i !in taken { kept := kept[id := buffers[i].content]; }
        taken := taken + {i};
        rest := rest - {id};
      }
      if InStep() { AllRetired(buffers, inFlight, graveyard, kept); }
    }

    /** Fresh, unfilled buffers and no history. */
    method Renew(w: nat, h: nat, blank: seq<Pixels>, ghost fb: Pixels)
      requires history.Valid() && history.capacity == HISTORY_CAPACITY
      modifies this`width, this`height, this`buffers, this`inFlight, this`lastPublish, this`frames, this`shown, history
      ensures Valid() && InStep() && inFlight == map[] && lastPublish == None
      ensures width == w && height == h && shown == fb && |buffers| == |blank|
      ensures forall i :: 0 <= i < |buffers| ==> buffers[i].filledAtGen == None && !buffers[i].inFlight
      ensures history.all == [] && Clean(history.current)
    {
      hide SameOn, Get, Tracks, TileCount, NewGrid, GridOk, Clean, IsUnion;
      NewIsClean(TileCount(w), TileCount(h));
      buffers := seq(|blank|, i requires 0 <= i < |blank| => ExportBuffer(blank[i], None, false));
      inFlight := map[];
      width, height, lastPublish := w, h, None;
      history.Reset(TileCount(w), TileCount(h));
      frames, shown := [], fb;
    }

    /**
     * A new size: the next publish of any buffer copies everything, and what the
     * host holds stays as it was, under its id, until it is released.
     */
    method Resize(w: nat, h: nat, granted: bool, blank: seq<Pixels>, ghost fb: Pixels) returns (ok: bool)
      requires Valid() && |blank| == |buffers|
      requires w == width && h == height ==> fb == shown
      modifies this`width, this`height, this`buffers, this`inFlight, this`graveyard
      modifies this`lastPublish, this`frames, this`shown, history
      ensures ok <==> granted || (w == old(width) && h == old(height))
      ensures ok ==> width == w && height == h && shown == fb
      ensures Valid() && nextFrameId == old(nextFrameId) && (old(InStep()) ==> InStep())
      ensures !ok || (w == old(width) && h == old(height)) ==>
        && buffers == old(buffers) && inFlight == old(inFlight) && graveyard == old(graveyard)
      ensures ok && (w != old(width) || h != old(height)) ==>
        && inFlight == map[] && lastPublish == None
        && |buffers| == |blank|
        && (forall i :: 0 <= i < |buffers| ==> buffers[i].filledAtGen == None && !buffers[i].inFlight)
        && history.all == [] && Clean(history.current)
        && InStep() && (old(InStep()) ==> Retired(old(buffers), old(inFlight), old(graveyard), graveyard))
    {
      hide SameOn, Get, Tracks, Held, Retired, Marked, AllShow;
      if w == width && h == height { return true; }
      if !granted { return false; }
      graveyard := Retire();
      Renew(w, h, blank, fb);
      return true;
    }
  }

  lemma OneIsDisjoint(rects: seq<Rect>, w: nat, h: nat)
    requires |rects| == 1
    ensures Disjoint(AllToPixels(rects, w, h))
  {
  }
}
