/**
 * Accumulating the passes of one CDF 5/3 tile, and drawing what is resolved.
 *
 * A pass mask (`u16`) is modelled by the set of its one bits.
 */
module TileState {
  import opened Serial
  import opened Bytes
  import opened BitPlanes
  import TileCodec

  type Mask = set<nat>

  /** One validated pass. Only pass 0 carries the bitmap of passes that exist. */
  datatype Pass = Pass(generation: nat, idx: nat, plane: Plane, present: Option<Mask>)

  datatype Entry = Entry(
    generation: nat,
    planes: map<nat, Plane>,
    received: Mask,
    present: Option<Mask>,
    drawn: Option<nat>)

  // ------------------------------------------------------------ the prefix

  /** A pass is resolved once it arrived, or is known never to come. */
  predicate Resolved(received: Mask, present: Option<Mask>, i: nat) {
    i in received || (present.Some? && i !in present.value)
  }

  function PrefixFrom(received: Mask, present: Option<Mask>, i: nat): (k: nat)
    requires i <= PASS_COUNT
    ensures i <= k <= PASS_COUNT
    ensures forall j :: i <= j < k ==> Resolved(received, present, j)
    ensures k < PASS_COUNT ==> !Resolved(received, present, k)
    decreases PASS_COUNT - i
  {
    if i < PASS_COUNT && Resolved(received, present, i) then PrefixFrom(received, present, i + 1) else i
  }

  /** Length of the contiguous prefix of resolved passes. */
  function ResolvedPrefix(received: Mask, present: Option<Mask>): (k: nat)
    ensures k <= PASS_COUNT
    ensures forall j :: 0 <= j < k ==> Resolved(received, present, j)
    ensures k < PASS_COUNT ==> !Resolved(received, present, k)
  {
    PrefixFrom(received, present, 0)
  }

  function PrefixOf(e: Entry): (k: nat)
    ensures k <= PASS_COUNT
  {
    ResolvedPrefix(e.received, e.present)
  }

  /**
   * A tile is fully drawable exactly when every real pass of its bitmap is in.
   * A complete mask (every bit of the bitmap received) is enough.
   */
  lemma FullPrefixIff(received: Mask, present: Mask)
    ensures ResolvedPrefix(received, Some(present)) == PASS_COUNT
       <==> forall i :: i in present && i < PASS_COUNT ==> i in received
    ensures present <= received ==> ResolvedPrefix(received, Some(present)) == PASS_COUNT
  {
    var k := ResolvedPrefix(received, Some(present));
    if k == PASS_COUNT {
      forall i | i in present && i < PASS_COUNT
        ensures i in received
      {
        assert Resolved(received, Some(present), i);
      }
    }
  }

  /**
   * The mask test `received == present` is stricter than drawability: a bitmap
   * naming passes 14 or 15, which never arrive, is never complete although the
   * picture is. The two agree if and only if the bitmap names no such pass.
   */
  lemma CompleteMaskVersusFullPrefix(present: Mask)
    ensures (forall received: Mask :: RealPasses(received) ==>
              (present <= received <==> ResolvedPrefix(received, Some(present)) == PASS_COUNT))
       <==> RealPasses(present)
    ensures ResolvedPrefix({0}, Some({0, 14})) == PASS_COUNT && !({0, 14} <= {0})
  {
    forall received: Mask | RealPasses(received) { FullPrefixIff(received, present); }
    var existing := set i | i in present && i < PASS_COUNT;
    FullPrefixIff(existing, present);
  }

  /** Only passes that exist: a received pass has index below 14. */
  predicate RealPasses(m: Mask) { forall i :: i in m ==> i < PASS_COUNT }

  // ------------------------------------------------- accumulate, reconstruct

  /** Store a pass: a generation change drops what was held. True if the prefix is not the one drawn. */
  function Accumulate(held: Option<Entry>, p: Pass): (r: (Entry, bool))
  {
    var base :=
      if held.Some? && held.value.generation == p.generation then held.value
      else Entry(p.generation, map[], {}, None, None);
    var stored :=
      if p.idx < PASS_COUNT then base.(planes := base.planes[p.idx := p.plane], received := base.received + {p.idx})
      else base;
    var e := if p.present.Some? then stored.(present := p.present) else stored;
    (e, e.drawn != Some(PrefixOf(e)))
  }

  /** The planes of the resolved prefix; one that never came reads as zero. */
  function PrefixPlanes(e: Entry): (planes: seq<Plane>)
    ensures |planes| == PrefixOf(e)
  {
    seq(PrefixOf(e), i requires 0 <= i < PrefixOf(e) => if i in e.planes then e.planes[i] else ZERO_PLANE)
  }

  /** The picture for what is stored, if it is new and carries information. */
  function Reconstruct(e: Entry): (r: (Entry, Option<seq<byte>>))
  {
    var k := PrefixOf(e);
    if e.drawn == Some(k) then (e, None) else
      var coefficients := DecodePlanes(PrefixPlanes(e));
      if k < PASS_COUNT && AllZero(coefficients) then (e, None)
      else (e.(drawn := Some(k)), Some(TileCodec.Inverse(coefficients)))
  }

  // ------------------------------------------- what an entry shows

  /** The prefix shows something, or is full. */
  ghost predicate Visible(e: Entry) { PrefixOf(e) == PASS_COUNT || !AllZero(DecodePlanes(PrefixPlanes(e))) }

  ghost function Picture(e: Entry): seq<byte> { TileCodec.Inverse(DecodePlanes(PrefixPlanes(e))) }

  /** What has been drawn once every stored pass had its turn: the prefix, if it is visible. */
  ghost function DrawnOnce(e: Entry): Option<nat> { if Visible(e) then Some(PrefixOf(e)) else None }

  /** The entry `f` has every plane of `e`, and no shorter a prefix. */
  predicate Extends(e: Entry, f: Entry) {
    PrefixOf(e) <= PrefixOf(f) && forall i :: i in e.planes ==> i in f.planes && f.planes[i] == e.planes[i]
  }

  /** What is visible stays visible as passes are added. */
  lemma VisibleGrows(e: Entry, f: Entry)
    requires Extends(e, f) && Visible(e)
    ensures Visible(f)
  {
    hide DecodePlanes, AllZero, PlaneBit;
    if PrefixOf(f) < PASS_COUNT {
      ZeroPlaneIsBlank();
      NonZeroGrows(PrefixPlanes(e), PrefixPlanes(f));
    }
  }

  lemma ReconstructIs(e: Entry)
    ensures Reconstruct(e) == if e.drawn != Some(PrefixOf(e)) && Visible(e)
                              then (e.(drawn := Some(PrefixOf(e))), Some(Picture(e))) else (e, None)
  {
    hide DecodePlanes, AllZero;
  }

  // ------------------------------------------- one generation's content

  /**
   * What may arrive of one generation: the plane of each pass, and the bitmap of
   * the passes that exist. A pass the bitmap does not name may arrive all the
   * same; nothing in the client compares the two.
   */
  datatype Content = Content(planes: seq<Plane>, passes: Mask)
  {
    ghost predicate Valid() { |planes| == PASS_COUNT && 0 in passes }

    /** The planes drawn from when, beside the named passes, those in `extra` have arrived. */
    ghost function With(extra: Mask): (r: seq<Plane>)
      requires Valid()
      ensures |r| == PASS_COUNT
    {
      seq(PASS_COUNT, i requires 0 <= i < PASS_COUNT => if i in passes || i in extra then planes[i] else ZERO_PLANE)
    }

    /** Prefix lengths at which a tile whose bitmap is known can stand. */
    ghost predicate Stop(k: nat) { k == PASS_COUNT || (k < PASS_COUNT && k in passes) }

    /**
     * Once a prefix is visible, no pass the bitmap does not name changes its
     * picture by arriving late.
     */
    ghost predicate Steady()
      requires Valid()
    {
      forall few: Mask, more: Mask, k: nat ::
        few <= more && Stop(k) && (k == PASS_COUNT || !AllZero(DecodePlanes(With(few)[..k]))) ==>
          TileCodec.Inverse(DecodePlanes(With(more)[..k])) == TileCodec.Inverse(DecodePlanes(With(few)[..k]))
    }

    /** Every pass the bitmap does not name is empty. */
    ghost predicate NamesAll()
      requires Valid()
    {
      forall i :: 0 <= i < PASS_COUNT && i !in passes ==> Blank(planes[i])
    }
  }

  /** The pass is one of `c`: the plane of its index, and the bitmap with pass 0. */
  ghost predicate HonestPass(p: Pass, c: Content) {
    && c.Valid() && p.idx < PASS_COUNT && p.plane == c.planes[p.idx]
    && p.present == if p.idx == 0 then Some(c.passes) else None
  }

  /** The entry holds passes of `c` and nothing else. */
  ghost predicate Coherent(e: Entry, c: Content) {
    && c.Valid()
    && e.planes.Keys == e.received
    && (forall i :: i in e.received ==> i < PASS_COUNT && e.planes[i] == c.planes[i])
    && e.present == if 0 in e.received then Some(c.passes) else None
  }

  /** Before pass 0 the prefix is empty; after it, it stands at a stop, and its planes are those of the content. */
  lemma PrefixOfContent(e: Entry, c: Content)
    requires Coherent(e, c)
    ensures 0 !in e.received ==> PrefixOf(e) == 0
    ensures 0 in e.received ==> c.Stop(PrefixOf(e)) && PrefixPlanes(e) == c.With(e.received)[..PrefixOf(e)]
  {
    var k := PrefixOf(e);
    if 0 in e.received {
      forall i | 0 <= i < k
        ensures PrefixPlanes(e)[i] == c.With(e.received)[i]
      {
        assert Resolved(e.received, e.present, i);
      }
    } else {
      assert !Resolved(e.received, e.present, 0);
    }
  }

  lemma NothingShown()
    ensures AllZero(DecodePlanes([]))
  {
  }

  lemma NoPassNothingVisible(e: Entry, c: Content)
    requires Coherent(e, c) && 0 !in e.received
    ensures !Visible(e)
  {
    hide DecodePlanes, AllZero;
    PrefixOfContent(e, c);
    NothingShown();
    assert PrefixPlanes(e) == [];
  }

  /** Of a steady content, entries at one prefix show one picture. */
  lemma SteadyPicture(e: Entry, f: Entry, c: Content)
    requires Coherent(e, c) && Coherent(f, c) && c.Steady() && Extends(e, f) && PrefixOf(e) == PrefixOf(f) && Visible(e)
    ensures Picture(e) == Picture(f)
  {
    hide DecodePlanes, AllZero, TileCodec.Inverse;
    if 0 !in e.received { NoPassNothingVisible(e, c); }
    PrefixOfContent(e, c);
    PrefixOfContent(f, c);
    assert e.received <= f.received;
  }

  /** If every pass left unnamed is empty, nothing can change a picture by arriving late. */
  lemma NamesAllIsSteady(c: Content)
    requires c.Valid() && c.NamesAll()
    ensures c.Steady()
  {
    hide DecodePlanes, AllZero, TileCodec.Inverse, PlaneBit;
    ZeroPlaneIsBlank();
    forall few: Mask, more: Mask, k: nat | few <= more && c.Stop(k)
      ensures DecodePlanes(c.With(more)[..k]) == DecodePlanes(c.With(few)[..k])
    {
      SameBitsDecode(c.With(more)[..k], c.With(few)[..k]);
    }
  }

  lemma PrefixGrows(received: Mask, present: Option<Mask>, received': Mask, present': Option<Mask>)
    requires received <= received' && (present.Some? ==> present' == present)
    ensures ResolvedPrefix(received, present) <= ResolvedPrefix(received', present')
  {
    var k' := ResolvedPrefix(received', present');
    if k' < ResolvedPrefix(received, present) {
      assert Resolved(received, present, k');
      assert Resolved(received', present', k');
    }
  }

  /** Storing a pass keeps the entry coherent, keeps what was drawn, and never shortens the prefix. */
  lemma AccumulateKeepsCoherent(held: Option<Entry>, p: Pass, c: Content)
    requires HonestPass(p, c)
    requires held.Some? && held.value.generation == p.generation ==> Coherent(held.value, c)
    ensures var e := Accumulate(held, p).0;
            && Coherent(e, c) && e.generation == p.generation && p.idx in e.received
            && if held.Some? && held.value.generation == p.generation
               then e.drawn == held.value.drawn && Extends(held.value, e)
               else e.drawn == None && e.received == {p.idx}
  {
    if held.Some? && held.value.generation == p.generation {
      var e := Accumulate(held, p).0;
      PrefixGrows(held.value.received, held.value.present, e.received, e.present);
    }
  }

  /** What the server sends of a tile: its planes, and which of them are not empty. */
  ghost function ServerContent(tile: TileCodec.Tile): (c: Content)
    ensures c.Valid()
  {
    var coefficients := TileCodec.Forward(tile);
    Content(seq(PASS_COUNT, p requires 0 <= p < PASS_COUNT => ExtractPlane(coefficients, p)),
      SparsePasses(coefficients))
  }

  /** The server's bitmap names every pass that has a bit. */
  lemma ServerNamesAll(tile: TileCodec.Tile)
    ensures ServerContent(tile).NamesAll()
  {
    hide TileCodec.Forward, Blank;
    var coefficients := TileCodec.Forward(tile);
    forall i | 0 <= i < PASS_COUNT && i !in SparsePasses(coefficients)
      ensures Blank(ExtractPlane(coefficients, i))
    {
      UnsentIsBlank(coefficients, i);
    }
  }

  lemma ServerPlanes(tile: TileCodec.Tile)
    ensures ServerContent(tile).With({}) == TileCodec.SentPlanes(tile)
  {
    hide TileCodec.Forward, ExtractPlane;
  }

  /** With every named pass of a server-encoded tile in, the picture is that tile, byte for byte. */
  lemma FullPrefixShowsTheTile(tile: TileCodec.Tile, e: Entry)
    requires Coherent(e, ServerContent(tile)) && PrefixOf(e) == PASS_COUNT
    ensures Picture(e) == TileCodec.Bgr(tile)
  {
    var c := ServerContent(tile);
    hide DecodePlanes, AllZero, TileCodec.Inverse, ServerContent, TileCodec.SentPlanes, TileCodec.Bgr, Coherent;
    PrefixOfContent(e, c);
    ServerNamesAll(tile);
    NamesAllIsSteady(c);
    ServerPlanes(tile);
    TileCodec.SparseTileRoundTrip(tile);
    assert c.With({})[..PASS_COUNT] == c.With({}) && {} <= e.received;
  }

}
