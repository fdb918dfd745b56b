/**
 * Exactly which contents a batch shows as one-at-a-time decoding does.
 *
 * A pass the bitmap does not name may arrive; once its prefix has been drawn it
 * is not drawn again, so one at a time it is not seen, while a batch that holds
 * it from the start draws from it. The two agree on every stream of a content if
 * and only if the content is steady: no unnamed pass changes a visible prefix.
 */
module SteadyContents {
  import opened Serial
  import opened Bytes
  import opened BitPlanes
  import opened TileState
  import opened TileDecoder
  import opened Coverage
  import TileCodec

  /** A stream of one content: passes of `c` in any order, any of them any number of times. */
  ghost predicate OneContent(c: Content, t: Key, frameSeq: nat, generation: nat, events: seq<Event>) {
    forall i :: 0 <= i < |events| ==>
      && events[i].Cdf53? && events[i].frameSeq == frameSeq && events[i].tile == t
      && events[i].pass.generation == generation && HonestPass(events[i].pass, c)
      && (events[i].newGeneration <==> i == 0)
  }

  ghost function EmptyBatch(palettes: Palettes): Batch { Batch(map[], palettes, map[], [], []) }

  /** The screen after the stream, taken as one batch and taken one at a time. */
  ghost function Batched(palettes: Palettes, events: seq<Event>): Screen {
    SeenOf(BatchOf(EmptyBatch(palettes), events)).v.screen
  }

  ghost function Singly(palettes: Palettes, events: seq<Event>): Screen { Run(Start(palettes), events).v.screen }

  // ---------------------------------------------------- steady is enough

  ghost function Always(c: Content): Oracle { (t: Key, frameSeq: nat, generation: nat) => c }

  lemma {:induction false} StreamOfOne(c: Content, t: Key, frameSeq: nat, generation: nat, events: seq<Event>)
    requires c.Valid() && c.Steady() && OneContent(c, t, frameSeq, generation, events)
    ensures StreamOk(Always(c), map[], events)
    ensures LabelsAfter(map[], events) == if events == [] then map[] else map[t := (frameSeq, generation)]
  {
    hide Content.Steady, HonestPass;
    if events == [] {
    } else {
      StreamOfOne(c, t, frameSeq, generation, events[..|events| - 1]);
    }
  }

  lemma SteadyAgrees(c: Content, t: Key, frameSeq: nat, generation: nat, palettes: Palettes, events: seq<Event>)
    requires c.Valid() && c.Steady() && OneContent(c, t, frameSeq, generation, events)
    ensures Batched(palettes, events) == Singly(palettes, events)
  {
    StreamOfOne(c, t, frameSeq, generation, events);
    hide StreamOk, BatchOf, Run, OneContent, Content.Steady;
    BatchIsRun(Always(c), map[], EmptyBatch(palettes), Start(palettes), events);
  }

  // ------------------------------------------------ and nothing less is

  /** One content at one tile under one label. */
  datatype Setup = Setup(c: Content, t: Key, frameSeq: nat, generation: nat, palettes: Palettes)
  {
    ghost predicate Valid() { c.Valid() }
  }

  ghost function PassOf(u: Setup, i: nat): Pass
    requires u.Valid() && i < PASS_COUNT
  {
    Pass(u.generation, i, u.c.planes[i], if i == 0 then Some(u.c.passes) else None)
  }

  ghost function EventOf(u: Setup, i: nat, first: bool): Event
    requires u.Valid() && i < PASS_COUNT
  {
    Cdf53(u.frameSeq, u.t, PassOf(u, i), first)
  }

  predicate Indices(list: seq<nat>) { forall i :: 0 <= i < |list| ==> list[i] < PASS_COUNT }

  /** The stream that delivers the passes of `list`. */
  ghost function StreamOf(u: Setup, list: seq<nat>): (r: seq<Event>)
    requires u.Valid() && Indices(list)
    ensures |r| == |list|
  {
    seq(|list|, i requires 0 <= i < |list| => EventOf(u, list[i], i == 0))
  }

  lemma StreamIsOne(u: Setup, list: seq<nat>)
    requires u.Valid() && Indices(list)
    ensures OneContent(u.c, u.t, u.frameSeq, u.generation, StreamOf(u, list))
  {
  }

  lemma StreamNext(u: Setup, list: seq<nat>, i: nat)
    requires u.Valid() && Indices(list) && i < PASS_COUNT
    ensures Indices(list + [i]) && StreamOf(u, list + [i]) == StreamOf(u, list) + [EventOf(u, i, list == [])]
  {
  }

  /** What a decoder holds of the tile after the passes of `list`, before anything is drawn. */
  ghost function Stored(u: Setup, list: seq<nat>): Entry
    requires u.Valid() && Indices(list) && list != []
  {
    var n := |list| - 1;
    Accumulate(if n == 0 then None else Some(Stored(u, list[..n])), PassOf(u, list[n])).0
  }

  ghost function HeldAfter(u: Setup, list: seq<nat>): Option<Entry>
    requires u.Valid() && Indices(list)
  {
    if list == [] then None else Some(Stored(u, list))
  }

  function Elements(list: seq<nat>): set<nat> { set i | i in list }

  lemma StoredNext(u: Setup, list: seq<nat>, i: nat)
    requires u.Valid() && Indices(list) && i < PASS_COUNT
    ensures Indices(list + [i]) && Stored(u, list + [i]) == Accumulate(HeldAfter(u, list), PassOf(u, i)).0
    ensures Elements(list + [i]) == Elements(list) + {i}
  {
    assert (list + [i])[..|list|] == list;
  }

  lemma AccumulateAdds(held: Option<Entry>, p: Pass, c: Content)
    requires HonestPass(p, c) && (held.Some? ==> held.value.generation == p.generation && Coherent(held.value, c))
    ensures var e := Accumulate(held, p).0;
            && Coherent(e, c) && e.generation == p.generation
            && e.received == (if held.Some? then held.value.received else {}) + {p.idx}
            && e.drawn == if held.Some? then held.value.drawn else None
  {
  }

  lemma {:induction false} StoredHolds(u: Setup, list: seq<nat>)
    requires u.Valid() && Indices(list) && list != []
    ensures var e := Stored(u, list);
            Coherent(e, u.c) && e.generation == u.generation && e.received == Elements(list) && e.drawn == None
  {
    hide Accumulate, Coherent;
    var n := |list| - 1;
    assert list == list[..n] + [list[n]];
    StoredNext(u, list[..n], list[n]);
    if n == 0 {
    } else {
      StoredHolds(u, list[..n]);
    }
    AccumulateAdds(HeldAfter(u, list[..n]), PassOf(u, list[n]), u.c);
  }

  // ------------------------------------------------------------ in a batch

  ghost function Waiting(u: Setup, e: Entry): Batch {
    Batch(map[u.t := e], u.palettes, map[u.t := Pending(u.frameSeq, u.generation)], [u.t], [])
  }

  /** A pass that changes its tile, and does not switch its generation, leaves the tile waiting. */
  lemma PassWaits(b: Batch, frameSeq: nat, t: Key, pass: Pass, first: bool)
    requires t in b.pending ==> !first && b.pending[t].generation == pass.generation
    requires Accumulate(if first then None else Lookup(b.tiles, t), pass).1
    ensures Coalesced(b, Cdf53(frameSeq, t, pass, first))
         == b.(tiles := b.tiles[t := Accumulate(if first then None else Lookup(b.tiles, t), pass).0],
               pending := b.pending[t := Pending(frameSeq, pass.generation)],
               order := if t in b.pending then b.order else b.order + [t])
  {
    hide Accumulate, FlushTileOf, FlushAllOf, Lookup, Retain;
  }

  lemma WaitsOn(u: Setup, held: Option<Entry>, i: nat)
    requires u.Valid() && i < PASS_COUNT
    requires held.Some? ==> held.value.drawn == None && held.value.generation == u.generation
    ensures Coalesced(if held.Some? then Waiting(u, held.value) else EmptyBatch(u.palettes), EventOf(u, i, held.None?))
         == Waiting(u, Accumulate(held, PassOf(u, i)).0)
  {
    assert Accumulate(held, PassOf(u, i)).0.drawn == None;
    hide Accumulate, Coalesced, PrefixOf;
    assert Accumulate(held, PassOf(u, i)).1 by { AlwaysChanged(held, PassOf(u, i)); }
    PassWaits(if held.Some? then Waiting(u, held.value) else EmptyBatch(u.palettes), u.frameSeq, u.t, PassOf(u, i),
              held.None?);
  }

  lemma AlwaysChanged(held: Option<Entry>, p: Pass)
    requires held.Some? ==> held.value.drawn == None
    ensures Accumulate(held, p).1
  {
  }

  /** Inside one batch the tile only waits. */
  lemma {:induction false} BatchWaits(u: Setup, list: seq<nat>)
    requires u.Valid() && Indices(list) && list != []
    ensures CoalescedAll(EmptyBatch(u.palettes), StreamOf(u, list)) == Waiting(u, Stored(u, list))
  {
    hide Coalesced, Coherent, Accumulate, StreamOf, EventOf;
    var n := |list| - 1;
    var front := list[..n];
    assert list == front + [list[n]];
    StoredNext(u, front, list[n]);
    StreamNext(u, front, list[n]);
    assert StreamOf(u, list)[..n] == StreamOf(u, front);
    if n == 0 {
      assert StreamOf(u, front) == [];
    } else {
      BatchWaits(u, front);
      StoredHolds(u, front);
    }
    WaitsOn(u, HeldAfter(u, front), list[n]);
  }

  lemma BatchShows(u: Setup, list: seq<nat>)
    requires u.Valid() && Indices(list) && list != [] && Visible(Stored(u, list))
    ensures Batched(u.palettes, StreamOf(u, list)) == map[u.t := (u.frameSeq, CdfPixels(Picture(Stored(u, list))))]
  {
    var e := Stored(u, list);
    hide StreamOf, Stored, CoalescedAll, Reconstruct, Visible, Picture, Coherent;
    StoredHolds(u, list);
    BatchWaits(u, list);
    ReconstructIs(e);
    var b := Waiting(u, e);
    var out := Painted(u.frameSeq, u.t, CdfPixels(Picture(e)));
    assert FlushTileOf(b, u.t).emitted == [out];
    assert b.order[1..] == [] && FlushEach(b, b.order) == FlushTileOf(b, u.t);
    ShowExtends([], out);
    assert [] + [out] == [out];
  }

  // --------------------------------------------------------- one at a time

  /** What one-at-a-time decoding holds and shows of the tile. */
  ghost predicate Shows(u: Setup, s: Simple, held: Option<Entry>, screen: Screen) {
    s.d.tiles == (if held.Some? then map[u.t := held.value] else map[]) && s.v.screen == screen
  }

  lemma StepShows(u: Setup, s: Simple, held: Option<Entry>, screen: Screen, i: nat)
    requires u.Valid() && i < PASS_COUNT && Shows(u, s, held, screen)
    ensures var (e, picture) := SimpleAfter(held, PassOf(u, i));
            Shows(u, Step(s, EventOf(u, i, held.None?)), Some(e),
                  if picture.Some? then screen[u.t := (u.frameSeq, CdfPixels(picture.value))] else screen)
  {
    hide Accumulate, Reconstruct;
  }

  ghost function After(u: Setup, list: seq<nat>): Simple
    requires u.Valid() && Indices(list)
  {
    Run(Start(u.palettes), StreamOf(u, list))
  }

  lemma AfterNext(u: Setup, list: seq<nat>, i: nat)
    requires u.Valid() && Indices(list) && i < PASS_COUNT
    ensures Indices(list + [i]) && After(u, list + [i]) == Step(After(u, list), EventOf(u, i, list == []))
    ensures After(u, []) == Start(u.palettes)
  {
    StreamNext(u, list, i);
    hide StreamOf, EventOf, Step;
    var events := StreamOf(u, list + [i]);
    assert events[..|events| - 1] == StreamOf(u, list);
    assert StreamOf(u, []) == [];
  }

  /** Until pass 0 is in, nothing is drawn. */
  lemma {:induction false} NothingBeforePassZero(u: Setup, list: seq<nat>)
    requires u.Valid() && Indices(list) && 0 !in list
    ensures Shows(u, After(u, list), HeldAfter(u, list), map[])
  {
    hide After, Step, EventOf, Coherent, Visible, Accumulate, SimpleAfter, Stored;
    if list == [] {
      AfterNext(u, [], 0);
    } else {
      var n := |list| - 1;
      var front := list[..n];
      assert list == front + [list[n]];
      NothingBeforePassZero(u, front);
      AfterNext(u, front, list[n]);
      StepShows(u, After(u, front), HeldAfter(u, front), map[], list[n]);
      StoredNext(u, front, list[n]);
      StoredHolds(u, list);
      if n > 0 { StoredHolds(u, front); }
      NoPassNothingVisible(Stored(u, list), u.c);
      UndrawnPass(HeldAfter(u, front), PassOf(u, list[n]));
    }
  }

  /** A pass on a tile not drawn yet draws it exactly if that is visible. */
  lemma UndrawnPass(held: Option<Entry>, p: Pass)
    requires held.Some? ==> held.value.drawn == None && held.value.generation == p.generation
    ensures var e := Accumulate(held, p).0;
            SimpleAfter(held, p) == if Visible(e) then (e.(drawn := Some(PrefixOf(e))), Some(Picture(e))) else (e, None)
  {
    AlwaysChanged(held, p);
    assert Accumulate(held, p).0.drawn == None;
    hide Accumulate, Reconstruct, Visible, Picture;
    ReconstructIs(Accumulate(held, p).0);
  }

  ghost function Drawn(u: Setup, e: Entry): Screen { map[u.t := (u.frameSeq, CdfPixels(Picture(e)))] }

  lemma PassZeroDraws(u: Setup, list: seq<nat>)
    requires u.Valid() && Indices(list) && 0 !in list && Visible(Stored(u, list + [0]))
    ensures var e := Stored(u, list + [0]);
            Shows(u, After(u, list + [0]), Some(e.(drawn := Some(PrefixOf(e)))), Drawn(u, e))
  {
    hide After, Step, EventOf, Coherent, Visible, Picture, Accumulate, SimpleAfter, Stored;
    NothingBeforePassZero(u, list);
    AfterNext(u, list, 0);
    StepShows(u, After(u, list), HeldAfter(u, list), map[], 0);
    StoredNext(u, list, 0);
    if list != [] { StoredHolds(u, list); }
    UndrawnPass(HeldAfter(u, list), PassOf(u, 0));
  }

  /** A tile that has been drawn at a stop is not drawn again for a pass its bitmap does not name. */
  lemma {:induction false} LatePassesUnseen(u: Setup, first: seq<nat>, late: seq<nat>, k: nat, screen: Screen)
    requires u.Valid() && Indices(first) && Indices(late) && 0 in first && forall i :: i in late ==> i !in u.c.passes
    requires PrefixOf(Stored(u, first)) == k
    requires Shows(u, After(u, first), Some(Stored(u, first).(drawn := Some(k))), screen)
    ensures Indices(first + late) && PrefixOf(Stored(u, first + late)) == k
    ensures Shows(u, After(u, first + late), Some(Stored(u, first + late).(drawn := Some(k))), screen)
    decreases |late|
  {
    hide After, Shows, Stored, PrefixOf;
    if late == [] {
      assert first + late == first;
    } else {
      var m := |late| - 1;
      LatePassesUnseen(u, first, late[..m], k, screen);
      LatePassUnseen(u, first + late[..m], late[m], k, screen);
      assert first + late == first + late[..m] + [late[m]];
    }
  }

  lemma LatePassUnseen(u: Setup, list: seq<nat>, i: nat, k: nat, screen: Screen)
    requires u.Valid() && Indices(list) && 0 in list && i < PASS_COUNT && i !in u.c.passes
    requires PrefixOf(Stored(u, list)) == k
    requires Shows(u, After(u, list), Some(Stored(u, list).(drawn := Some(k))), screen)
    ensures Indices(list + [i]) && PrefixOf(Stored(u, list + [i])) == k
    ensures Shows(u, After(u, list + [i]), Some(Stored(u, list + [i]).(drawn := Some(k))), screen)
  {
    hide After, Step, EventOf, Coherent, Accumulate, SimpleAfter, Stored, PrefixOf;
    var e, f := Stored(u, list), Stored(u, list + [i]);
    AfterNext(u, list, i);
    StepShows(u, After(u, list), Some(e.(drawn := Some(k))), screen, i);
    StoredNext(u, list, i);
    StoredHolds(u, list);
    StoredHolds(u, list + [i]);
    SamePrefix(e, f, u.c, i);
    DrawnPass(e, PassOf(u, i), k);
  }

  /** A pass that leaves the prefix of a drawn tile where it was draws nothing. */
  lemma DrawnPass(e: Entry, p: Pass, k: nat)
    requires e.generation == p.generation && PrefixOf(Accumulate(Some(e), p).0) == k
    ensures SimpleAfter(Some(e.(drawn := Some(k))), p) == (Accumulate(Some(e), p).0.(drawn := Some(k)), None)
  {
    AccumulateIgnoresDrawn(e, Some(k), p);
    DrawnIsFree(Accumulate(Some(e), p).0, Some(k));
    hide Reconstruct;
  }

  lemma SamePrefix(e: Entry, f: Entry, c: Content, i: nat)
    requires Coherent(e, c) && Coherent(f, c) && 0 in e.received && f.received == e.received + {i} && i !in c.passes
    ensures PrefixOf(f) == PrefixOf(e)
  {
    PrefixOfContent(e, c);
    PrefixOfContent(f, c);
    PrefixGrows(e.received, e.present, f.received, f.present);
    var k := PrefixOf(e);
    if k < PASS_COUNT { assert !Resolved(e.received, e.present, k) && !Resolved(f.received, f.present, k); }
  }

  /** The prefix stands at `k` once the named passes below it are in and it is not. */
  lemma StandsAt(e: Entry, c: Content, k: nat)
    requires Coherent(e, c) && 0 in e.received && c.Stop(k)
    requires forall i :: i in c.passes && i < k ==> i in e.received
    requires k < PASS_COUNT ==> k !in e.received
    ensures PrefixOf(e) == k
  {
    var p := PrefixOf(e);
    PrefixOfContent(e, c);
    if p < PASS_COUNT { assert !Resolved(e.received, e.present, p); }
    if k < PASS_COUNT { assert !Resolved(e.received, e.present, k); }
  }

  /** What is unnamed, among passes that exist. */
  ghost function Unnamed(c: Content, m: Mask): Mask { set i | i in m && i < PASS_COUNT && i !in c.passes }

  lemma SameFirst(c: Content, a: Mask, b: Mask, k: nat)
    requires c.Valid() && k <= PASS_COUNT && forall i :: 0 <= i < k && i !in c.passes ==> (i in a <==> i in b)
    ensures c.With(a)[..k] == c.With(b)[..k]
  {
  }

  /** The streams that give an unsteady content away: everything but pass 0, pass 0, then the late ones. */
  ghost function FirstList(c: Content, few: Mask, k: nat): seq<nat> {
    Below((set i | i in c.passes && 0 < i < k) + Unnamed(c, few), PASS_COUNT) + [0]
  }

  ghost function LateList(c: Content, few: Mask, more: Mask): seq<nat> { Below(Unnamed(c, more) - few, PASS_COUNT) }

  lemma UnsteadyDiffers(u: Setup, few: Mask, more: Mask, k: nat)
    requires u.Valid() && few <= more && u.c.Stop(k) && k > 0
    requires k == PASS_COUNT || !AllZero(DecodePlanes(u.c.With(few)[..k]))
    requires TileCodec.Inverse(DecodePlanes(u.c.With(more)[..k])) != TileCodec.Inverse(DecodePlanes(u.c.With(few)[..k]))
    ensures var list := FirstList(u.c, few, k) + LateList(u.c, few, more);
            Indices(list) && Batched(u.palettes, StreamOf(u, list)) != Singly(u.palettes, StreamOf(u, list))
  {
    hide Batched, DecodePlanes, AllZero, TileCodec.Inverse, StreamOf, Run, Stored, FirstList, LateList, Coherent;
    var first, late := FirstList(u.c, few, k), LateList(u.c, few, more);
    var whole := first + late;
    Lists(u.c, few, more, k);
    var e, f := Stored(u, first), Stored(u, whole);
    WhatIsHeld(u, first, few, k);
    WhatIsHeld(u, whole, more, k);
    HeldGrows(u, first, whole);
    VisibleGrows(e, f);
    var before := first[..|first| - 1];
    assert first == before + [0];
    PassZeroDraws(u, before);
    LatePassesUnseen(u, first, late, k, Drawn(u, e));
    BatchShows(u, whole);
    assert Singly(u.palettes, StreamOf(u, whole))[u.t] == (u.frameSeq, CdfPixels(Picture(e)));
    assert Batched(u.palettes, StreamOf(u, whole))[u.t] == (u.frameSeq, CdfPixels(Picture(f)));
  }

  lemma WhatIsHeld(u: Setup, list: seq<nat>, extra: Mask, k: nat)
    requires u.Valid() && Indices(list) && list != [] && u.c.Stop(k) && k > 0
    requires forall i :: i in Elements(list) <==> i == 0 || (i in u.c.passes && 0 < i < k) || i in Unnamed(u.c, extra)
    ensures var e := Stored(u, list);
            PrefixOf(e) == k && PrefixPlanes(e) == u.c.With(extra)[..k] && Coherent(e, u.c)
  {
    hide Stored, PrefixPlanes;
    var e := Stored(u, list);
    StoredHolds(u, list);
    StandsAt(e, u.c, k);
    PrefixOfContent(e, u.c);
    SameFirst(u.c, e.received, extra, k);
  }

  lemma HeldGrows(u: Setup, first: seq<nat>, whole: seq<nat>)
    requires u.Valid() && Indices(first) && Indices(whole) && first != [] && first <= whole
    requires PrefixOf(Stored(u, first)) == PrefixOf(Stored(u, whole))
    ensures Extends(Stored(u, first), Stored(u, whole))
  {
    hide Stored, PrefixOf;
    StoredHolds(u, first);
    StoredHolds(u, whole);
    assert forall i :: i in first ==> i in whole;
  }

  lemma Lists(c: Content, few: Mask, more: Mask, k: nat)
    requires c.Valid() && few <= more && c.Stop(k) && k > 0
    ensures var first, late := FirstList(c, few, k), LateList(c, few, more);
            && Indices(first) && Indices(late) && Indices(first + late) && first != []
            && first[|first| - 1] == 0 && 0 !in first[..|first| - 1]
            && (forall i :: i in late ==> i !in c.passes)
            && (forall i :: i in Elements(first) <==> i == 0 || (i in c.passes && 0 < i < k) || i in Unnamed(c, few))
            && (forall i :: i in Elements(first + late) <==>
              i == 0 || (i in c.passes && 0 < i < k) || i in Unnamed(c, more))
  {
    hide Below;
    var first, late := FirstList(c, few, k), LateList(c, few, more);
    var before := first[..|first| - 1];
    assert before == Below((set i | i in c.passes && 0 < i < k) + Unnamed(c, few), PASS_COUNT);
    forall i | 0 <= i < |before| ensures before[i] in before {}
    forall i | 0 <= i < |late| ensures late[i] in late {}
    assert forall i :: i in first <==> i in before || i == 0;
  }

  /**
   * A batch shows what one-at-a-time decoding shows, on every stream of the
   * content, if and only if the content is steady.
   */
  lemma BatchAgreesIffSteady(c: Content, t: Key, frameSeq: nat, generation: nat, palettes: Palettes)
    requires c.Valid()
    ensures c.Steady() <==>
            forall events :: OneContent(c, t, frameSeq, generation, events) ==>
              Batched(palettes, events) == Singly(palettes, events)
  {
    hide Batched, Singly, DecodePlanes, AllZero, TileCodec.Inverse, FirstList, LateList;
    if c.Steady() {
      forall events | OneContent(c, t, frameSeq, generation, events)
        ensures Batched(palettes, events) == Singly(palettes, events)
      {
        SteadyAgrees(c, t, frameSeq, generation, palettes, events);
      }
    } else {
      var few: Mask, more: Mask, k: nat :|
        few <= more && c.Stop(k) && (k == PASS_COUNT || !AllZero(DecodePlanes(c.With(few)[..k]))) &&
        TileCodec.Inverse(DecodePlanes(c.With(more)[..k])) != TileCodec.Inverse(DecodePlanes(c.With(few)[..k]));
      assert c.With(few)[..0] == c.With(more)[..0];
      var u := Setup(c, t, frameSeq, generation, palettes);
      UnsteadyDiffers(u, few, more, k);
      StreamIsOne(u, FirstList(c, few, k) + LateList(c, few, more));
    }
  }

  // ---------------------------------------------------------- and one such

  /** The planes of a tile under a bitmap that names pass 0 alone. */
  ghost function Misnamed(tile: TileCodec.Tile): (c: Content)
    ensures c.Valid()
  {
    ServerContent(tile).(passes := {0})
  }

  /** The picture of no bits at all. */
  ghost function BlankPicture(): seq<byte> { TileCodec.Inverse(DecodePlanes(seq(PASS_COUNT, _ => ZERO_PLANE))) }

  /**
   * Any tile that is not blank, sent whole under a bitmap that names pass 0
   * alone, is such a content: one at a time it is drawn blank at pass 0 and never
   * again; in a batch it is drawn whole.
   */
  lemma MisnamedIsUnsteady(tile: TileCodec.Tile)
    requires TileCodec.Bgr(tile) != BlankPicture()
    ensures !Misnamed(tile).Steady()
  {
    var c := Misnamed(tile);
    hide DecodePlanes, AllZero, TileCodec.Inverse, TileCodec.Bgr, TileCodec.Forward, ServerContent, BlankPicture;
    MisnamedAll(tile);
    MisnamedWhole(tile);
    MisnamedBlank(tile);
    hide Misnamed;
    assert c.With({})[..PASS_COUNT] == c.With({});
    assert {} <= AllPasses() && c.Stop(PASS_COUNT);
  }

  predicate IsPass(i: nat) { i < PASS_COUNT }

  ghost function AllPasses(): Mask { set i | 0 <= i < PASS_COUNT && IsPass(i) }

  lemma MisnamedAll(tile: TileCodec.Tile)
    ensures Misnamed(tile).With(AllPasses())[..PASS_COUNT] == ServerContent(tile).planes
  {
    hide ServerContent;
    var c := Misnamed(tile);
    forall i | 0 <= i < PASS_COUNT
      ensures c.With(AllPasses())[i] == ServerContent(tile).planes[i]
    {
      assert IsPass(i);
    }
  }

  lemma MisnamedWhole(tile: TileCodec.Tile)
    ensures TileCodec.Inverse(DecodePlanes(ServerContent(tile).planes)) == TileCodec.Bgr(tile)
  {
    var c := ServerContent(tile);
    hide DecodePlanes, TileCodec.Inverse, TileCodec.Bgr, TileCodec.SentPlanes, PlaneBit, Blank;
    ServerNamesAll(tile);
    ServerPlanes(tile);
    ZeroPlaneIsBlank();
    TileCodec.SparseTileRoundTrip(tile);
    SameBits(c);
  }

  lemma SameBits(c: Content)
    requires c.Valid() && c.NamesAll() && Blank(ZERO_PLANE)
    ensures DecodePlanes(c.planes) == DecodePlanes(c.With({}))
  {
    hide DecodePlanes, PlaneBit;
    SameBitsDecode(c.planes, c.With({}));
  }

  lemma MisnamedBlank(tile: TileCodec.Tile)
    ensures TileCodec.Inverse(DecodePlanes(Misnamed(tile).With({}))) == BlankPicture()
  {
    hide TileCodec.Inverse, DecodePlanes, ServerContent;
    var planes := Misnamed(tile).With({});
    var zero := seq(PASS_COUNT, _ => ZERO_PLANE);
    assert forall i :: 1 <= i < PASS_COUNT ==> planes[i] == ZERO_PLANE;
    SignsAlone(planes);
    SignsAlone(zero);
    BothZero(planes, zero);
  }

  /** Without magnitude planes every coefficient is zero, whatever its sign. */
  lemma SignsAlone(planes: seq<Plane>)
    requires |planes| == PASS_COUNT && forall i :: 1 <= i < PASS_COUNT ==> planes[i] == ZERO_PLANE
    ensures forall c :: 0 <= c < COEFFS ==> Coefficient(planes, c) == 0
  {
    hide Coefficient, PlaneBit;
    ZeroPlaneIsBlank();
    forall c | 0 <= c < COEFFS ensures Coefficient(planes, c) == 0 { NonZeroIffBit(planes, c); }
  }

  lemma BothZero(a: seq<Plane>, b: seq<Plane>)
    requires |a| == |b| == PASS_COUNT
    requires forall c :: 0 <= c < COEFFS ==> Coefficient(a, c) == 0
    requires forall c :: 0 <= c < COEFFS ==> Coefficient(b, c) == 0
    ensures DecodePlanes(a) == DecodePlanes(b)
  {
    hide Coefficient;
  }

  /** There are such tiles: no two pictures are both blank. */
  lemma SomeTileIsNotBlank() returns (tile: TileCodec.Tile)
    ensures TileCodec.Bgr(tile) != BlankPicture() && !Misnamed(tile).Steady()
  {
    hide BlankPicture, ServerContent, Content.Steady;
    var black: TileCodec.Tile := seq(4096, _ => 0);
    var white: TileCodec.Tile := seq(4096, _ => 255);
    assert TileCodec.Bgr(black)[0] != TileCodec.Bgr(white)[0];
    tile := if TileCodec.Bgr(black) != BlankPicture() then black else white;
    MisnamedIsUnsteady(tile);
  }
}
