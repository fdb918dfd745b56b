/**
 * Core and decoder together, from datagrams to the screen: the datagram that
 * completes a tile makes the client show exactly the server's tile.
 */
module WholeClient {
  import opened Serial
  import opened Bytes
  import opened BitPlanes
  import opened TileState
  import opened TileDecoder
  import opened Coverage
  import opened Reassembly
  import PassWire
  import TileCodec

  /** The server's picture for each tile, frame label and generation. */
  type Pictures = (Key, nat, nat) -> TileCodec.Tile

  ghost function Contents(pictures: Pictures): Oracle {
    (t: Key, frameSeq: nat, generation: nat) => ServerContent(pictures(t, frameSeq, generation))
  }

  /** A checked pass carries the plane, and pass 0 the bitmap, of the server's picture. */
  ghost predicate FromServer(pictures: Pictures, src: Source) {
    src.body.Cdf53Body? && src.body.checked.Some? ==>
      HonestPass(Pass(src.body.generation, src.body.pass, src.body.checked.value.plane, src.body.checked.value.present),
                 ServerContent(pictures(src.tile, src.frameSeq, src.body.generation)))
  }

  /** Every datagram of the run is one the server could have sent, or arrived broken. */
  ghost predicate Honest(pictures: Pictures, run: seq<Arrival>) {
    forall i :: 0 <= i < |run| ==> FromServer(pictures, run[i].src)
  }

  lemma ServerIsSteady(pictures: Pictures, src: Source)
    requires FromServer(pictures, src)
    ensures HonestSource(Contents(pictures), src)
  {
    hide ServerContent, HonestPass, Content.Steady;
    if src.body.Cdf53Body? {
      var picture := pictures(src.tile, src.frameSeq, src.body.generation);
      ServerNamesAll(picture);
      NamesAllIsSteady(ServerContent(picture));
    }
  }

  lemma HonestSources(pictures: Pictures, run: seq<Arrival>)
    requires Honest(pictures, run)
    ensures forall i :: 0 <= i < |run| ==> HonestSource(Contents(pictures), run[i].src)
  {
    hide HonestSource, FromServer;
    forall i | 0 <= i < |run|
      ensures HonestSource(Contents(pictures), run[i].src)
    {
      ServerIsSteady(pictures, run[i].src);
    }
  }

  // ------------------------------------------------------- one decoder run

  /** The decoder kept in step with the core is the one-at-a-time decoder. */
  lemma {:induction false} PixelsRun(px: Pixel, src: Source, events: seq<Event>, s: Simple)
    requires s.d == px.d
    ensures PixelAll(px, src, events).d == Run(s, events).d
    decreases |events|
  {
    hide DecodeOne, Run, Show;
    if events == [] {
      RunNone(s);
    } else {
      var ev := events[0];
      PixelsRun(PixelStep(px, src, ev), src, events[1..], Step(s, ev));
      RunJoins(s, [ev], events[1..]);
      RunOne(s, ev);
      assert [ev] + events[1..] == events;
    }
  }

  ghost function Decoded(palettes: Palettes, run: seq<Arrival>): Simple
    requires ArrivalsOk(run)
  {
    Run(Start(palettes), ClientRun(palettes, run).events)
  }

  lemma {:induction false} DecoderIsRun(palettes: Palettes, run: seq<Arrival>)
    requires ArrivalsOk(run)
    ensures ClientRun(palettes, run).px.d == Decoded(palettes, run).d
  {
    if run == [] {
    } else {
      hide HandleSource, PixelAll;
      var front, a := run[..|run| - 1], run[|run| - 1];
      DecoderIsRun(palettes, front);
      var c := ClientRun(palettes, front);
      var h := HandleSource(c.core, a.src, a.received, a.now);
      PixelsRun(c.px, a.src, h.events, Decoded(palettes, front));
      RunJoins(Start(palettes), c.events, h.events);
    }
  }

  /** With nothing owed, the decoder's entries are those of the contents their labels name. */
  ghost function Alone(labels: Labels, s: Simple): Both { Both(labels, s.d.tiles, map[], s.d.palettes, s.v, s) }

  lemma {:induction false} RunMatches(content: Oracle, palettes: Palettes, events: seq<Event>)
    requires StreamOk(content, map[], events)
    ensures Matches(content, Alone(LabelsAfter(map[], events), Run(Start(palettes), events)))
  {
    if events == [] {
    } else {
      hide Matches, Step;
      var n := |events| - 1;
      RunMatches(content, palettes, events[..n]);
      SettledStep(content, Alone(LabelsAfter(map[], events[..n]), Run(Start(palettes), events[..n])), events[n]);
    }
  }

  // -------------------------------------------------------- the last datagram

  /** Every pass the tile's bitmap names has been received. */
  predicate CompleteAt(core: Core, t: Key) {
    t in core.coverage && core.coverage[t].present.Some? && core.coverage[t].present.value <= core.coverage[t].passMask
  }

  lemma CompleteIsFull(core: Core, tiles: map<Key, Entry>, origin: Origin, t: Key)
    requires Locked(core, tiles, origin) && t in core.coverage
    ensures CompleteAt(core, t) ==> PrefixOf(tiles[t]) == PASS_COUNT
    ensures var present := core.coverage[t].present;
            present.Some? && RealPasses(present.value) && PrefixOf(tiles[t]) == PASS_COUNT ==> CompleteAt(core, t)
  {
    assert LockedAt(core.dims, t, core.coverage[t], tiles[t], origin[t]);
    if core.coverage[t].present.Some? { FullPrefixIff(core.coverage[t].passMask, core.coverage[t].present.value); }
  }

  /** An event that is not a pass of tile `t` leaves its entry alone, or drops it. */
  lemma OtherEventKeeps(d: Decoder, ev: Event, t: Key)
    requires !(ev.Cdf53? && ev.tile == t) && t in DecodeOne(d, ev).0.tiles
    ensures t in d.tiles && DecodeOne(d, ev).0.tiles[t] == d.tiles[t]
  {
  }

  /** A pass that takes a tile's prefix to full shows the server's tile. */
  lemma PassShows(pictures: Pictures, labels: Labels, s: Simple, ev: Event)
    requires Matches(Contents(pictures), Alone(labels, s)) && ev.Cdf53? && EventOk(Contents(pictures), labels, ev)
    requires PrefixOf(DecodeOne(s.d, ev).0.tiles[ev.tile]) == PASS_COUNT
    requires ev.newGeneration || (ev.tile in s.d.tiles && PrefixOf(s.d.tiles[ev.tile]) < PASS_COUNT)
    ensures ev.tile in Step(s, ev).v.screen
    ensures Step(s, ev).v.screen[ev.tile]
         == (ev.frameSeq, CdfPixels(TileCodec.Bgr(pictures(ev.tile, ev.frameSeq, ev.pass.generation))))
  {
    hide Coherent, HonestPass, Accumulate, Reconstruct, ServerContent, Visible, Picture, Content.Steady;
    var t, p := ev.tile, ev.pass;
    var picture := pictures(t, ev.frameSeq, p.generation);
    var held := if ev.newGeneration then None else Lookup(s.d.tiles, t);
    if held.Some? { assert MatchesAt(Contents(pictures), Alone(labels, s), t); }
    SimplePass(held, p, ServerContent(picture));
    CompletingPassShowsTheTile(held, p, picture);
  }

  /** A tile whose prefix was already full was already complete, under the label it had. */
  lemma WasComplete(pictures: Pictures, c: Client, s: Simple, t: Key)
    requires Locked(c.core, c.px.d.tiles, c.px.origin) && s.d == c.px.d
    requires Matches(Contents(pictures), Alone(LabelsOf(c.core.coverage), s))
    requires t in s.d.tiles && PrefixOf(s.d.tiles[t]) == PASS_COUNT
    ensures CompleteAt(c.core, t)
  {
    hide ServerContent, Locked, Content.Steady, Visible, Picture;
    var b := Alone(LabelsOf(c.core.coverage), s);
    assert MatchesAt(Contents(pictures), b, t);
    var at := b.labels[t];
    var picture := pictures(t, at.0, at.1);
    ServerSendsRealPasses(picture);
    NamedOnceFull(s.d.tiles[t], ServerContent(picture));
    assert c.core.coverage[t].present == s.d.tiles[t].present by { LockedPresent(c, t); }
    CompleteIsFull(c.core, c.px.d.tiles, c.px.origin, t);
  }

  lemma LockedPresent(c: Client, t: Key)
    requires Locked(c.core, c.px.d.tiles, c.px.origin) && t in c.core.coverage
    ensures c.core.coverage[t].present == c.px.d.tiles[t].present
  {
    assert LockedAt(c.core.dims, t, c.core.coverage[t], c.px.d.tiles[t], c.px.origin[t]);
  }

  lemma ServerSendsRealPasses(picture: TileCodec.Tile)
    ensures RealPasses(ServerContent(picture).passes)
  {
  }

  lemma NamedOnceFull(e: Entry, c: Content)
    requires Coherent(e, c) && PrefixOf(e) == PASS_COUNT
    ensures e.present == Some(c.passes)
  {
    assert Resolved(e.received, e.present, 0);
  }

  ghost predicate NewlyComplete(before: Core, after: Core, t: Key) {
    CompleteAt(after, t) && (CompleteAt(before, t) ==> LabelsOf(before.coverage)[t] != LabelsOf(after.coverage)[t])
  }

  /** The screen after one datagram. */
  lemma StepShows(pictures: Pictures, c: Client, s: Simple, a: Arrival, t: Key)
    requires SourceOk(a.src) && FromServer(pictures, a.src)
    requires Locked(c.core, c.px.d.tiles, c.px.origin) && s.d == c.px.d
    requires Matches(Contents(pictures), Alone(LabelsOf(c.core.coverage), s))
    requires NewlyComplete(c.core, ClientStep(c, a).core, t)
    ensures var e := ClientStep(c, a).core.coverage[t];
            var v := Run(s, HandleSource(c.core, a.src, a.received, a.now).events).v;
            t in v.screen
              && v.screen[t] == (e.frameSeq, CdfPixels(TileCodec.Bgr(pictures(t, e.frameSeq, e.generation))))
  {
    hide HandleSource, Matches, Locked, DecodeOne, Contents, CompleteAt, EventOk, FromServer, HonestSource;
    var h := HandleSource(c.core, a.src, a.received, a.now);
    var labels := LabelsOf(c.core.coverage);
    LockedShape(c);
    ServerIsSteady(pictures, a.src);
    StepLabels(Contents(pictures), c.core, a.src, a.received, a.now);
    StepLocked(c.core, c.px, a.src, a.received, a.now);
    var after := PixelAll(c.px, a.src, h.events);
    PixelsRun(c.px, a.src, h.events, s);
    assert t in h.core.coverage by { CompleteHasEntry(h.core, t); }
    CompleteIsFull(h.core, after.d.tiles, after.origin, t);
    LockedKeys(h.core, after.d.tiles, after.origin);
    if |h.events| == 1 && h.events[0].Cdf53? && h.events[0].tile == t {
      var ev := h.events[0];
      assert h.events[..0] == [] && Run(s, h.events) == Step(s, ev);
      if !ev.newGeneration {
        LabelsKept(Contents(pictures), labels, ev);
        LockedKeys(c.core, c.px.d.tiles, c.px.origin);
        if PrefixOf(s.d.tiles[t]) == PASS_COUNT { WasComplete(pictures, c, s, t); }
      }
      PassShows(pictures, labels, s, ev);
      assert LabelsOf(h.core.coverage)[t] == (ev.frameSeq, ev.pass.generation);
    } else {
      EntryKept(s, h.events, t);
      LabelKept(labels, h.events, t);
      WasComplete(pictures, c, s, t);
      assert false;
    }
  }

  lemma CompleteHasEntry(core: Core, t: Key)
    requires CompleteAt(core, t)
    ensures t in core.coverage
  {
  }

  lemma LockedKeys(core: Core, tiles: map<Key, Entry>, origin: Origin)
    requires Locked(core, tiles, origin)
    ensures core.coverage.Keys == tiles.Keys
  {
  }

  lemma LockedShape(c: Client)
    requires Locked(c.core, c.px.d.tiles, c.px.origin)
    ensures forall t :: t in c.core.coverage ==> c.core.coverage[t].frameSeq < MOD31 && TileInGrid(c.core.dims, t)
  {
    forall t | t in c.core.coverage
      ensures c.core.coverage[t].frameSeq < MOD31 && TileInGrid(c.core.dims, t)
    {
      assert LockedAt(c.core.dims, t, c.core.coverage[t], c.px.d.tiles[t], c.px.origin[t]);
    }
  }

  lemma LabelsKept(content: Oracle, labels: Labels, ev: Event)
    requires ev.Cdf53? && !ev.newGeneration && EventOk(content, labels, ev)
    ensures ev.tile in labels && labels[ev.tile] == (ev.frameSeq, ev.pass.generation)
  {
  }

  /** Events without a pass of `t`, at most two, leave its entry alone. */
  lemma EntryKept(s: Simple, events: seq<Event>, t: Key)
    requires |events| <= 2 && (|events| == 2 ==> !events[0].Cdf53? && !events[1].Cdf53?)
    requires |events| == 1 ==> !(events[0].Cdf53? && events[0].tile == t)
    requires t in Run(s, events).d.tiles
    ensures t in s.d.tiles && Run(s, events).d.tiles[t] == s.d.tiles[t]
  {
    hide DecodeOne;
    if |events| == 1 {
      assert events[..0] == [];
      OtherEventKeeps(s.d, events[0], t);
    } else if |events| == 2 {
      assert events[..1] == [events[0]] && events[..1][..0] == [] && Run(s, []) == s;
      var mid := Run(s, events[..1]);
      assert mid == Step(s, events[0]);
      OtherEventKeeps(mid.d, events[1], t);
      OtherEventKeeps(s.d, events[0], t);
    }
  }

  /** So do they its label. */
  lemma LabelKept(labels: Labels, events: seq<Event>, t: Key)
    requires |events| == 1 ==> !(events[0].Cdf53? && events[0].tile == t)
    ensures |events| == 1 && t in NextLabels(labels, events[0]) ==>
      t in labels && NextLabels(labels, events[0])[t] == labels[t]
  {
  }

  /**
   * Whatever datagrams came before, lost, repeated, reordered, received or rebuilt:
   * when a datagram completes a tile, the client's screen shows, for that tile,
   * exactly the picture the server encoded under the tile's frame label.
   */
  lemma CompletedTileIsShown(pictures: Pictures, palettes: Palettes, run: seq<Arrival>, last: Arrival, t: Key)
    requires ArrivalsOk(run) && SourceOk(last.src) && Honest(pictures, run) && FromServer(pictures, last.src)
    requires NewlyComplete(ClientRun(palettes, run).core, ClientStep(ClientRun(palettes, run), last).core, t)
    ensures ArrivalsOk(run + [last]) && ClientRun(palettes, run + [last]) == ClientStep(ClientRun(palettes, run), last)
    ensures var e := ClientRun(palettes, run + [last]).core.coverage[t];
            && t in Decoded(palettes, run + [last]).v.screen
            && Decoded(palettes, run + [last]).v.screen[t]
               == (e.frameSeq, CdfPixels(TileCodec.Bgr(pictures(t, e.frameSeq, e.generation))))
  {
    hide HandleSource, Matches, Locked, Contents, Run, NewlyComplete, FromServer, HonestSource;
    HonestSources(pictures, run);
    assert (run + [last])[..|run|] == run;
    var c := ClientRun(palettes, run);
    RunLocked(palettes, run);
    RunStreamOk(Contents(pictures), palettes, run);
    DecoderIsRun(palettes, run);
    RunMatches(Contents(pictures), palettes, c.events);
    StepShows(pictures, c, Decoded(palettes, run), last, t);
    RunJoins(Start(palettes), c.events, HandleSource(c.core, last.src, last.received, last.now).events);
  }

  // --------------------------------------------------------- and stays shown

  /** The tile is complete and the screen shows the server's picture of its label. */
  ghost predicate ShownAt(pictures: Pictures, core: Core, s: Simple, t: Key) {
    && CompleteAt(core, t) && t in s.v.screen
    && var e := core.coverage[t];
       s.v.screen[t] == (e.frameSeq, CdfPixels(TileCodec.Bgr(pictures(t, e.frameSeq, e.generation))))
  }

  /** No event paints tile `t` in another codec. */
  predicate LeavesAlone(events: seq<Event>, t: Key) {
    forall i :: 0 <= i < |events| ==> !((events[i].Solid? || events[i].PalRle?) && events[i].tile == t)
  }

  lemma OtherEventShows(s: Simple, ev: Event, t: Key)
    requires !((ev.Cdf53? || ev.Solid? || ev.PalRle?) && ev.tile == t)
    ensures Lookup(Step(s, ev).v.screen, t) == Lookup(s.v.screen, t)
  {
    hide Accumulate, Reconstruct;
  }

  lemma HeldFacts(pictures: Pictures, labels: Labels, s: Simple, t: Key)
    requires Matches(Contents(pictures), Alone(labels, s)) && t in s.d.tiles
    ensures t in labels
    ensures var e, at := s.d.tiles[t], labels[t];
            Coherent(e, ServerContent(pictures(t, at.0, at.1))) && e.generation == at.1 && e.drawn == DrawnOnce(e)
  {
    hide Coherent, ServerContent, Visible, Content.Steady;
    assert MatchesAt(Contents(pictures), Alone(labels, s), t);
  }

  /** A pass of the same content on a tile already full draws nothing. */
  lemma FullStaysDrawn(pictures: Pictures, labels: Labels, s: Simple, ev: Event)
    requires Matches(Contents(pictures), Alone(labels, s)) && ev.Cdf53? && EventOk(Contents(pictures), labels, ev)
    requires !ev.newGeneration && ev.tile in s.d.tiles && PrefixOf(s.d.tiles[ev.tile]) == PASS_COUNT
    ensures Step(s, ev).v == s.v
  {
    hide Coherent, HonestPass, Accumulate, Reconstruct, ServerContent, Picture, Content.Steady, PrefixOf, Matches;
    hide TileMatches;
    var t, p := ev.tile, ev.pass;
    var held := s.d.tiles[t];
    var c := ServerContent(pictures(t, ev.frameSeq, p.generation));
    HeldFacts(pictures, labels, s, t);
    SimplePass(Some(held), p, c);
    AccumulateKeepsCoherent(Some(held), p, c);
    ExtendsPrefix(held, Accumulate(Some(held), p).0);
    assert Visible(held);
  }

  /** Events that paint nothing over `t`, at most two, leave what is shown of it. */
  lemma ScreenKept(s: Simple, events: seq<Event>, t: Key)
    requires |events| <= 2 && LeavesAlone(events, t) && (|events| == 2 ==> !events[0].Cdf53? && !events[1].Cdf53?)
    requires |events| == 1 ==> !(events[0].Cdf53? && events[0].tile == t)
    ensures Lookup(Run(s, events).v.screen, t) == Lookup(s.v.screen, t)
  {
    hide Step;
    if |events| == 1 {
      assert events[..0] == [];
      OtherEventShows(s, events[0], t);
    } else if |events| == 2 {
      assert events[..1] == [events[0]] && events[..1][..0] == [] && Run(s, []) == s;
      OtherEventShows(s, events[0], t);
      OtherEventShows(Run(s, events[..1]), events[1], t);
    }
  }

  /** A further datagram that neither paints over the tile nor gives it another label leaves it shown. */
  lemma StepKeepsShown(pictures: Pictures, c: Client, s: Simple, a: Arrival, t: Key)
    requires SourceOk(a.src) && FromServer(pictures, a.src)
    requires Locked(c.core, c.px.d.tiles, c.px.origin) && s.d == c.px.d
    requires Matches(Contents(pictures), Alone(LabelsOf(c.core.coverage), s)) && ShownAt(pictures, c.core, s, t)
    requires CompleteAt(ClientStep(c, a).core, t)
    requires LabelsOf(ClientStep(c, a).core.coverage)[t] == LabelsOf(c.core.coverage)[t]
    requires LeavesAlone(HandleSource(c.core, a.src, a.received, a.now).events, t)
    ensures ShownAt(pictures, ClientStep(c, a).core, Run(s, HandleSource(c.core, a.src, a.received, a.now).events), t)
  {
    hide HandleSource, Matches, Locked, DecodeOne, Contents, EventOk, FromServer, HonestSource, LeavesAlone;
    hide TileCodec.Bgr;
    var h := HandleSource(c.core, a.src, a.received, a.now);
    var labels := LabelsOf(c.core.coverage);
    LockedShape(c);
    ServerIsSteady(pictures, a.src);
    StepLabels(Contents(pictures), c.core, a.src, a.received, a.now);
    CompleteIsFull(c.core, c.px.d.tiles, c.px.origin, t);
    LockedKeys(c.core, c.px.d.tiles, c.px.origin);
    if |h.events| == 1 && h.events[0].Cdf53? && h.events[0].tile == t {
      var ev := h.events[0];
      assert h.events[..0] == [] && Run(s, h.events) == Step(s, ev);
      if ev.newGeneration {
        ShownAgain(pictures, c, s, a, t);
      } else {
        LabelsKept(Contents(pictures), labels, ev);
        FullStaysDrawn(pictures, labels, s, ev);
      }
      assert LabelsOf(h.core.coverage)[t] == (ev.frameSeq, ev.pass.generation);
    } else {
      ScreenKept(s, h.events, t);
    }
  }

  /** A tile begun anew under its old label, and complete at once, is shown anew. */
  lemma ShownAgain(pictures: Pictures, c: Client, s: Simple, a: Arrival, t: Key)
    requires SourceOk(a.src) && FromServer(pictures, a.src)
    requires Locked(c.core, c.px.d.tiles, c.px.origin) && s.d == c.px.d
    requires Matches(Contents(pictures), Alone(LabelsOf(c.core.coverage), s))
    requires CompleteAt(ClientStep(c, a).core, t)
    requires var events := HandleSource(c.core, a.src, a.received, a.now).events;
             |events| == 1 && events[0].Cdf53? && events[0].tile == t && events[0].newGeneration
    ensures var ev := HandleSource(c.core, a.src, a.received, a.now).events[0];
            t in Step(s, ev).v.screen && Step(s, ev).v.screen[t]
              == (ev.frameSeq, CdfPixels(TileCodec.Bgr(pictures(t, ev.frameSeq, ev.pass.generation))))
  {
    hide HandleSource, Matches, Locked, DecodeOne, Contents, EventOk, FromServer, HonestSource, TileCodec.Bgr;
    var h := HandleSource(c.core, a.src, a.received, a.now);
    LockedShape(c);
    ServerIsSteady(pictures, a.src);
    StepLabels(Contents(pictures), c.core, a.src, a.received, a.now);
    StepLocked(c.core, c.px, a.src, a.received, a.now);
    var after := PixelAll(c.px, a.src, h.events);
    PixelsRun(c.px, a.src, h.events, s);
    assert h.events[..0] == [] && Run(s, h.events) == Step(s, h.events[0]);
    CompleteIsFull(h.core, after.d.tiles, after.origin, t);
    PassShows(pictures, LabelsOf(c.core.coverage), s, h.events[0]);
  }

  /** A valid pass is taken for tile `t` when the label the tile holds has expired: its coverage begins anew. */
  predicate BeginsAnew(core: Core, src: Source, received: bool, t: Key)
    requires src.frameSeq < MOD31
  {
    && src.body.Cdf53Body? && src.body.checked.Some? && src.single && src.tile == t
    && TileInGrid(core.dims, t) && t in core.coverage
    && LabelExpired(core.coverage[t].frameSeq, NewestAfter(core, src, received))
    && !LabelRunsAhead(src.frameSeq, NewestAfter(core, src, received))
  }

  /** A bitmap that comes for the content the tile holds is the one it has. */
  ghost predicate SameBitmap(core: Core, src: Source, t: Key) {
    src.body.Cdf53Body? && src.tile == t && t in core.coverage && src.body.checked.Some? &&
    src.body.checked.value.present.Some? && LabelsOf(core.coverage)[t] == (src.frameSeq, src.body.generation) ==>
      src.body.checked.value.present == core.coverage[t].present
  }

  /** What a pass of its tile does to a complete tile that keeps its label. */
  lemma PassStaysComplete(core: Core, src: Source, now: nat)
    requires SourceOk(src) && src.body.Cdf53Body? && CompleteAt(core, src.tile) && SameBitmap(core, src, src.tile)
    requires core.coverage[src.tile].frameSeq < MOD31
    requires var after := DeliverPass(core, src, now).core.coverage;
             src.tile in after && LabelsOf(after)[src.tile] == LabelsOf(core.coverage)[src.tile]
    ensures var anew := && src.body.checked.Some? && LabelExpired(core.coverage[src.tile].frameSeq, core.newest)
                        && !LabelRunsAhead(src.frameSeq, core.newest);
            CompleteAt(DeliverPass(core, src, now).core, src.tile)
            <==> anew ==> var present := src.body.checked.value.present;
                          present.Some? && present.value <= {src.body.pass}
  {
    hide ApplyArrival, LabelExpired, LabelRunsAhead, ClassifyArrival;
    var b, prev := src.body, Held(core, src.tile);
    var present := if b.checked.Some? then b.checked.value.present else None;
    var order := Order(prev, b.generation, src.frameSeq);
    if order != Stale || prev.None? {
      ArrivalLabel(prev, b.generation, b.pass, src.frameSeq, now, b.checked.Some?, present);
      if order == Current {
        CurrentIsSame(prev.value, b.generation, src.frameSeq);
        ArrivalGrows(prev.value, b.generation, b.pass, src.frameSeq, now, b.checked.Some?, present);
      } else if b.checked.Some? {
        ArrivalBegins(prev, b.generation, b.pass, src.frameSeq, now, present);
        if prev.Some? { SameIsCurrent(prev.value, b.generation, src.frameSeq); }
      }
    }
  }

  lemma SameIsCurrent(e: CoverageEntry, generation: nat, frameSeq: nat)
    ensures e.frameSeq == frameSeq && e.generation == generation ==> Order(Some(e), generation, frameSeq) == Current
  {
  }

  /**
   * A complete tile that keeps its label through a datagram stays complete, unless the
   * datagram begins its coverage anew and does not complete it by itself.
   */
  lemma StaysCompleteIff(core: Core, src: Source, received: bool, now: nat, t: Key)
    requires SourceOk(src) && CompleteAt(core, t) && SameBitmap(core, src, t) && core.coverage[t].frameSeq < MOD31
    requires var after := HandleSource(core, src, received, now).core.coverage;
             t in after && LabelsOf(after)[t] == LabelsOf(core.coverage)[t]
    ensures CompleteAt(HandleSource(core, src, received, now).core, t)
       <==> BeginsAnew(core, src, received, t) ==>
              var present := src.body.checked.value.present;
              present.Some? && present.value <= {src.body.pass}
  {
    hide DeliverPass, LabelExpired, LabelRunsAhead, IsNewer, TileInGrid;
    if src.body.Cdf53Body? && src.single && TileInGrid(core.dims, src.tile) {
      var at := core.(newest := NewestAfter(core, src, received));
      if src.tile == t { PassStaysComplete(at, src, now); } else { PassElsewhere(at, src, now, t); }
    }
  }

  lemma PassElsewhere(core: Core, src: Source, now: nat, t: Key)
    requires src.body.Cdf53Body? && src.tile != t && t in core.coverage
    ensures t in DeliverPass(core, src, now).core.coverage
    ensures DeliverPass(core, src, now).core.coverage[t] == core.coverage[t]
  {
    hide ApplyArrival, LabelExpired, LabelRunsAhead, ClassifyArrival;
  }

  /** Of honest datagrams the bitmap is the same. */
  lemma HonestBitmap(pictures: Pictures, c: Client, s: Simple, src: Source, t: Key)
    requires Locked(c.core, c.px.d.tiles, c.px.origin) && s.d == c.px.d
    requires Matches(Contents(pictures), Alone(LabelsOf(c.core.coverage), s))
    requires FromServer(pictures, src) && CompleteAt(c.core, t)
    ensures SameBitmap(c.core, src, t)
  {
    hide ServerContent, Locked, Matches, Content.Steady;
    LockedKeys(c.core, c.px.d.tiles, c.px.origin);
    HeldFacts(pictures, LabelsOf(c.core.coverage), s, t);
    CompleteIsFull(c.core, c.px.d.tiles, c.px.origin, t);
    var at := LabelsOf(c.core.coverage)[t];
    NamedOnceFull(s.d.tiles[t], ServerContent(pictures(t, at.0, at.1)));
    LockedPresent(c, t);
  }

  /**
   * A tile once shown stays shown, whatever else arrives, for as long as it keeps its
   * label, no other codec paints it and its coverage does not begin anew.
   */
  lemma {:induction false} CompletedTileStays(
    pictures: Pictures, palettes: Palettes, run: seq<Arrival>, later: seq<Arrival>, t: Key)
    requires ArrivalsOk(run + later) && ArrivalsOk(run) && Honest(pictures, run + later)
    requires ShownAt(pictures, ClientRun(palettes, run).core, Decoded(palettes, run), t)
    requires forall n :: 0 <= n <= |later| ==> Undisturbed(palettes, run, later[..n], t)
    ensures ShownAt(pictures, ClientRun(palettes, run + later).core, Decoded(palettes, run + later), t)
    decreases |later|
  {
    hide ClientRun, ShownAt, Decoded, FromServer, Undisturbed;
    if later == [] {
      assert run + later == run;
    } else {
      var m := |later| - 1;
      assert forall n :: 0 <= n <= m ==> later[..m][..n] == later[..n];
      assert (run + later)[..|run| + m] == run + later[..m];
      assert forall i :: 0 <= i < |run + later[..m]| ==> (run + later[..m])[i] == (run + later)[i];
      CompletedTileStays(pictures, palettes, run, later[..m], t);
      assert later[..|later|] == later;
      assert later == later[..m] + [later[m]];
      OneLater(pictures, palettes, run, later[..m], later[m], t);
    }
  }

  /**
   * The tile has the label it had at `run`, and the last datagram neither painted over it
   * nor began its coverage anew.
   */
  ghost predicate Undisturbed(palettes: Palettes, run: seq<Arrival>, later: seq<Arrival>, t: Key) {
    ArrivalsOk(run) && ArrivalsOk(run + later) &&
    var c, was := ClientRun(palettes, run + later), ClientRun(palettes, run);
    && t in c.core.coverage && t in was.core.coverage
    && LabelsOf(c.core.coverage)[t] == LabelsOf(was.core.coverage)[t]
    && (later != [] ==>
          var n := |later| - 1;
          ArrivalsOk(run + later[..n]) &&
          var before, a := ClientRun(palettes, run + later[..n]).core, later[n];
          && LeavesAlone(HandleSource(before, a.src, a.received, a.now).events, t)
          && !BeginsAnew(before, a.src, a.received, t))
  }

  lemma OneLater(
    pictures: Pictures, palettes: Palettes, run: seq<Arrival>, front: seq<Arrival>, a: Arrival, t: Key)
    requires ArrivalsOk(run + front) && ArrivalsOk(run + (front + [a])) && Honest(pictures, run + (front + [a]))
    requires Undisturbed(palettes, run, front, t) && Undisturbed(palettes, run, front + [a], t)
    requires ShownAt(pictures, ClientRun(palettes, run + front).core, Decoded(palettes, run + front), t)
    ensures ShownAt(pictures, ClientRun(palettes, run + (front + [a])).core, Decoded(palettes, run + (front + [a])), t)
  {
    hide ClientRun, HandleSource, Matches, Locked, Contents, Run, FromServer, ShownAt, CompleteAt, Decoded;
    hide BeginsAnew, LeavesAlone, SameBitmap;
    var before := run + front;
    var c, s := ClientRun(palettes, before), Decoded(palettes, before);
    assert (front + [a])[..|front|] == front && (front + [a])[|front|] == a;
    assert run + (front + [a]) == before + [a] && (before + [a])[|before|] == a;
    assert forall i :: 0 <= i < |before| ==> (before + [a])[i] == before[i];
    assert FromServer(pictures, (before + [a])[|before|].src);
    Facts(pictures, palettes, before);
    StepsOn(palettes, before, a);
    assert CompleteAt(c.core, t) by { ShownIsComplete(pictures, c.core, s, t); }
    HonestBitmap(pictures, c, s, a.src, t);
    LockedShape(c);
    StaysCompleteIff(c.core, a.src, a.received, a.now, t);
    StepKeepsShown(pictures, c, s, a, t);
  }

  lemma ShownIsComplete(pictures: Pictures, core: Core, s: Simple, t: Key)
    requires ShownAt(pictures, core, s, t)
    ensures CompleteAt(core, t) && t in core.coverage
  {
  }

  lemma StepsOn(palettes: Palettes, run: seq<Arrival>, a: Arrival)
    requires ArrivalsOk(run) && ArrivalsOk(run + [a])
    ensures ClientRun(palettes, run + [a]) == ClientStep(ClientRun(palettes, run), a)
    ensures var c := ClientRun(palettes, run);
            Decoded(palettes, run + [a])
              == Run(Decoded(palettes, run), HandleSource(c.core, a.src, a.received, a.now).events)
  {
    hide HandleSource, Run;
    assert (run + [a])[..|run|] == run && SourceOk((run + [a])[|run|].src);
    var c := ClientRun(palettes, run);
    RunJoins(Start(palettes), c.events, HandleSource(c.core, a.src, a.received, a.now).events);
  }

  /** What every honest run has established. */
  lemma Facts(pictures: Pictures, palettes: Palettes, run: seq<Arrival>)
    requires ArrivalsOk(run) && Honest(pictures, run)
    ensures var c := ClientRun(palettes, run); var s := Decoded(palettes, run);
            && Locked(c.core, c.px.d.tiles, c.px.origin) && s.d == c.px.d
            && Matches(Contents(pictures), Alone(LabelsOf(c.core.coverage), s))
  {
    hide HandleSource, Matches, Locked, Contents, Run, FromServer, HonestSource, ClientRun;
    HonestSources(pictures, run);
    RunLocked(palettes, run);
    RunStreamOk(Contents(pictures), palettes, run);
    DecoderIsRun(palettes, run);
    RunMatches(Contents(pictures), palettes, ClientRun(palettes, run).events);
  }

  // ------------------------------------------------------ from payload bytes

  /** The bitmap as a 16-bit number, and back. */
  ghost function BitmapOf(m: Mask): nat { PackBits(seq(16, i requires 0 <= i < 16 => i in m)) }

  ghost function MaskOf(bitmap: nat): Mask { set i | 0 <= i < 16 && BitAt(bitmap, i) }

  lemma BitmapRoundTrip(m: Mask)
    requires RealPasses(m) && 0 in m
    ensures BitmapOf(m) < 0x1_0000 && BitmapOf(m) % 2 == 1 && MaskOf(BitmapOf(m)) == m
  {
    var bits := seq(16, i requires 0 <= i < 16 => i in m);
    assert Pow2(8) == 256 && Pow2(10) == 1024 && Pow2(12) == 4096 && Pow2(14) == 16384 && Pow2(16) == 0x1_0000;
    forall i | 0 <= i < 16 ensures BitAt(PackBits(bits), i) <==> i in m { PackedBit(bits, i); }
    assert BitAt(PackBits(bits), 0);
    assert MaskOf(BitmapOf(m)) == m;
  }

  /** A pass datagram as the client reads it from its payload bytes. */
  ghost function SourceOf(frameSeq: nat, t: Key, generation: nat, pass: nat, payload: seq<byte>): Source {
    var r := PassWire.Prevalidated(payload, pass);
    Source(frameSeq, t, true, Cdf53Body(generation, pass,
      if r.Err? then None
      else Some(Checked(r.value.1, if r.value.0.Some? then Some(MaskOf(r.value.0.value)) else None))))
  }

  /** The payload the server makes for one pass of a picture. */
  ghost function ServerPayload(picture: TileCodec.Tile, pass: nat): seq<byte>
    requires pass < PASS_COUNT
  {
    var c := ServerContent(picture);
    ServerSendsRealPasses(picture);
    BitmapRoundTrip(c.passes);
    var plane := ExtractPlane(TileCodec.Forward(picture), pass);
    PassWire.PassPayload(pass, BitmapOf(c.passes), plane[..128], plane[128..256], plane[256..])
  }

  /** The pass datagram is the server's payload with anything after it, or bytes that fail the check. */
  ghost predicate SentOrBroken(pictures: Pictures, src: Source) {
    src.body.Cdf53Body? && src.body.checked.Some? ==>
      && src.body.pass < PASS_COUNT
      && exists trailing ::
           src == SourceOf(src.frameSeq, src.tile, src.body.generation, src.body.pass,
             ServerPayload(pictures(src.tile, src.frameSeq, src.body.generation), src.body.pass) + trailing)
  }

  lemma ServerPayloadReads(
    picture: TileCodec.Tile, frameSeq: nat, t: Key, generation: nat, pass: nat, trailing: seq<byte>)
    requires pass < PASS_COUNT
    ensures var src := SourceOf(frameSeq, t, generation, pass, ServerPayload(picture, pass) + trailing);
            var c := ServerContent(picture);
            && src.frameSeq == frameSeq && src.tile == t && src.body.generation == generation && src.body.pass == pass
            && src.body.checked == Some(Checked(c.planes[pass], if pass == 0 then Some(c.passes) else None))
  {
    var c := ServerContent(picture);
    var plane := ExtractPlane(TileCodec.Forward(picture), pass);
    assert c.planes[pass] == plane;
    hide TileCodec.Forward, ExtractPlane, PassWire.PassPayload, PassWire.Prevalidated, BitmapOf, MaskOf, ServerContent;
    ServerSendsRealPasses(picture);
    BitmapRoundTrip(c.passes);
    ThreeChannels(plane);
    PassWire.PassRoundTrip(pass, BitmapOf(c.passes), plane[..128], plane[128..256], plane[256..], trailing);
  }

  lemma ThreeChannels(plane: Plane)
    requires |plane| == PLANE_BYTES
    ensures plane == plane[..128] + plane[128..256] + plane[256..]
  {
  }

  /** Datagrams whose bytes are the server's, or fail the check, are what the theorems above ask for. */
  lemma BytesAreHonest(pictures: Pictures, src: Source)
    requires SentOrBroken(pictures, src)
    ensures FromServer(pictures, src)
  {
    hide ServerContent, SourceOf, ServerPayload;
    if src.body.Cdf53Body? && src.body.checked.Some? {
      var picture := pictures(src.tile, src.frameSeq, src.body.generation);
      var trailing :|
        src == SourceOf(src.frameSeq, src.tile, src.body.generation, src.body.pass,
          ServerPayload(picture, src.body.pass) + trailing);
      ServerPayloadReads(picture, src.frameSeq, src.tile, src.body.generation, src.body.pass, trailing);
    }
  }

  /** The batch decoder, over any division of the run's events into batches, shows the same screen. */
  method DecodeSession(palettes: Palettes, batches: seq<seq<Event>>, ghost pictures: Pictures, ghost run: seq<Arrival>)
    returns (d: TileDecoder)
    requires ArrivalsOk(run) && Honest(pictures, run) && Flatten(batches) == ClientRun(palettes, run).events
    ensures d.Settled() && d.Shown() == Decoded(palettes, run).v
    ensures Decoder(d.tiles, d.palettes) == Decoded(palettes, run).d
  {
    hide ClientRun, Run, StreamOk, Contents, HonestSource, FromServer, ShowAll, Matches;
    HonestSources(pictures, run);
    RunStreamOk(Contents(pictures), palettes, run);
    d := new TileDecoder(palettes, Contents(pictures));
    d.DecodeBatches(batches);
    assert [] + Flatten(batches) == Flatten(batches);
  }
}
