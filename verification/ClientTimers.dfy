/**
 * The client core's clockwork: the queue of requests for lost passes, the tail
 * sweep, the batchers and the deadline the host is told to call back at.
 *
 * Requests wait in an ordered map keyed pass first, so that they leave pass by
 * pass. Ghost state records every coverage entry a tile has held and every pass that
 * arrived broken, the grounds of all requests; `transcript` is everything ever put in
 * the outbox.
 */
module ClientTimers {
  import opened Serial
  import opened TileState
  import opened Coverage
  import opened TailSweep
  import opened Batchers
  import opened FrameAcks
  import TileDecoder
  import R = Reassembly

  const NACK_DEBOUNCE_US: nat := 50_000
  const TAIL_SWEEP_INTERVAL_US: nat := 500_000
  const FEEDBACK_INTERVAL_US: nat := 100_000

  type Tile = (nat, nat)
  type Request = R.Request
  type NackKey = (nat, nat, nat)
  type Pending = map<NackKey, Request>

  /** Pass, then row, then column. */
  function KeyOf(r: Request): NackKey { (r.pass, r.tile.1, r.tile.0) }

  function TileOf(k: NackKey): Tile { (k.2, k.1) }

  predicate Precedes(a: NackKey, b: NackKey) {
    a.0 < b.0 || (a.0 == b.0 && (a.1 < b.1 || (a.1 == b.1 && a.2 < b.2)))
  }

  predicate KeysOk(pending: Pending) { forall k :: k in pending ==> KeyOf(pending[k]) == k }

  /** One request per tile and pass; a later one for the same pass is dropped, label and all. */
  function Enqueue(pending: Pending, r: Request): Pending {
    if KeyOf(r) in pending then pending else pending[KeyOf(r) := r]
  }

  // ---------------------------------------------------------- key order

  ghost predicate Ascending(rs: seq<Request>) {
    forall i, j :: 0 <= i < j < |rs| ==> Precedes(KeyOf(rs[i]), KeyOf(rs[j]))
  }

  /** Every request that waits, in the order of their keys. */
  ghost predicate InKeyOrder(pending: Pending, rs: seq<Request>) {
    Ascending(rs) && forall r: Request :: r in rs <==> KeyOf(r) in pending && pending[KeyOf(r)] == r
  }

  lemma InsertedAscending(rs: seq<Request>, r: Request, i: nat)
    requires Ascending(rs) && i <= |rs| && (i == 0 || Precedes(KeyOf(rs[i - 1]), KeyOf(r)))
    requires forall j :: i <= j < |rs| ==> Precedes(KeyOf(r), KeyOf(rs[j]))
    ensures Ascending(rs[..i] + [r] + rs[i..])
  {
    var now := rs[..i] + [r] + rs[i..];
    forall a, b | 0 <= a < b < |now|
      ensures Precedes(KeyOf(now[a]), KeyOf(now[b]))
    {
      var u := if a < i then rs[a] else if a == i then r else rs[a - 1];
      var v := if b < i then rs[b] else if b == i then r else rs[b - 1];
      assert now[a] == u && now[b] == v;
    }
  }

  method InsertInOrder(rs: seq<Request>, r: Request) returns (now: seq<Request>)
    requires Ascending(rs) && forall i :: 0 <= i < |rs| ==> KeyOf(rs[i]) != KeyOf(r)
    ensures Ascending(now) && forall s: Request :: s in now <==> s in rs || s == r
  {
    hide Ascending;
    var i: nat := |rs|;
    while i > 0 && Precedes(KeyOf(r), KeyOf(rs[i - 1]))
      invariant i <= |rs| && forall j :: i <= j < |rs| ==> Precedes(KeyOf(r), KeyOf(rs[j]))
    {
      i := i - 1;
    }
    InsertedAscending(rs, r, i);
    now := rs[..i] + [r] + rs[i..];
    assert rs == rs[..i] + rs[i..];
  }

  /** The values of the ordered map, by ascending key. */
  method IntoValues(pending: Pending) returns (rs: seq<Request>)
    requires KeysOk(pending)
    ensures InKeyOrder(pending, rs)
  {
    hide Ascending, KeyOf;
    rs := [];
    assert Ascending(rs) by { EmptyAscending(); }
    var rest := pending.Keys;
    while rest != {}
      invariant rest <= pending.Keys && Ascending(rs)
      invariant forall r: Request :: r in rs <==> KeyOf(r) in pending && KeyOf(r) !in rest && pending[KeyOf(r)] == r
    {
      var k :| k in rest;
      rs := InsertInOrder(rs, pending[k]);
      rest := rest - {k};
    }
  }

  lemma EmptyAscending()
    ensures Ascending([])
  {
  }

  // ----------------------------------------------------------- grounds

  /** Every coverage entry a tile has held, and every pass that arrived broken. */
  datatype Past = Past(held: set<(Tile, CoverageEntry)>, broken: set<R.Source>)

  ghost function Entries(coverage: map<Tile, CoverageEntry>): set<(Tile, CoverageEntry)> {
    set t | t in coverage :: (t, coverage[t])
  }

  predicate IsBroken(src: R.Source) { src.body.Cdf53Body? && src.body.checked.None? }

  /** The entry is owed the pass, has not received it, and has seen a pass at least as high. */
  ghost predicate ShowsGap(e: CoverageEntry, r: Request) {
    && r.frameSeq == e.frameSeq && r.pass in Owed(e) && r.pass !in e.passMask
    && e.highestPassSeen.Some? && r.pass <= e.highestPassSeen.value
  }

  function AskedBy(src: R.Source): Request
    requires src.body.Cdf53Body?
  {
    R.Request(src.frameSeq, src.tile, src.body.pass)
  }

  /** The request is for a gap of content its tile really held, or for the very pass that arrived broken. */
  ghost predicate Justified(past: Past, r: Request) {
    || (exists e :: (r.tile, e) in past.held && ShowsGap(e, r))
    || (exists src :: src in past.broken && IsBroken(src) && r == AskedBy(src))
  }

  ghost predicate Grounded(past: Past, pending: Pending) {
    KeysOk(pending) && forall k :: k in pending ==> Justified(past, pending[k])
  }

  /** Everything sent is a justified request, with the label flagged for the wire. */
  ghost predicate SentJustified(past: Past, sent: seq<Request>) { forall s :: s in sent ==> FlaggedFor(past, s) }

  ghost predicate FlaggedFor(past: Past, s: Request) { exists r :: Justified(past, r) && s == Flagged(r) }

  ghost predicate Grows(was: Past, past: Past) { was.held <= past.held && was.broken <= past.broken }

  lemma JustifiedStays(was: Past, past: Past, r: Request)
    requires Grows(was, past) && Justified(was, r)
    ensures Justified(past, r)
  {
    if e :| (r.tile, e) in was.held && ShowsGap(e, r) {
      assert (r.tile, e) in past.held;
    } else {
      var src :| src in was.broken && IsBroken(src) && r == AskedBy(src);
      assert src in past.broken;
    }
  }

  lemma GroundedStays(was: Past, past: Past, pending: Pending)
    requires Grows(was, past) && Grounded(was, pending)
    ensures Grounded(past, pending)
  {
    hide Justified, Grows;
    forall k | k in pending ensures Justified(past, pending[k]) { JustifiedStays(was, past, pending[k]); }
  }

  lemma SentStays(was: Past, past: Past, sent: seq<Request>)
    requires Grows(was, past) && SentJustified(was, sent)
    ensures SentJustified(past, sent)
  {
    hide Justified, Grows;
    forall s | s in sent
      ensures FlaggedFor(past, s)
    {
      assert FlaggedFor(was, s);
      var r :| Justified(was, r) && s == Flagged(r);
      JustifiedStays(was, past, r);
    }
  }

  /** What a flush sends of a grounded queue is justified. */
  lemma FlushJustified(
    past: Past, coverage: map<Tile, CoverageEntry>, pending: Pending, rs: seq<Request>, sent: seq<Request>)
    requires Grounded(past, pending) && InKeyOrder(pending, rs) && SentJustified(past, sent)
    ensures SentJustified(past, sent + ToSend(coverage, rs))
  {
    hide Justified, ToSend, PassMajor;
    SentExactly(coverage, rs);
    forall s | s in ToSend(coverage, rs)
      ensures FlaggedFor(past, s)
    {
      var r :| r in rs && SendsFor(coverage, r, s);
      assert s == Flagged(r);
      assert Justified(past, pending[KeyOf(r)]);
    }
  }

  /** While its bitmap is unknown an entry lacks pass 0, and its label is a 31-bit number. */
  predicate EntryOk(e: CoverageEntry) { BitmapWithPassZero(e) && e.frameSeq < MOD31 }

  ghost predicate EntriesOk(coverage: map<Tile, CoverageEntry>) {
    forall t :: t in coverage ==> EntryOk(coverage[t])
  }

  /** What an arrival adds to the past. */
  ghost function PastAfter(past: Past, src: R.Source, coverage: map<Tile, CoverageEntry>): Past {
    Past(past.held + Entries(coverage), past.broken + if IsBroken(src) then {src} else {})
  }

  /**
   * A broken pass the core takes note of, of content that has not asked for it: its tile
   * lies in the frame, its label is plausible, and no newer content is held live; under
   * the content held live the pass is not marked.
   */
  ghost predicate BreaksUnasked(core: R.Core, src: R.Source, received: bool)
    requires src.frameSeq < MOD31
  {
    var newest := R.NewestAfter(core, src, received);
    && IsBroken(src) && src.single
    && (core.dims.Some? ==> TileDecoder.HasPixel(src.tile, core.dims.value.0, core.dims.value.1))
    && !LabelRunsAhead(src.frameSeq, newest)
    && (src.tile in core.coverage && !LabelExpired(core.coverage[src.tile].frameSeq, newest) ==>
          var e := core.coverage[src.tile];
          var order := ClassifyArrival(e.generation, e.frameSeq, src.body.generation, src.frameSeq);
          order != Stale && (order == Current ==> src.body.pass !in e.nackedMask))
  }

  /** A broken pass is asked for again, once: exactly when its content had not asked for it. */
  lemma BrokenAskedIff(core: R.Core, src: R.Source, received: bool, now: nat)
    requires R.SourceOk(src) && IsBroken(src)
    ensures AskedBy(src) in R.HandleSource(core, src, received, now).requests <==> BreaksUnasked(core, src, received)
  {
    hide ApplyArrival, LabelExpired, LabelRunsAhead, IsNewer, ClassifyArrival, TileDecoder.InGrid;
    var at := core.(newest := R.NewestAfter(core, src, received));
    var b := src.body;
    var prev := R.Held(at, src.tile);
    var o := ApplyArrival(prev, b.generation, b.pass, src.frameSeq, now, false, None);
    RequestsExactly(prev, b.generation, b.pass, src.frameSeq, now, false, None, b.pass);
    if core.dims.Some? { TileDecoder.GridIsPixels(src.tile, core.dims.value.0, core.dims.value.1); }
    var h := R.HandleSource(core, src, received, now);
    if b.pass in o.nackPasses && BreaksUnasked(core, src, received) {
      var i :| 0 <= i < |o.nackPasses| && o.nackPasses[i] == b.pass;
      assert h.requests[i] == AskedBy(src);
    }
  }

  /**
   * Every request an arrival raises is for the tile of the arrival: the pass that
   * arrived, if it arrived broken, and otherwise a gap of the entry the tile holds now.
   */
  lemma ArrivalGrounds(core: R.Core, src: R.Source, received: bool, now: nat, r: Request)
    requires R.SourceOk(src) && EntriesOk(core.coverage)
    requires r in R.HandleSource(core, src, received, now).requests
    ensures var h := R.HandleSource(core, src, received, now);
            && r.tile == src.tile && src.body.Cdf53Body?
            && if IsBroken(src) then r == AskedBy(src)
               else src.tile in h.core.coverage && ShowsGap(h.core.coverage[src.tile], r)
  {
    hide ApplyArrival, Order, LabelExpired, LabelRunsAhead, IsNewer, Owed, R.TileInGrid, BitmapWithPassZero;
    var advance := received && (core.newest.None? || IsNewer(src.frameSeq, core.newest.value));
    var at := if advance then core.(newest := Some(src.frameSeq)) else core;
    var b := src.body;
    var prev := R.Held(at, src.tile);
    var present := if b.checked.Some? then b.checked.value.present else None;
    var p := r.pass;
    var o := ApplyArrival(prev, b.generation, b.pass, src.frameSeq, now, b.checked.Some?, present);
    assert p in o.nackPasses;
    ArrivalRequestsJustified(prev, b.generation, b.pass, src.frameSeq, now, b.checked.Some?, present, p);
    ArrivalLabel(prev, b.generation, b.pass, src.frameSeq, now, b.checked.Some?, present);
    CurrentLabel(prev, b.generation, src.frameSeq);
  }

  lemma ArrivalJustified(past: Past, core: R.Core, src: R.Source, received: bool, now: nat, r: Request)
    requires R.SourceOk(src) && EntriesOk(core.coverage)
    requires r in R.HandleSource(core, src, received, now).requests
    ensures Justified(PastAfter(past, src, R.HandleSource(core, src, received, now).core.coverage), r)
  {
    hide R.HandleSource, ShowsGap, EntriesOk;
    ArrivalGrounds(core, src, received, now, r);
    var h := R.HandleSource(core, src, received, now);
    var after := PastAfter(past, src, h.core.coverage);
    if IsBroken(src) {
      assert src in after.broken;
    } else {
      assert (r.tile, h.core.coverage[src.tile]) in after.held;
    }
  }

  lemma CurrentLabel(prev: Option<CoverageEntry>, generation: nat, frameSeq: nat)
    ensures Order(prev, generation, frameSeq) == Current ==>
      prev.Some? && Wrap31(prev.value.frameSeq) == Wrap31(frameSeq)
  {
  }

  lemma ArrivalEntries(core: R.Core, src: R.Source, received: bool, now: nat)
    requires R.SourceOk(src) && EntriesOk(core.coverage)
    ensures EntriesOk(R.HandleSource(core, src, received, now).core.coverage)
  {
    hide ApplyArrival, Order, LabelExpired, LabelRunsAhead, IsNewer, BitmapWithPassZero;
    if src.body.Cdf53Body? {
      var advance := received && (core.newest.None? || IsNewer(src.frameSeq, core.newest.value));
      var at := if advance then core.(newest := Some(src.frameSeq)) else core;
      var b, prev := src.body, R.Held(at, src.tile);
      var present := if b.checked.Some? then b.checked.value.present else None;
      ArrivalKeepsBitmap(prev, b.generation, b.pass, src.frameSeq, now, b.checked.Some?, present);
      if prev.None? || Order(prev, b.generation, src.frameSeq) != Stale {
        ArrivalLabel(prev, b.generation, b.pass, src.frameSeq, now, b.checked.Some?, present);
        CurrentLabel(prev, b.generation, src.frameSeq);
      }
    }
  }

  // ----------------------------------------------------------- sending

  /** The tile's coverage does not hold the pass. */
  predicate Wanted(coverage: map<Tile, CoverageEntry>, r: Request) {
    r.tile in coverage ==> r.pass !in coverage[r.tile].passMask
  }

  /** The label as it goes on the wire, with the tile-datagram flag. */
  function Flagged(r: Request): Request { r.(frameSeq := Wrap31(r.frameSeq) + MOD31) }

  /** What a flush sends of the queue: the passes that have not arrived meanwhile. */
  function ToSend(coverage: map<Tile, CoverageEntry>, rs: seq<Request>): seq<Request> {
    if rs == [] then [] else
      var r := rs[|rs| - 1];
      ToSend(coverage, rs[..|rs| - 1]) + if Wanted(coverage, r) then [Flagged(r)] else []
  }

  lemma ToSendStep(coverage: map<Tile, CoverageEntry>, rs: seq<Request>, i: nat)
    requires i < |rs|
    ensures ToSend(coverage, rs[..i + 1])
         == ToSend(coverage, rs[..i]) + if Wanted(coverage, rs[i]) then [Flagged(rs[i])] else []
  {
    assert rs[..i + 1][..i] == rs[..i];
  }

  /** The tile still lacks the pass, and `s` is the request for it with the tile flag on its label. */
  predicate SendsFor(coverage: map<Tile, CoverageEntry>, r: Request, s: Request) {
    && (r.tile in coverage ==> r.pass !in coverage[r.tile].passMask)
    && s == R.Request(r.frameSeq % 0x8000_0000 + 0x8000_0000, r.tile, r.pass)
  }

  /** A lower pass goes first; within a pass the upper row, and within a row the left tile. */
  predicate GoesBefore(a: Request, b: Request) {
    || a.pass < b.pass
    || (a.pass == b.pass && a.tile.1 < b.tile.1)
    || (a.pass == b.pass && a.tile.1 == b.tile.1 && a.tile.0 < b.tile.0)
  }

  ghost predicate PassMajor(rs: seq<Request>) { forall i, j :: 0 <= i < j < |rs| ==> GoesBefore(rs[i], rs[j]) }

  lemma SendsForIs(coverage: map<Tile, CoverageEntry>, r: Request, s: Request)
    ensures SendsFor(coverage, r, s) <==> Wanted(coverage, r) && s == Flagged(r)
  {
  }

  /** The sent requests are those of the queue `rs` whose pass is still lacking. */
  ghost predicate SentFor(coverage: map<Tile, CoverageEntry>, rs: seq<Request>, sent: seq<Request>) {
    forall s: Request :: s in sent <==> exists r :: r in rs && SendsFor(coverage, r, s)
  }

  lemma MoreSent(coverage: map<Tile, CoverageEntry>, rs: seq<Request>, r: Request, sent: seq<Request>)
    requires SentFor(coverage, rs, sent)
    ensures SentFor(coverage, rs + [r], sent + if Wanted(coverage, r) then [Flagged(r)] else [])
  {
    hide SendsFor, Wanted, Flagged;
    var all, now := rs + [r], sent + if Wanted(coverage, r) then [Flagged(r)] else [];
    assert forall q :: q in all <==> q in rs || q == r;
    forall s: Request
      ensures s in now <==> exists q :: q in all && SendsFor(coverage, q, s)
    {
      SendsForIs(coverage, r, s);
      if s in sent {
        var q :| q in rs && SendsFor(coverage, q, s);
        assert q in all;
      }
    }
  }

  lemma MoreOrdered(coverage: map<Tile, CoverageEntry>, rs: seq<Request>, sent: seq<Request>)
    requires rs != [] && Ascending(rs) && PassMajor(sent) && SentFor(coverage, rs[..|rs| - 1], sent)
    ensures PassMajor(sent + [Flagged(rs[|rs| - 1])])
  {
    hide Wanted;
    var front, r := rs[..|rs| - 1], rs[|rs| - 1];
    forall i | 0 <= i < |sent|
      ensures GoesBefore(sent[i], Flagged(r))
    {
      assert sent[i] in sent;
      var q :| q in front && SendsFor(coverage, q, sent[i]);
      var k :| 0 <= k < |front| && front[k] == q;
      assert Precedes(KeyOf(rs[k]), KeyOf(rs[|rs| - 1]));
    }
  }

  /** Nothing is sent that has arrived, nothing that has not is held back, and the order is pass by pass. */
  lemma {:induction false} SentExactly(coverage: map<Tile, CoverageEntry>, rs: seq<Request>)
    requires Ascending(rs)
    ensures SentFor(coverage, rs, ToSend(coverage, rs)) && PassMajor(ToSend(coverage, rs))
  {
    hide Wanted, Flagged, GoesBefore, Precedes, SendsFor;
    if rs == [] {
    } else {
      var front, r := rs[..|rs| - 1], rs[|rs| - 1];
      SentExactly(coverage, front);
      hide SentFor, PassMajor;
      assert rs == front + [r];
      MoreSent(coverage, front, r, ToSend(coverage, front));
      MoreOrdered(coverage, rs, ToSend(coverage, front));
    }
  }

  /** The tile has gone on to content under another label than the request's. */
  predicate LeftBehind(coverage: map<Tile, CoverageEntry>, r: Request) {
    r.tile in coverage && Wrap31(r.frameSeq) != Wrap31(coverage[r.tile].frameSeq)
  }

  /**
   * A flush asks for content the tile has left exactly when a waiting request, whose
   * pass the tile's new content lacks as well, was queued under the old label.
   */
  lemma OldLabelsSent(coverage: map<Tile, CoverageEntry>, pending: Pending, rs: seq<Request>)
    requires KeysOk(pending) && InKeyOrder(pending, rs)
    ensures (exists s :: s in ToSend(coverage, rs) && LeftBehind(coverage, s))
       <==> exists k :: k in pending && Wanted(coverage, pending[k]) && LeftBehind(coverage, pending[k])
  {
    hide ToSend, PassMajor;
    SentExactly(coverage, rs);
    assert forall r :: LeftBehind(coverage, Flagged(r)) <==> LeftBehind(coverage, r);
    if s :| s in ToSend(coverage, rs) && LeftBehind(coverage, s) {
      var r :| r in rs && SendsFor(coverage, r, s);
      assert s == Flagged(r);
      assert KeyOf(r) in pending && pending[KeyOf(r)] == r;
    }
    if k :| k in pending && Wanted(coverage, pending[k]) && LeftBehind(coverage, pending[k]) {
      var r := pending[k];
      assert KeyOf(r) == k && r in rs;
      assert SendsFor(coverage, r, Flagged(r));
    }
  }

  datatype AckEntry = AckEntry(wireSeq: u32, arrivalMsLo16: nat)

  datatype Message = Acks(acks: seq<AckEntry>) | Nacks(nacks: seq<Request>) | FrameAcked(ack: FrameAck) | Feedback

  /** The requests of all messages, in the order sent. */
  function NackStream(ms: seq<Message>): seq<Request> {
    if ms == [] then [] else
      var m := ms[|ms| - 1];
      NackStream(ms[..|ms| - 1]) + if m.Nacks? then m.nacks else []
  }

  lemma NackStreamAppend(ms: seq<Message>, m: Message)
    ensures NackStream(ms + [m]) == NackStream(ms) + if m.Nacks? then m.nacks else []
  {
    assert (ms + [m])[..|ms|] == ms;
  }

  /** Everything after `was` carries requests. */
  ghost predicate OnlyNacks(was: seq<Message>, now: seq<Message>) {
    was <= now && forall i :: |was| <= i < |now| ==> now[i].Nacks?
  }

  lemma NoMessageYet(ms: seq<Message>)
    ensures OnlyNacks(ms, ms)
  {
  }

  lemma NacksAppended(was: seq<Message>, mid: seq<Message>, now: seq<Message>)
    requires OnlyNacks(was, mid) && OnlyNacks(mid, now)
    ensures OnlyNacks(was, now)
  {
  }

  ghost predicate BatchesOk(ms: seq<Message>) {
    forall i :: 0 <= i < |ms| && ms[i].Nacks? ==> 1 <= |ms[i].nacks| <= NACK_BATCH_MAX
  }

  // ------------------------------------------------------------- sweep

  /** What a sweep of the tiles in `done` makes of the queue. */
  ghost predicate SweptQueue(
    was: Pending, coverage: map<Tile, CoverageEntry>, now: nat, done: set<Tile>, pending: Pending)
  {
    && (forall k: NackKey :: k in pending <==>
          k in was || (TileOf(k) in done && TileOf(k) in coverage && k.0 < 14
            && k.0 in SweepMissing(coverage[TileOf(k)], now)))
    && forall k :: k in pending ==>
         pending[k] == if k in was then was[k] else R.Request(coverage[TileOf(k)].frameSeq, TileOf(k), k.0)
  }

  function SweptCoverage(coverage: map<Tile, CoverageEntry>, now: nat, done: set<Tile>): map<Tile, CoverageEntry> {
    map t | t in coverage :: if t in done then Swept(coverage[t], now) else coverage[t]
  }

  lemma SweepKeepsEntries(coverage: map<Tile, CoverageEntry>, now: nat, done: set<Tile>)
    requires EntriesOk(coverage)
    ensures EntriesOk(SweptCoverage(coverage, now, done))
  {
  }

  lemma SweptFurther(coverage: map<Tile, CoverageEntry>, now: nat, done: set<Tile>, t: Tile)
    requires t in coverage && t !in done
    ensures SweptCoverage(coverage, now, done)[t := Swept(coverage[t], now)] == SweptCoverage(coverage, now, done + {t})
  {
    hide Swept;
  }

  lemma SweepGround(e: CoverageEntry, now: nat, r: Request)
    requires BitmapWithPassZero(e) && r.pass in SweepMissing(e, now) && r.frameSeq == e.frameSeq
    ensures ShowsGap(e, r)
  {
    SweepJustified(e, now, r.pass);
  }

  /** The queue part-way through one tile: its passes below `p` are in. */
  ghost predicate SweptPart(was: Pending, e: CoverageEntry, t: Tile, missing: Mask, p: nat, pending: Pending) {
    && (forall k: NackKey :: k in pending <==> k in was || (TileOf(k) == t && k.0 < p && k.0 in missing))
    && forall k :: k in pending ==> pending[k] == if k in was then was[k] else R.Request(e.frameSeq, t, k.0)
  }

  lemma SweptPartStep(was: Pending, e: CoverageEntry, t: Tile, missing: Mask, p: nat, pending: Pending)
    requires SweptPart(was, e, t, missing, p, pending)
    ensures SweptPart(was, e, t, missing, p + 1,
                      if p in missing then Enqueue(pending, R.Request(e.frameSeq, t, p)) else pending)
  {
    var r := R.Request(e.frameSeq, t, p);
    var now := if p in missing then Enqueue(pending, r) else pending;
    forall k: NackKey
      ensures k in now <==> k in was || (TileOf(k) == t && k.0 < p + 1 && k.0 in missing)
    {
      assert k in pending <==> k in was || (TileOf(k) == t && k.0 < p && k.0 in missing);
      assert TileOf(k) == t && k.0 == p <==> k == KeyOf(r);
    }
  }

  lemma SweptWhole(
    was: Pending, coverage: map<Tile, CoverageEntry>, now: nat, done: set<Tile>, before: Pending, t: Tile,
    pending: Pending)
    requires t in coverage && t !in done && SweptQueue(was, coverage, now, done, before)
    requires SweptPart(before, coverage[t], t, SweepMissing(coverage[t], now), 14, pending)
    ensures SweptQueue(was, coverage, now, done + {t}, pending)
  {
    hide SweepMissing;
    forall k: NackKey
      ensures k in pending <==>
        k in was || (TileOf(k) in done + {t} && TileOf(k) in coverage && k.0 < 14
          && k.0 in SweepMissing(coverage[TileOf(k)], now))
    {
      assert k in pending <==> k in before || (TileOf(k) == t && k.0 < 14 && k.0 in SweepMissing(coverage[t], now));
      assert k in before <==>
        k in was || (TileOf(k) in done && TileOf(k) in coverage && k.0 < 14
          && k.0 in SweepMissing(coverage[TileOf(k)], now));
    }
  }

  // ---------------------------------------------------------- the clockwork

  function Earlier(a: nat, b: Option<nat>): nat { if b.Some? && b.value < a then b.value else a }

  /**
   * What waits after an arrival that asks for `rs`: what is new was asked for; a request
   * asked for is what waits exactly when none waited under another label; of the others
   * those outside a changed grid are gone and the rest stay.
   */
  ghost predicate Requeued(
    was: Pending, pending: Pending, changed: bool, dims: Option<(nat, nat)>, rs: seq<Request>)
  {
    && (forall k :: k in pending && k !in was ==> pending[k] in rs)
    && (forall r :: r in rs ==>
          KeyOf(r) in pending && (pending[KeyOf(r)] == r <==> (KeyOf(r) in was ==> was[KeyOf(r)] == r)))
    && forall k :: k in was ==>
         if !changed || R.TileInGrid(dims, TileOf(k)) then k in pending && pending[k] == was[k] else k !in pending
  }

  /** The deadline stays, unless none was armed and one is armed now. */
  predicate DeadlineKept(was: Option<nat>, deadline: Option<nat>, now: nat) {
    deadline == was || (was.None? && deadline == Some(now + NACK_DEBOUNCE_US))
  }

  /** What an arrival asks for waits afterwards. */
  lemma BrokenWaits(core: R.Core, src: R.Source, received: bool, now: nat, was: Pending, pending: Pending)
    requires R.SourceOk(src)
    requires var h := R.HandleSource(core, src, received, now);
             Requeued(was, pending, h.core.dims != core.dims, h.core.dims, h.requests)
    ensures BreaksUnasked(core, src, received) ==> KeyOf(AskedBy(src)) in pending
  {
    hide R.HandleSource, KeyOf;
    if BreaksUnasked(core, src, received) {
      hide BreaksUnasked;
      BrokenAskedIff(core, src, received, now);
    }
  }

  class Clockwork {
    var core: R.Core
    const ackBatcher: AckBatcher<AckEntry>
    const nackBatcher: NackBatcher<Request>
    const frameAcks: FrameAckWindow
    const sendFrameAcks: bool
    var pending: Pending
    var pendingDeadline: Option<nat>
    var nextTailSweep: nat
    var nextFeedback: nat
    var outbox: seq<Message>

    ghost var past: Past
    /** What left the queue with the grid since the last flush. */
    ghost var purged: set<NackKey>
    ghost var transcript: seq<Message>
    /** The latest time seen. */
    ghost var clock: nat

    /**
     * A waiting request is justified by what the client has held or received. The
     * deadline is armed exactly when something waits or was purged since the last flush:
     * purging the queue empty leaves it armed.
     */
    ghost predicate QueueOk()
      reads this`pending, this`pendingDeadline, this`past, this`purged
    {
      Grounded(past, pending) && (pendingDeadline.Some? <==> pending.Keys + purged != {})
    }

    /** What the request batcher sent is what the messages carry; between calls it holds nothing. */
    ghost predicate WireOk()
      reads this`outbox, this`transcript, nackBatcher
    {
      && nackBatcher.Valid()
      && NackStream(transcript) == nackBatcher.sent && BatchesOk(transcript)
      && |outbox| <= |transcript| && outbox == transcript[|transcript| - |outbox|..]
    }

    /** An unreported frame was recorded after the last frame ack was sent. */
    ghost predicate AcksOk()
      reads this`clock, ackBatcher, frameAcks
    {
      && ackBatcher.Valid() && frameAcks.Valid()
      && (frameAcks.lastSent.Some? ==> frameAcks.lastSent.value <= clock)
      && (frameAcks.lastSent.Some? && frameAcks.dirtySince.Some? ==>
        frameAcks.lastSent.value <= frameAcks.dirtySince.value)
    }

    /** The past holds what the tiles hold now, and justifies every request ever sent. */
    ghost predicate PastOk()
      reads this`core, this`past, this`transcript
    {
      && EntriesOk(core.coverage) && Entries(core.coverage) <= past.held
      && SentJustified(past, NackStream(transcript))
    }

    ghost predicate Valid()
      reads this, ackBatcher, nackBatcher, frameAcks
    {
      QueueOk() && WireOk() && nackBatcher.entries == [] && AcksOk() && PastOk()
    }

    constructor (send: bool, now: nat)
      ensures Valid() && pending == map[] && purged == {} && transcript == [] && clock == now && past == Past({}, {})
      ensures core == R.Core(None, map[], None) && nextTailSweep == now + TAIL_SWEEP_INTERVAL_US
      ensures fresh(ackBatcher) && fresh(nackBatcher) && fresh(frameAcks)
    {
      core := R.Core(None, map[], None);
      ackBatcher := new AckBatcher<AckEntry>();
      nackBatcher := new NackBatcher<Request>();
      frameAcks := new FrameAckWindow();
      sendFrameAcks, pending, pendingDeadline, outbox := send, map[], None, [];
      nextTailSweep, nextFeedback := now + TAIL_SWEEP_INTERVAL_US, now + FEEDBACK_INTERVAL_US;
      past, purged, transcript, clock := Past({}, {}), {}, [], now;
    }

    /** When the host must call back: the earliest of all deadlines that are armed. */
    function PollTimeout(): (d: nat)
      reads this, ackBatcher, nackBatcher, frameAcks
      ensures d <= nextTailSweep && d <= nextFeedback
      ensures ackBatcher.deadline.Some? ==> d <= ackBatcher.deadline.value
      ensures nackBatcher.deadline.Some? ==> d <= nackBatcher.deadline.value
      ensures pendingDeadline.Some? ==> d <= pendingDeadline.value
      ensures sendFrameAcks && frameAcks.dirtySince.Some? ==> d <= frameAcks.dirtySince.value + 100_000
      ensures || d == nextTailSweep || d == nextFeedback || Some(d) == pendingDeadline
              || Some(d) == ackBatcher.deadline || Some(d) == nackBatcher.deadline
              || (sendFrameAcks && frameAcks.dirtySince.Some? && d == frameAcks.dirtySince.value + 100_000)
    {
      var d := if nextTailSweep < nextFeedback then nextTailSweep else nextFeedback;
      var d := Earlier(Earlier(Earlier(d, ackBatcher.deadline), nackBatcher.deadline), pendingDeadline);
      if sendFrameAcks then Earlier(d, frameAcks.PollTimeout()) else d
    }

    /** Every message leaves in the order it was queued. */
    method PollTransmit() returns (m: Option<Message>)
      requires WireOk()
      modifies this`outbox
      ensures WireOk()
      ensures if old(outbox) == [] then m == None && outbox == []
              else m == Some(old(outbox)[0]) && outbox == old(outbox)[1..]
    {
      if outbox == [] { return None; }
      m := Some(outbox[0]);
      outbox := outbox[1..];
    }

    method Push(m: Message)
      modifies this`outbox, this`transcript
      ensures transcript == old(transcript) + [m] && outbox == old(outbox) + [m]
    {
      outbox, transcript := outbox + [m], transcript + [m];
    }

    method QueuePassNack(r: Request, now: nat)
      requires QueueOk() && Justified(past, r)
      modifies this`pending, this`pendingDeadline
      ensures QueueOk() && pending == Enqueue(old(pending), r)
      ensures pendingDeadline == if old(pendingDeadline).Some? then old(pendingDeadline)
        else Some(now + NACK_DEBOUNCE_US)
    {
      hide Justified, KeyOf;
      if KeyOf(r) in pending { return; }
      pending := pending[KeyOf(r) := r];
      if pendingDeadline.None? { pendingDeadline := Some(now + NACK_DEBOUNCE_US); }
    }

    /** Hand one request to the batcher, and its batch on when that fills. */
    method Send(r: Request, now: nat) returns (queued: bool)
      requires WireOk()
      modifies this`outbox, this`transcript, nackBatcher
      ensures WireOk() && nackBatcher.added == old(nackBatcher.added) + [r] && OnlyNacks(old(transcript), transcript)
      ensures !queued ==> nackBatcher.entries == []
    {
      hide NackStream;
      var batch := nackBatcher.Add(r, now);
      queued := batch.None?;
      if batch.Some? {
        NackStreamAppend(transcript, Nacks(batch.value));
        Push(Nacks(batch.value));
      }
    }

    /**
     * The debounced requests leave: exactly those whose pass has not arrived
     * meanwhile, in pass-major order, in batches of at most 64, none left behind.
     */
    method FlushPendingNacks(now: nat) returns (ghost rs: seq<Request>)
      requires QueueOk() && WireOk() && nackBatcher.entries == []
      modifies this`pending, this`pendingDeadline, this`purged, this`outbox, this`transcript, nackBatcher
      ensures QueueOk() && WireOk() && nackBatcher.entries == []
      ensures pending == map[] && purged == {} && pendingDeadline == None
      ensures InKeyOrder(old(pending), rs)
      ensures NackStream(transcript) == old(NackStream(transcript)) + ToSend(core.coverage, rs)
      ensures OnlyNacks(old(transcript), transcript)
    {
      hide NackStream, ToSend, InKeyOrder, Justified, BatchesOk, OnlyNacks;
      assert nackBatcher.sent == nackBatcher.added;
      pendingDeadline := None;
      var values := IntoValues(pending);
      rs := values;
      pending, purged := map[], {};
      var queued := SendWanted(values, now);
      label sent:
      if queued {
        var batch := nackBatcher.Flush();
        if batch.Some? {
          PushNacks(batch.value);
          NacksAppended(old(transcript), old@sent(transcript), transcript);
        }
      }
      assert nackBatcher.sent == nackBatcher.added;
    }

    /** Hand every request whose pass has not arrived meanwhile to the batcher. */
    method SendWanted(values: seq<Request>, now: nat) returns (queued: bool)
      requires WireOk() && nackBatcher.entries == []
      modifies this`outbox, this`transcript, nackBatcher
      ensures WireOk() && nackBatcher.added == old(nackBatcher.added) + ToSend(core.coverage, values)
      ensures OnlyNacks(old(transcript), transcript) && (!queued ==> nackBatcher.entries == [])
    {
      hide ToSend, Wanted, Flagged, WireOk, OnlyNacks;
      queued := false;
      ghost var was := nackBatcher.added;
      assert ToSend(core.coverage, values[..0]) == [] by { NothingToSend(core.coverage); }
      assert OnlyNacks(transcript, transcript) by { NoMessageYet(transcript); }
      for i := 0 to |values|
        invariant WireOk() && OnlyNacks(old(transcript), transcript)
        invariant nackBatcher.added == was + ToSend(core.coverage, values[..i])
        invariant !queued ==> nackBatcher.entries == []
      {
        ToSendStep(core.coverage, values, i);
        if Wanted(core.coverage, values[i]) {
          ghost var before := transcript;
          var q := Send(Flagged(values[i]), now);
          NacksAppended(old(transcript), before, transcript);
          if q { queued := true; }
        }
      }
      assert values[..|values|] == values;
    }

    method PushNacks(batch: seq<Request>)
      requires nackBatcher.Valid() && BatchesOk(transcript) && 1 <= |batch| <= NACK_BATCH_MAX
      requires |outbox| <= |transcript| && outbox == transcript[|transcript| - |outbox|..]
      requires NackStream(transcript) + batch == nackBatcher.sent
      modifies this`outbox, this`transcript
      ensures WireOk() && OnlyNacks(old(transcript), transcript)
    {
      hide NackStream;
      NackStreamAppend(transcript, Nacks(batch));
      Push(Nacks(batch));
    }

    /** Queue the passes one stalled tile is asked for again. */
    method SweepTile(t: Tile, missing: Mask, now: nat)
      requires QueueOk() && t in core.coverage && EntryOk(core.coverage[t]) && (t, core.coverage[t]) in past.held
      requires missing == SweepMissing(core.coverage[t], now)
      modifies this`pending, this`pendingDeadline
      ensures QueueOk() && SweptPart(old(pending), core.coverage[t], t, missing, 14, pending)
      ensures DeadlineKept(old(pendingDeadline), pendingDeadline, now)
    {
      hide SweepMissing, SweptPart, Enqueue, Grounded, ShowsGap;
      var e := core.coverage[t];
      NoPassYet(pending, e, t, missing);
      for p := 0 to 14
        invariant QueueOk() && SweptPart(old(pending), e, t, missing, p, pending)
        invariant DeadlineKept(old(pendingDeadline), pendingDeadline, now)
      {
        SweptPartStep(old(pending), e, t, missing, p, pending);
        if p in missing {
          SweepGround(e, now, R.Request(e.frameSeq, t, p));
          QueuePassNack(R.Request(e.frameSeq, t, p), now);
        }
      }
    }

    /**
     * Every half second, ask again for what stalled tiles are owed: the queue gains
     * exactly the justified passes of every tile, each under the tile's own label.
     */
    method SweepTail(now: nat)
      requires QueueOk() && PastOk()
      modifies this`pending, this`pendingDeadline, this`past, this`core, this`nextTailSweep
      ensures QueueOk() && PastOk() && nextTailSweep > now
      ensures past == old(past).(held := old(past).held + Entries(core.coverage))
      ensures DeadlineKept(old(pendingDeadline), pendingDeadline, now)
      ensures now < old(nextTailSweep) ==>
        && core == old(core) && pending == old(pending) && nextTailSweep == old(nextTailSweep)
      ensures now >= old(nextTailSweep) ==>
        && nextTailSweep == now + TAIL_SWEEP_INTERVAL_US
        && SweptQueue(old(pending), old(core).coverage, now, old(core).coverage.Keys, pending)
        && core == old(core).(coverage := SweptCoverage(old(core).coverage, now, old(core).coverage.Keys))
    {
      hide SweepMissing, Swept, SweptPart, SweptQueue, BitmapWithPassZero, Grounded, SentJustified, NackStream;
      if now < nextTailSweep {
        assert past.held + Entries(core.coverage) == past.held;
        return;
      }
      nextTailSweep := now + TAIL_SWEEP_INTERVAL_US;
      ghost var was, before := core.coverage, pending;
      var rest := core.coverage.Keys;
      NoTileYet(pending, was, now);
      assert was.Keys - rest == {};
      while rest != {}
        invariant rest <= was.Keys && QueueOk() && nextTailSweep == now + TAIL_SWEEP_INTERVAL_US && past == old(past)
        invariant DeadlineKept(old(pendingDeadline), pendingDeadline, now)
        invariant core == old(core).(coverage := SweptCoverage(was, now, was.Keys - rest))
        invariant SweptQueue(before, was, now, was.Keys - rest, pending)
      {
        var t :| t in rest;
        ghost var done := was.Keys - rest;
        ghost var mid := pending;
        assert core.coverage[t] == was[t] && (t, was[t]) in Entries(was);
        SweepOne(t, now);
        SweptWhole(before, was, now, done, mid, t, pending);
        rest := rest - {t};
        assert was.Keys - rest == done + {t};
        SweptFurther(was, now, done, t);
      }
      assert was.Keys - rest == was.Keys;
      SweepKeepsEntries(was, now, was.Keys);
      RememberCoverage();
    }

    /** Ask again for what one tile is owed, and note it. */
    method SweepOne(t: Tile, now: nat)
      requires QueueOk() && t in core.coverage && EntryOk(core.coverage[t]) && (t, core.coverage[t]) in past.held
      modifies this`pending, this`pendingDeadline, this`core
      ensures QueueOk() && DeadlineKept(old(pendingDeadline), pendingDeadline, now)
      ensures var e := old(core).coverage[t];
              && SweptPart(old(pending), e, t, SweepMissing(e, now), 14, pending)
              && core == old(core).(coverage := old(core).coverage[t := Swept(e, now)])
    {
      hide SweepMissing, Swept, SweptPart, Grounded;
      var e := core.coverage[t];
      var missing := SweepMissing(e, now);
      if missing != {} {
        SweepTile(t, missing, now);
      } else {
        NothingMissing(pending, e, t);
      }
      assert SweptIs(e, now, missing) by { WhatSweepStores(e, now); }
      if missing != {} {
        core := core.(coverage := core.coverage[t :=
          e.(nackedMask := e.nackedMask - missing, lastChange := now, sweepAttempts := e.sweepAttempts + 1)]);
      } else {
        assert core.coverage == core.coverage[t := e];
      }
    }

    /** What the tiles hold now becomes part of the past. */
    ghost method RememberCoverage()
      requires QueueOk() && EntriesOk(core.coverage) && SentJustified(past, NackStream(transcript))
      modifies this`past
      ensures QueueOk() && PastOk() && past == old(past).(held := old(past).held + Entries(core.coverage))
    {
      hide Grounded, SentJustified, NackStream, EntriesOk, Entries;
      var after := past.(held := past.held + Entries(core.coverage));
      GroundedStays(past, after, pending);
      SentStays(past, after, NackStream(transcript));
      past := after;
    }

    predicate AcksDue(now: nat)
      reads ackBatcher
    {
      ackBatcher.deadline.Some? && ackBatcher.deadline.value <= now
    }

    /** A frame ack goes with a batch when 4 ms have passed since the last one, alone after 100 ms. */
    predicate FrameAckDue(now: nat, carried: bool)
      reads frameAcks
    {
      && sendFrameAcks && frameAcks.newest.Some? && frameAcks.dirtySince.Some?
      && if carried then frameAcks.lastSent.Some? ==> now >= frameAcks.lastSent.value + FRAME_ACK_MIN_INTERVAL_US
         else now >= frameAcks.dirtySince.value + FRAME_ACK_FALLBACK_US
    }

    /** The acknowledgements due at `now`: the batch, then the frame ack. */
    ghost function AckMessages(now: nat): seq<Message>
      reads ackBatcher, frameAcks
    {
      (if AcksDue(now) then [Acks(ackBatcher.entries + Last(ackBatcher.sent, ACK_OVERLAP_COUNT))] else [])
      + if FrameAckDue(now, AcksDue(now))
        then [FrameAcked(FrameAck(frameAcks.newest.value, frameAcks.decoded, frameAcks.refused))] else []
    }

    /** The acks due now leave, the frame ack with them; no ack deadline at or before `now` is left. */
    method FireAcks(now: nat)
      requires AcksOk() && WireOk() && clock <= now
      modifies this`outbox, this`transcript, this`clock, ackBatcher, frameAcks
      ensures AcksOk() && WireOk() && clock == now && NackStream(transcript) == old(NackStream(transcript))
      ensures transcript == old(transcript) + old(AckMessages(now))
      ensures ackBatcher.deadline.Some? ==> ackBatcher.deadline.value > now
      ensures sendFrameAcks && frameAcks.PollTimeout().Some? ==> frameAcks.PollTimeout().value > now
    {
      hide NackStream, BatchesOk, FrameAckWindow.Valid, WireOk, AckBatcher.Valid;
      clock := now;
      var carried := FireAckBatch(now);
      FireFrameAck(now, carried);
    }

    /** The batch due leaves. */
    method FireAckBatch(now: nat) returns (carried: bool)
      requires ackBatcher.Valid() && WireOk()
      modifies this`outbox, this`transcript, ackBatcher
      ensures ackBatcher.Valid() && WireOk() && NackStream(transcript) == old(NackStream(transcript))
      ensures carried == old(AcksDue(now)) && (ackBatcher.deadline.Some? ==> ackBatcher.deadline.value > now)
      ensures transcript == old(transcript)
        + if carried then [Acks(old(ackBatcher.entries) + Last(old(ackBatcher.sent), ACK_OVERLAP_COUNT))] else []
    {
      hide NackStream, WireOk;
      var batch := ackBatcher.OnTimeout(now);
      carried := batch.Some?;
      if carried { PushOther(Acks(batch.value)); }
    }

    /** The frame ack due leaves, with a batch or alone. */
    method FireFrameAck(now: nat, carried: bool)
      requires WireOk() && frameAcks.Valid() && clock == now
      requires frameAcks.lastSent.Some? ==> frameAcks.lastSent.value <= now
      requires frameAcks.lastSent.Some? && frameAcks.dirtySince.Some? ==>
        frameAcks.lastSent.value <= frameAcks.dirtySince.value
      modifies this`outbox, this`transcript, frameAcks
      ensures WireOk() && frameAcks.Valid() && NackStream(transcript) == old(NackStream(transcript))
      ensures frameAcks.lastSent.Some? ==> frameAcks.lastSent.value <= now
      ensures frameAcks.lastSent.Some? && frameAcks.dirtySince.Some? ==>
        frameAcks.lastSent.value <= frameAcks.dirtySince.value
      ensures transcript == old(transcript)
        + if old(FrameAckDue(now, carried))
          then [FrameAcked(old(FrameAck(frameAcks.newest.value, frameAcks.decoded, frameAcks.refused)))] else []
      ensures sendFrameAcks && frameAcks.PollTimeout().Some? ==> frameAcks.PollTimeout().value > now
    {
      hide NackStream, WireOk;
      if !sendFrameAcks { return; }
      var ack := None;
      if carried { ack := frameAcks.TakeDue(now); } else { ack := frameAcks.TakeOverdue(now); }
      if ack.Some? { PushOther(FrameAcked(ack.value)); }
    }

    /** Queue a message that carries no requests. */
    method PushOther(m: Message)
      requires WireOk() && !m.Nacks?
      modifies this`outbox, this`transcript
      ensures WireOk() && NackStream(transcript) == old(NackStream(transcript)) && transcript == old(transcript) + [m]
    {
      hide NackStream;
      NackStreamAppend(transcript, m);
      Push(m);
    }

    predicate Due(now: nat)
      reads this`pendingDeadline
    {
      pendingDeadline.Some? && pendingDeadline.value <= now
    }

    /**
     * Everything due at `now` is done, and the next deadline lies strictly after
     * `now`: a host that calls back at each deadline never spins.
     */
    method OnTimeout(now: nat) returns (ghost rs: seq<Request>)
      requires Valid() && clock <= now
      modifies this, ackBatcher, nackBatcher, frameAcks
      ensures Valid() && clock == now && PollTimeout() > now
      ensures old(Due(now)) ==>
        && InKeyOrder(old(pending), rs)
        && NackStream(transcript) == old(NackStream(transcript)) + ToSend(old(core).coverage, rs)
      ensures !old(Due(now)) ==> NackStream(transcript) == old(NackStream(transcript))
      ensures exists nacks :: OnlyNacks([], nacks) &&
                              transcript == old(transcript) + old(AckMessages(now)) + nacks
                                            + if now >= old(nextFeedback) then [Feedback] else []
      ensures purged == if old(Due(now)) then {} else old(purged)
      ensures nextFeedback == if now >= old(nextFeedback) then now + 100_000 else old(nextFeedback)
      ensures nextTailSweep == if now >= old(nextTailSweep) then now + 500_000 else old(nextTailSweep)
      ensures past == old(past).(held := old(past).held + Entries(core.coverage))
      ensures now < old(nextTailSweep) ==> core == old(core) && pending == if old(Due(now)) then map[] else old(pending)
      ensures now >= old(nextTailSweep) ==>
        && core == old(core).(coverage := SweptCoverage(old(core).coverage, now, old(core).coverage.Keys))
        && SweptQueue(if old(Due(now)) then map[] else old(pending),
                      old(core).coverage, now, old(core).coverage.Keys, pending)
    {
      hide QueueOk, AcksOk, AckMessages, NackStream, ToSend, InKeyOrder, SweptQueue, SweptCoverage, EntriesOk;
      hide BatchesOk, SentJustified, Entries;
      FireAcks(now);
      ghost var nacks;
      rs, nacks := FireNacks(now);
      SweepTail(now);
      FireFeedback(now);
    }

    /** The debounced requests leave when their time has come. */
    method FireNacks(now: nat) returns (ghost rs: seq<Request>, ghost nacks: seq<Message>)
      requires QueueOk() && WireOk() && PastOk() && nackBatcher.entries == []
      modifies this`pending, this`pendingDeadline, this`purged, this`outbox, this`transcript, nackBatcher
      ensures QueueOk() && WireOk() && PastOk() && nackBatcher.entries == [] && nackBatcher.deadline == None
      ensures purged == if old(Due(now)) then {} else old(purged)
      ensures OnlyNacks([], nacks) && transcript == old(transcript) + nacks
      ensures pendingDeadline.Some? ==> pendingDeadline.value > now
      ensures if old(Due(now))
        then && InKeyOrder(old(pending), rs) && pending == map[]
             && NackStream(transcript) == old(NackStream(transcript)) + ToSend(core.coverage, rs)
        else NackStream(transcript) == old(NackStream(transcript)) && pending == old(pending)
    {
      hide NackStream, ToSend, InKeyOrder, Grounded, BatchesOk, SentJustified, EntriesOk, Entries;
      FireNackBatcher(now);
      rs := [];
      if pendingDeadline.Some? && now >= pendingDeadline.value {
        rs := FlushPendingNacks(now);
        FlushJustified(past, core.coverage, old(pending), rs, old(NackStream(transcript)));
      }
      nacks := transcript[|old(transcript)|..];
    }

    /** The batcher's own timer: between calls there is nothing for it to send. */
    method FireNackBatcher(now: nat)
      requires WireOk() && nackBatcher.entries == []
      modifies nackBatcher
      ensures WireOk() && nackBatcher.entries == [] && nackBatcher.deadline == None
      ensures nackBatcher.sent == old(nackBatcher.sent)
    {
      var batch := nackBatcher.OnTimeout(now);
    }

    method FireFeedback(now: nat)
      requires WireOk()
      modifies this`outbox, this`transcript, this`nextFeedback
      ensures WireOk() && NackStream(transcript) == old(NackStream(transcript))
      ensures nextFeedback == if now >= old(nextFeedback) then now + 100_000 else old(nextFeedback)
      ensures transcript == old(transcript) + if now >= old(nextFeedback) then [Feedback] else []
    {
      hide NackStream;
      if now >= nextFeedback {
        PushOther(Feedback);
        nextFeedback := now + FEEDBACK_INTERVAL_US;
      }
    }

    /** Queue what an arrival asks for. */
    method QueueAll(rs: seq<Request>, now: nat)
      requires QueueOk() && forall i :: 0 <= i < |rs| ==> Justified(past, rs[i])
      modifies this`pending, this`pendingDeadline
      ensures QueueOk()
      ensures forall k :: k in pending <==> k in old(pending) || exists i :: 0 <= i < |rs| && KeyOf(rs[i]) == k
      ensures forall k :: k in old(pending) ==> pending[k] == old(pending)[k]
      ensures forall k :: k in pending && k !in old(pending) ==> pending[k] in rs
      ensures DeadlineKept(old(pendingDeadline), pendingDeadline, now)
    {
      hide Justified, KeyOf, Grounded;
      for i := 0 to |rs|
        invariant QueueOk()
        invariant forall k :: k in pending <==> k in old(pending) || exists j :: 0 <= j < i && KeyOf(rs[j]) == k
        invariant forall k :: k in old(pending) ==> pending[k] == old(pending)[k]
        invariant forall k :: k in pending && k !in old(pending) ==> pending[k] in rs
        invariant DeadlineKept(old(pendingDeadline), pendingDeadline, now)
      {
        QueuePassNack(rs[i], now);
      }
    }

    /** Drop requests for tiles a new grid no longer has; the deadline stays. */
    method PurgeOutside(dims: Option<(nat, nat)>)
      requires QueueOk()
      modifies this`pending, this`purged
      ensures QueueOk() && pending == map k | k in old(pending) && R.TileInGrid(dims, TileOf(k)) :: old(pending)[k]
      ensures purged == old(purged) + (old(pending).Keys - pending.Keys)
    {
      hide Justified, KeyOf;
      ghost var was := pending.Keys;
      pending := map k | k in pending && R.TileInGrid(dims, TileOf(k)) :: pending[k];
      purged := purged + (was - pending.Keys);
      assert pending.Keys + purged == was + old(purged);
    }

    /**
     * One source tile datagram: its coverage is noted and what it shows missing is
     * queued. A request it raises is what waits exactly when none waits already under
     * another label; requests for tiles a new grid leaves out are gone, all others stay.
     */
    method OnSource(src: R.Source, received: bool, now: nat)
      requires Valid() && R.SourceOk(src)
      modifies this`core, this`pending, this`pendingDeadline, this`past, this`purged
      ensures Valid() && core == R.HandleSource(old(core), src, received, now).core
      ensures past == PastAfter(old(past), src, core.coverage)
      ensures Requeued(old(pending), pending, core.dims != old(core).dims, core.dims,
                       R.HandleSource(old(core), src, received, now).requests)
      ensures BreaksUnasked(old(core), src, received) ==> KeyOf(AskedBy(src)) in pending
      ensures purged == old(purged) + (old(pending).Keys - pending.Keys)
      ensures DeadlineKept(old(pendingDeadline), pendingDeadline, now)
    {
      hide AcksOk, WireOk, R.HandleSource, QueueOk, Justified, Requeued, IsBroken, DeadlineKept;
      hide EntriesOk, Entries, SentJustified, NackStream;
      var h := R.HandleSource(core, src, received, now);
      DimensionsAskNothing(core, src, received, now);
      ArrivalKeys(core, src, received, now);
      var changed := h.core.dims != core.dims;
      Remember(src, received, now);
      core := h.core;
      Requeue(changed, h.requests, now);
      BrokenWaits(old(core), src, received, now, old(pending), pending);
    }

    /** Drop what a new grid leaves out, or queue what an arrival asks for. */
    method Requeue(changed: bool, rs: seq<Request>, now: nat)
      requires QueueOk() && (changed ==> rs == []) && forall r :: r in rs ==> Justified(past, r)
      requires forall r, q :: r in rs && q in rs && KeyOf(r) == KeyOf(q) ==> r == q
      modifies this`pending, this`pendingDeadline, this`purged
      ensures QueueOk() && Requeued(old(pending), pending, changed, core.dims, rs)
      ensures purged == old(purged) + (old(pending).Keys - pending.Keys)
      ensures DeadlineKept(old(pendingDeadline), pendingDeadline, now)
    {
      hide Justified, Grounded, KeyOf, R.TileInGrid;
      if changed {
        PurgeOutside(core.dims);
      } else {
        QueueAll(rs, now);
        assert old(pending).Keys - pending.Keys == {};
        GroundedKeys(past, old(pending));
        GroundedKeys(past, pending);
        FirstWaits(old(pending), pending, rs);
      }
    }

    /** The arrival becomes part of the past. */
    ghost method Remember(src: R.Source, received: bool, now: nat)
      requires QueueOk() && PastOk() && R.SourceOk(src)
      modifies this`past
      ensures QueueOk() && past == PastAfter(old(past), src, R.HandleSource(core, src, received, now).core.coverage)
      ensures forall r :: r in R.HandleSource(core, src, received, now).requests ==> Justified(past, r)
      ensures EntriesOk(R.HandleSource(core, src, received, now).core.coverage)
      ensures Entries(R.HandleSource(core, src, received, now).core.coverage) <= past.held
      ensures SentJustified(past, NackStream(transcript))
    {
      hide R.HandleSource, Justified, Grounded, SentJustified, EntriesOk, Entries, IsBroken, NackStream;
      var h := R.HandleSource(core, src, received, now);
      var after := PastAfter(past, src, h.core.coverage);
      forall r | r in h.requests ensures Justified(after, r) { ArrivalJustified(past, core, src, received, now, r); }
      ArrivalEntries(core, src, received, now);
      GroundedStays(past, after, pending);
      SentStays(past, after, NackStream(transcript));
      past := after;
    }

    /** A decoded or refused frame is noted for the next frame ack. */
    method RecordFrame(seq': u32, isDecoded: bool, now: nat, ghost n: int)
      requires Valid() && clock <= now && seq' == Wrap31(n)
      requires frameAcks.newest.Some? ==> -HALF31 <= n - frameAcks.trueNewest < HALF31
      modifies this`clock, frameAcks
      ensures Valid() && clock == now && frameAcks.recordedEver == old(frameAcks.recordedEver) + {n}
    {
      hide QueueOk, WireOk, PastOk, FrameAckWindow.Valid;
      frameAcks.Record(seq', isDecoded, now, n);
      clock := now;
    }

    /** An accepted datagram is acknowledged. */
    method Acknowledge(e: AckEntry, now: nat)
      requires Valid()
      modifies this`outbox, this`transcript, ackBatcher
      ensures Valid() && ackBatcher.added == old(ackBatcher.added) + [e]
      ensures NackStream(transcript) == old(NackStream(transcript))
    {
      hide QueueOk, EntriesOk, NackStream, SentJustified, Entries;
      var batch := ackBatcher.Add(e, now);
      if batch.Some? { PushOther(Acks(batch.value)); }
    }
  }

  lemma DimensionsAskNothing(core: R.Core, src: R.Source, received: bool, now: nat)
    requires src.frameSeq < MOD31
    ensures var h := R.HandleSource(core, src, received, now);
            h.core.dims != core.dims ==> h.requests == []
  {
    hide ApplyArrival, Order, LabelExpired, LabelRunsAhead, IsNewer;
  }

  lemma GroundedKeys(past: Past, pending: Pending)
    requires Grounded(past, pending)
    ensures KeysOk(pending)
  {
  }

  /** What one arrival asks for differs in the pass alone. */
  lemma ArrivalKeys(core: R.Core, src: R.Source, received: bool, now: nat)
    requires src.frameSeq < MOD31
    ensures var rs := R.HandleSource(core, src, received, now).requests;
            forall r, q :: r in rs && q in rs && KeyOf(r) == KeyOf(q) ==> r == q
  {
    hide ApplyArrival, Order, LabelExpired, LabelRunsAhead, IsNewer;
  }

  lemma FirstWaits(was: Pending, pending: Pending, rs: seq<Request>)
    requires KeysOk(was) && KeysOk(pending) && forall r, q :: r in rs && q in rs && KeyOf(r) == KeyOf(q) ==> r == q
    requires forall r :: r in rs ==> KeyOf(r) in pending
    requires forall r :: r in rs && KeyOf(r) in was ==> pending[KeyOf(r)] == was[KeyOf(r)]
    requires forall k :: k in pending && k !in was ==> pending[k] in rs
    ensures forall r :: r in rs ==> (pending[KeyOf(r)] == r <==> (KeyOf(r) in was ==> was[KeyOf(r)] == r))
  {
    hide KeyOf;
  }

  lemma NothingToSend(coverage: map<Tile, CoverageEntry>)
    ensures ToSend(coverage, []) == []
  {
  }

  lemma NoPassYet(pending: Pending, e: CoverageEntry, t: Tile, missing: Mask)
    ensures SweptPart(pending, e, t, missing, 0, pending)
  {
  }

  lemma NothingMissing(pending: Pending, e: CoverageEntry, t: Tile)
    ensures SweptPart(pending, e, t, {}, 14, pending)
  {
  }

  lemma NoTileYet(pending: Pending, coverage: map<Tile, CoverageEntry>, now: nat)
    ensures SweptQueue(pending, coverage, now, {}, pending)
  {
  }

  ghost predicate SweptIs(e: CoverageEntry, now: nat, missing: Mask) {
    Swept(e, now) == if missing == {} then e
                     else e.(nackedMask := e.nackedMask - missing,
                             lastChange := now, sweepAttempts := e.sweepAttempts + 1)
  }

  lemma WhatSweepStores(e: CoverageEntry, now: nat)
    ensures SweptIs(e, now, SweepMissing(e, now))
  {
  }
}
