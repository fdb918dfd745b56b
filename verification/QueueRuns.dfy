/**
 * Two runs of the request queue that end where its documentation says it does not:
 * a request sent for content the tile has left, and a deadline armed while nothing waits.
 */
module QueueRuns {
  import opened Serial
  import opened BitPlanes
  import opened TileState
  import opened Coverage
  import opened ClientTimers
  import R = Reassembly

  const CORNER: Tile := (1, 0)

  /** A pass of the content under `lab`, whose bitmap names passes 0, 1 and 2. */
  function PassOf(lab: nat, pass: nat, plane: Plane): R.Source {
    R.Source(lab, CORNER, true,
      R.Cdf53Body(0, pass, Some(R.Checked(plane, if pass == 0 then Some({0, 1, 2}) else None))))
  }

  function Started(lab: nat, now: nat): CoverageEntry {
    CoverageEntry(0, lab, {0}, {}, Some({0, 1, 2}), now, 0, Some(0))
  }

  /** Pass 2 has overtaken pass 1, which is marked as asked for. */
  function Gapped(lab: nat, now: nat): CoverageEntry {
    CoverageEntry(0, lab, {0, 2}, {1}, Some({0, 1, 2}), now, 0, Some(2))
  }

  lemma StartsTile(core: R.Core, lab: nat, plane: Plane, now: nat)
    requires lab == 1 || lab == 2
    requires core == if lab == 1 then R.Core(None, map[], None) else R.Core(None, map[CORNER := Gapped(1, 0)], Some(1))
    ensures var h := R.HandleSource(core, PassOf(lab, 0, plane), true, now);
            h.core == R.Core(None, map[CORNER := Started(lab, now)], Some(lab)) && h.requests == []
  {
    hide Below;
    assert IsNewer(2, 1) && !LabelExpired(1, Some(2));
    assert FreshEntry(0, lab, now).passMask + {0} == {0};
  }

  /** Once pass 2 has landed, before the gap below it is marked. */
  function Landed(lab: nat, now: nat): CoverageEntry {
    CoverageEntry(0, lab, {0, 2}, {}, Some({0, 1, 2}), now, 0, Some(2))
  }

  lemma SecondLands(lab: nat, then': nat, now: nat)
    requires lab < MOD31
    ensures var prev := Some(Started(lab, then')); var e := Noted(prev, 0, 2, lab, now, None);
            && Order(prev, 0, lab) == Current && 2 !in e.passMask
            && e.(passMask := e.passMask + {2}, lastChange := now, sweepAttempts := 0) == Landed(lab, now)
  {
    assert {0} + {2} == {0, 2};
  }

  lemma OneMissing(lab: nat, now: nat)
    ensures MissingBelow(Landed(lab, now), 2) == {1} && Below({1}, 2) == [1]
  {
    assert Below({1}, 0) == [] && Below({1}, 1) == [];
  }

  lemma GapFound(lab: nat, then': nat, now: nat)
    requires lab < MOD31
    ensures ApplyArrival(Some(Started(lab, then')), 0, 2, lab, now, true, None)
         == Outcome(Gapped(lab, now), [1], false, true)
  {
    hide Noted, Order, MissingBelow, Below;
    SecondLands(lab, then', now);
    OneMissing(lab, now);
    assert Landed(lab, now).nackedMask + {1} == {1};
  }

  lemma GapsTile(lab: nat, plane: Plane, then': nat, now: nat)
    requires lab == 1 || lab == 2
    ensures var core := R.Core(None, map[CORNER := Started(lab, then')], Some(lab));
            var h := R.HandleSource(core, PassOf(lab, 2, plane), true, now);
            && h.core == R.Core(None, map[CORNER := Gapped(lab, now)], Some(lab))
            && h.requests == [R.Request(lab, CORNER, 1)]
  {
    hide ApplyArrival;
    GapFound(lab, then', now);
  }

  lemma OneWaits(r: Request, rs: seq<Request>)
    requires InKeyOrder(map[KeyOf(r) := r], rs)
    ensures rs == [r]
  {
    assert r in rs && forall i :: 0 <= i < |rs| ==> rs[i] in rs && rs[i] == r;
    assert 1 < |rs| ==> Precedes(KeyOf(rs[0]), KeyOf(rs[1]));
  }

  lemma StillWanted(r: Request)
    requires r == R.Request(1, CORNER, 1)
    ensures Wanted(map[CORNER := Gapped(2, 20_000)], r)
  {
  }

  lemma OneSent(coverage: map<Tile, CoverageEntry>, r: Request)
    requires Wanted(coverage, r)
    ensures ToSend(coverage, [r]) == [Flagged(r)]
  {
    assert [r][..0] == [];
  }

  /** Asking for what waits already, under any label, or for nothing, changes nothing. */
  lemma QueueStays(was: Pending, pending: Pending, dims: Option<(nat, nat)>, rs: seq<Request>)
    requires Requeued(was, pending, false, dims, rs) && KeysOk(pending) && forall r :: r in rs ==> KeyOf(r) in was
    ensures pending == was
  {
    hide KeyOf;
    assert forall k :: k in pending && k !in was ==> pending[k] in rs;
  }

  lemma OneAsked(pending: Pending, dims: Option<(nat, nat)>, r: Request)
    requires Requeued(map[], pending, false, dims, [r]) && KeysOk(pending)
    ensures pending == map[KeyOf(r) := r]
  {
    assert r in [r] && KeyOf(r) in pending;
    assert forall k :: k in pending ==> pending[k] in [r];
  }

  /** The first two passes of content under label 1, pass 1 lost between them. */
  method LosePass(lost: Plane) returns (c: Clockwork)
    ensures fresh(c) && fresh(c.ackBatcher) && fresh(c.nackBatcher) && fresh(c.frameAcks)
    ensures c.Valid() && c.clock == 0 && c.nextTailSweep == TAIL_SWEEP_INTERVAL_US && NackStream(c.transcript) == []
    ensures c.core == R.Core(None, map[CORNER := Gapped(1, 0)], Some(1)) && c.purged == {}
    ensures c.pending == map[(1, 0, 1) := R.Request(1, CORNER, 1)] && c.pendingDeadline == Some(NACK_DEBOUNCE_US)
  {
    hide R.HandleSource, Grounded, Clockwork.WireOk, Clockwork.AcksOk, Clockwork.PastOk, Started, Gapped, Requeued;
    c := new Clockwork(false, 0);
    StartsTile(c.core, 1, lost, 0);
    ghost var none := c.pending;
    c.OnSource(PassOf(1, 0, lost), true, 0);
    GroundedKeys(c.past, c.pending);
    QueueStays(none, c.pending, None, []);
    GapsTile(1, lost, 0, 0);
    c.OnSource(PassOf(1, 2, lost), true, 0);
    GroundedKeys(c.past, c.pending);
    OneAsked(c.pending, None, R.Request(1, CORNER, 1));
    assert (1, 0, 1) in c.pending.Keys + c.purged;
  }

  /** While that request waits, content 2 loses the same pass. */
  method LoseAgain(plane: Plane) returns (c: Clockwork)
    ensures fresh(c) && fresh(c.ackBatcher) && fresh(c.nackBatcher) && fresh(c.frameAcks)
    ensures c.Valid() && c.clock == 0 && c.nextTailSweep == TAIL_SWEEP_INTERVAL_US && NackStream(c.transcript) == []
    ensures c.core.coverage == map[CORNER := Gapped(2, 20_000)]
    ensures c.pending == map[(1, 0, 1) := R.Request(1, CORNER, 1)] && c.pendingDeadline == Some(NACK_DEBOUNCE_US)
  {
    hide R.HandleSource, Grounded, Clockwork.WireOk, Clockwork.AcksOk, Clockwork.PastOk, Started, Gapped, Requeued;
    c := LosePass(plane);
    ghost var was := c.pending;
    StartsTile(c.core, 2, plane, 10_000);
    c.OnSource(PassOf(2, 0, plane), true, 10_000);
    GroundedKeys(c.past, c.pending);
    QueueStays(was, c.pending, None, []);
    GapsTile(2, plane, 10_000, 20_000);
    c.OnSource(PassOf(2, 2, plane), true, 20_000);
    GroundedKeys(c.past, c.pending);
    QueueStays(was, c.pending, None, [R.Request(2, CORNER, 1)]);
  }

  /**
   * A pass of content 1 is lost and asked for; content 2 loses the same pass while the
   * request waits. What is sent names content 1, and content 2 counts its pass as asked.
   */
  method OldLabelIsSent(plane: Plane) returns (c: Clockwork)
    ensures NackStream(c.transcript) == [R.Request(1 + MOD31, CORNER, 1)] && c.pending == map[]
    ensures c.core.coverage == map[CORNER := Gapped(2, 20_000)]
  {
    hide Clockwork.QueueOk, Clockwork.WireOk, Clockwork.AcksOk, Clockwork.PastOk, Gapped, NackStream, ToSend;
    hide Clockwork.AckMessages, OnlyNacks, InKeyOrder, SweptQueue, SweptCoverage;
    c := LoseAgain(plane);
    ghost var r := R.Request(1, CORNER, 1);
    assert c.pending == map[KeyOf(r) := r];
    ghost var rs := c.OnTimeout(NACK_DEBOUNCE_US);
    OneWaits(r, rs);
    StillWanted(r);
    OneSent(map[CORNER := Gapped(2, 20_000)], r);
  }

  /** The grid shrinks under the one waiting request: nothing waits and the deadline stays. */
  method ArmedForNothing(plane: Plane) returns (c: Clockwork)
    ensures c.pending == map[] && c.pendingDeadline == Some(NACK_DEBOUNCE_US) && c.purged == {(1, 0, 1)}
  {
    hide Grounded, Clockwork.WireOk, Clockwork.AcksOk, Clockwork.PastOk, Gapped;
    c := LosePass(plane);
    c.OnSource(R.Source(1, (255, 255), true, R.DimensionsBody(32, 32)), true, 10_000);
    assert c.pending == map[];
  }
}
