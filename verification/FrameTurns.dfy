/**
 * Frame numbers are 31 bits wide and wrap; the frame assembler compares them as
 * they are. With the true, ever growing numbers of the frames beside the wrapped
 * ones: which fragments it takes that it should, and what the wrap does to a stream.
 */
module FrameTurns {
  import opened Serial
  import opened GateLog
  import opened FrameAssembly

  function Turn(n: nat): nat { n / MOD31 }

  lemma WithinTurn(a: nat, b: nat)
    requires -HALF31 <= a - b <= HALF31
    ensures Wrap31(a) - Wrap31(b) == a - b - (Turn(a) - Turn(b)) * MOD31
    ensures -1 <= Turn(a) - Turn(b) <= 1
  {
    assert Wrap31(a) == a - Turn(a) * MOD31 && Wrap31(b) == b - Turn(b) * MOD31;
  }

  ghost predicate Shaped(d: Datagram) { d.fragIdx < d.fragTotal <= MAX_FRAME_FRAGMENTS && !d.pad }

  /** A P fragment by true order: after the newest frame fed, and inside the window of three. */
  predicate InOrder(n: nat, latest: nat, fed: Option<nat>) { (fed.Some? ==> n > fed.value) && n + 2 >= latest }

  function WrapAll(fed: Option<nat>): Option<nat> { if fed.Some? then Some(Wrap31(fed.value)) else None }

  predicate Near(n: nat, latest: nat, fed: Option<nat>) {
    -HALF31 <= n - latest <= HALF31 && (fed.Some? ==> -HALF31 <= n - fed.value <= HALF31)
  }

  /**
   * A P fragment is judged by true order exactly when it shares its turn with what it
   * is compared to, or the comparison that goes wrong does not decide: it is out of
   * the window anyway; or it comes from the turn before and would be taken or was fed.
   */
  predicate JudgedRightly(n: nat, latest: nat, fed: Option<nat>) {
    var withFed := fed.Some? ==> Turn(n) == Turn(fed.value);
    if Turn(n) == Turn(latest) then withFed || n + 2 < latest
    else if Turn(n) < Turn(latest) then withFed && (n + 2 >= latest || (fed.Some? && n <= fed.value))
    else fed.Some? && n <= fed.value
  }

  lemma JudgedRightlyIff(f: Frames, d: Datagram, n: nat, latest: nat, fed: Option<nat>, now: nat)
    requires Shaped(d) && !d.header.keyframe && Near(n, latest, fed)
    requires d.header.frameSeq == Wrap31(n) && f.latest == Wrap31(latest)
    ensures (MayTake(f.assemblies, f.latest, d, now, WrapAll(fed)) <==> InOrder(n, latest, fed))
       <==> JudgedRightly(n, latest, fed)
  {
    WithinTurn(n, latest);
    if fed.Some? { WithinTurn(n, fed.value); }
  }

  // ------------------------------------------------------------ a whole run

  /** One datagram, when it came and what had been fed by then. */
  datatype Arrival = Arrival(d: Datagram, now: nat, lastFed: Option<nat>)

  ghost function Run(f: Frames, run: seq<Arrival>): Frames {
    if run == [] then f else
      var a := run[|run| - 1];
      Step(Run(f, run[..|run| - 1]), a.d, a.now, a.lastFed).0
  }

  ghost predicate TakenAt(f: Frames, run: seq<Arrival>, i: nat)
    requires i < |run|
  {
    var before := Run(f, run[..i]);
    MayTake(before.assemblies, before.latest, run[i].d, run[i].now, run[i].lastFed)
  }

  /**
   * Once the numbers have wrapped, whatever arrives, the newest number stays where it
   * was and no P fragment is taken: until the numbers come round again only IDRs pass.
   */
  lemma {:induction false} StuckAfterTheWrap(f: Frames, run: seq<Arrival>, i: nat)
    requires i < |run| && forall k :: 0 <= k < |run| ==> run[k].d.header.frameSeq + 2 < f.latest
    ensures Run(f, run[..i]).latest == f.latest
    ensures TakenAt(f, run, i) ==> run[i].d.header.keyframe
  {
    hide Taken;
    if i == 0 {
    } else {
      StuckAfterTheWrap(f, run, i - 1);
      assert run[..i][..i - 1] == run[..i - 1];
    }
  }

  /**
   * The run carries P fragments of the frames `ns`, in order and never more than half
   * a turn apart; `feds` is the newest of them fed before each, if any.
   */
  ghost predicate CarriesInOrder(run: seq<Arrival>, ns: seq<nat>, feds: seq<Option<nat>>) {
    && |run| == |ns| == |feds|
    && (forall i :: 0 <= i < |run| ==> Shaped(run[i].d) && !run[i].d.header.keyframe)
    && (forall i :: 0 <= i < |run| ==> run[i].d.header.frameSeq == Wrap31(ns[i]) && run[i].lastFed == WrapAll(feds[i]))
    && (forall i :: 0 <= i < |feds| && feds[i].Some? ==> ns[0] <= feds[i].value < ns[i])
    && forall i :: 0 < i < |ns| ==> ns[i - 1] <= ns[i] <= ns[i - 1] + HALF31
  }

  ghost predicate OneTurn(ns: seq<nat>) { forall i :: 0 <= i < |ns| ==> Turn(ns[i]) == Turn(ns[0]) }

  /** A further frame of the turn that began with `first`. */
  lemma NextTaken(f: Frames, a: Arrival, first: nat, n: nat, fed: Option<nat>)
    requires Shaped(a.d) && !a.d.header.keyframe && a.d.header.frameSeq == Wrap31(n) && a.lastFed == WrapAll(fed)
    requires first <= n && Turn(first) == Turn(n) && f.latest <= Wrap31(n)
    requires fed.Some? ==> first <= fed.value < n
    ensures MayTake(f.assemblies, f.latest, a.d, a.now, a.lastFed)
    ensures Step(f, a.d, a.now, a.lastFed).0.latest == Wrap31(n)
  {
    hide Taken, ExemptFragment;
    if fed.Some? { assert Turn(fed.value) == Turn(n); }
  }

  lemma {:induction false} TakenInOneTurn(run: seq<Arrival>, ns: seq<nat>, feds: seq<Option<nat>>)
    requires CarriesInOrder(run, ns, feds) && OneTurn(ns)
    ensures forall i :: 0 <= i < |run| ==> TakenAt(Frames(map[], 0), run, i)
    ensures run != [] ==> ns[0] <= ns[|ns| - 1] && Run(Frames(map[], 0), run).latest == Wrap31(ns[|ns| - 1])
  {
    hide Step, MayTake, Turn;
    var none := Frames(map[], 0);
    if run == [] {
    } else {
      var k := |run| - 1;
      TakenInOneTurn(run[..k], ns[..k], feds[..k]);
      if k > 0 { SameTurnOrder(ns[k - 1], ns[k]); }
      NextTaken(Run(none, run[..k]), run[k], ns[0], ns[k], feds[k]);
      forall i | 0 <= i < |run|
        ensures TakenAt(none, run, i)
      {
        if i < k {
          assert TakenAt(none, run[..k], i);
          assert run[..k][..i] == run[..i];
        }
      }
    }
  }

  lemma SameTurnOrder(a: nat, b: nat)
    requires a <= b && Turn(a) == Turn(b)
    ensures Wrap31(a) <= Wrap31(b)
  {
  }

  /** The first frame of the next turn is refused. */
  lemma RefusedAtTheTurn(run: seq<Arrival>, ns: seq<nat>, feds: seq<Option<nat>>, k: nat)
    requires CarriesInOrder(run, ns, feds) && 0 < k < |ns| && OneTurn(ns[..k]) && Turn(ns[k]) != Turn(ns[0])
    ensures !TakenAt(Frames(map[], 0), run, k)
  {
    hide Taken;
    TakenInOneTurn(run[..k], ns[..k], feds[..k]);
    assert Turn(ns[..k][k - 1]) == Turn(ns[..k][0]);
    WithinTurn(ns[k], ns[k - 1]);
  }

  /** A stream of P frames in order is taken whole exactly when it crosses no multiple of 2^31. */
  lemma TakenWholeIffOneTurn(run: seq<Arrival>, ns: seq<nat>, feds: seq<Option<nat>>)
    requires CarriesInOrder(run, ns, feds)
    ensures (forall i :: 0 <= i < |run| ==> TakenAt(Frames(map[], 0), run, i)) <==> OneTurn(ns)
  {
    hide TakenAt;
    if OneTurn(ns) {
      TakenInOneTurn(run, ns, feds);
    } else {
      var k := FirstOutside(ns);
      RefusedAtTheTurn(run, ns, feds, k);
    }
  }

  lemma FirstOutside(ns: seq<nat>) returns (k: nat)
    requires !OneTurn(ns)
    ensures 0 < k < |ns| && OneTurn(ns[..k]) && Turn(ns[k]) != Turn(ns[0])
  {
    k := 1;
    while k < |ns| && Turn(ns[k]) == Turn(ns[0])
      invariant 1 <= k <= |ns| && forall i :: 0 <= i < k ==> Turn(ns[i]) == Turn(ns[0])
    {
      k := k + 1;
    }
  }

  // ------------------------------------------------------------- at the wrap

  /** Frame 0x7FFF_FFFF comes out whole; the next, numbered 0, never starts. */
  method LostAtTheWrap(last: Datagram, next: Datagram, now: nat) returns (u: Option<AccessUnit>, v: Option<AccessUnit>)
    requires last.header.frameSeq == 0x7FFF_FFFF && next.header.frameSeq == 0 && !next.header.keyframe
    requires last.fragTotal == next.fragTotal == 1 && last.fragIdx == next.fragIdx == 0 && !last.pad && !next.pad
    requires |last.payload| <= MAX_ACCESS_UNIT_BYTES
    ensures u == Some(AccessUnit(last.header, last.payload)) && v == None
  {
    var a := new FrameAssembler();
    WholeFrameComesOut(last, now);
    u := a.HandleFrameDatagram(last, now, None);
    hide Taken;
    v := a.HandleFrameDatagram(next, now, Some(0x7FFF_FFFF));
  }

  lemma WholeFrameComesOut(d: Datagram, now: nat)
    requires d.fragTotal == 1 && d.fragIdx == 0 && !d.pad && |d.payload| <= MAX_ACCESS_UNIT_BYTES
    ensures Step(Frames(map[], 0), d, now, None)
         == (Frames(map[], d.header.frameSeq), Some(AccessUnit(d.header, d.payload)))
  {
    var s := d.header.frameSeq;
    var open := Opened(map[], s, d, now);
    assert Survivors(map[], s, now) == map[];
    assert open == map[s := FreshFor(d, now)] by {
      assert Survivors(map[s := FreshFor(d, now)], s, now) == map[s := FreshFor(d, now)];
    }
    assert Concat([d.payload]) == d.payload by { assert [d.payload][..0] == []; }
    var filled := WithFragment(open, d);
    assert Complete(filled[s]) && Parts(filled[s]) == [d.payload];
    assert filled - {s} == map[];
  }

  /** The true numbers of the frames being assembled: none newer than `latest`, all within half a turn of `n`. */
  ghost predicate TrueNumbers(f: Frames, truth: map<nat, nat>, latest: nat, n: nat) {
    && f.latest == Wrap31(latest) && latest <= n <= latest + HALF31 && truth.Keys == f.assemblies.Keys
    && forall s :: s in truth ==> s == Wrap31(truth[s]) && truth[s] <= latest && n - truth[s] <= HALF31
  }

  /** An IDR of the next turn, though the newest of all, starts exactly when no other IDR is being assembled. */
  lemma IdrStartsAfterTheWrap(
    f: Frames, d: Datagram, n: nat, latest: nat, truth: map<nat, nat>, now: nat, lastFed: Option<nat>)
    requires Shaped(d) && d.header.keyframe && d.header.frameSeq == Wrap31(n) && Turn(n) > Turn(latest)
    requires TrueNumbers(f, truth, latest, n)
    ensures MayTake(f.assemblies, f.latest, d, now, lastFed)
       <==> forall s :: s in f.assemblies ==> !f.assemblies[s].header.keyframe
    ensures MayTake(f.assemblies, f.latest, d, now, lastFed) ==>
      d.header.frameSeq in Opened(f.assemblies, f.latest, d, now)
  {
    WithinTurn(n, latest);
    forall s | s in f.assemblies
      ensures s > d.header.frameSeq
    {
      WithinTurn(n, truth[s]);
      OlderTurn(truth[s], latest);
    }
  }

  lemma OlderTurn(a: nat, b: nat)
    requires a <= b
    ensures Turn(a) <= Turn(b)
  {
  }
}
