/**
 * Asking again for passes a stalled tile is still owed: which passes one sweep of
 * a tile asks for, and how often it may ask.
 */
module TailSweep {
  import opened Serial
  import opened BitPlanes
  import opened TileState
  import opened Coverage

  const TAIL_FALLBACK_US: nat := 1_500_000
  const MAX_TAIL_SWEEP_ATTEMPTS: nat := 6

  /** The passes a sweep at `now` asks for; none when the tile is left alone. */
  function SweepMissing(e: CoverageEntry, now: nat): Mask {
    if e.present.Some? && e.passMask == e.present.value then {}
    else
      var missing := if e.present.Some? then e.present.value - e.passMask else {0};
      if now < e.lastChange + TAIL_FALLBACK_US then {}
      else if e.sweepAttempts >= MAX_TAIL_SWEEP_ATTEMPTS then {}
      else GapEvidence(e, missing)
  }

  function Swept(e: CoverageEntry, now: nat): CoverageEntry {
    var missing := SweepMissing(e, now);
    if missing == {} then e
    else e.(nackedMask := e.nackedMask - missing, lastChange := now, sweepAttempts := e.sweepAttempts + 1)
  }

  /** While the bitmap is unknown pass 0, which carries it, has not been received. */
  predicate BitmapWithPassZero(e: CoverageEntry) { e.present.None? ==> 0 !in e.passMask }

  lemma ArrivalKeepsBitmap(
    prev: Option<CoverageEntry>, generation: nat, pass: nat, frameSeq: nat, now: nat, ok: bool, present: Option<Mask>)
    requires prev.Some? ==> BitmapWithPassZero(prev.value)
    requires ok ==> (present.Some? <==> pass == 0)
    ensures BitmapWithPassZero(ApplyArrival(prev, generation, pass, frameSeq, now, ok, present).entry)
  {
    hide MissingBelow, Below, ClassifyArrival;
  }

  /**
   * A sweep asks only for passes the tile is owed by its own bitmap (pass 0 alone
   * while that is unknown), has not received, and that a pass at least as high
   * has overtaken; and only after the tile has been still for the grace period.
   */
  lemma SweepJustified(e: CoverageEntry, now: nat, p: nat)
    requires p in SweepMissing(e, now) && BitmapWithPassZero(e)
    ensures p in Owed(e) && p !in e.passMask
    ensures e.highestPassSeen.Some? && p <= e.highestPassSeen.value && p <= 14
    ensures now - e.lastChange >= TAIL_FALLBACK_US && e.sweepAttempts < MAX_TAIL_SWEEP_ATTEMPTS
  {
  }

  /** And it asks for all of them: every pass of which that is true. */
  lemma SweepAsksIff(e: CoverageEntry, now: nat, p: nat)
    requires BitmapWithPassZero(e)
    ensures p in SweepMissing(e, now) <==>
      && (if e.present.Some? then p in e.present.value else p == 0) && p !in e.passMask
      && e.highestPassSeen.Some? && p <= e.highestPassSeen.value && p <= 14
      && now >= e.lastChange + 1_500_000 && e.sweepAttempts < 6
  {
  }

  /**
   * A gap is asked for once by gap detection, until a sweep asks for it: then the
   * next pass above it that lands asks for it again.
   */
  lemma SweepReopensTheGap(e: CoverageEntry, now: nat, p: nat, pass: nat, frameSeq: nat, then': nat)
    requires p in SweepMissing(e, now) && BitmapWithPassZero(e)
    requires p < pass && pass !in e.passMask && Order(Some(e), e.generation, frameSeq) == Current
    ensures p in ApplyArrival(Some(e), e.generation, pass, frameSeq, then', true, None).nackPasses <==>
      p !in e.nackedMask
    ensures p in ApplyArrival(Some(Swept(e, now)), e.generation, pass, frameSeq, then', true, None).nackPasses
  {
    SweepJustified(e, now, p);
    hide SweepMissing, ClassifyArrival;
    var swept := Swept(e, now);
    assert p !in swept.nackedMask && Owed(swept) == Owed(e) && swept.passMask == e.passMask;
  }

  /** For a pass the sweep does not ask for, gap detection goes on as if there had been no sweep. */
  lemma SweepLeavesOthers(e: CoverageEntry, now: nat, p: nat, pass: nat, frameSeq: nat, then': nat)
    requires p !in SweepMissing(e, now)
    ensures p in ApplyArrival(Some(Swept(e, now)), e.generation, pass, frameSeq, then', true, None).nackPasses <==>
            p in ApplyArrival(Some(e), e.generation, pass, frameSeq, then', true, None).nackPasses
  {
    hide SweepMissing, ClassifyArrival, ApplyArrival;
    RequestsExactly(Some(e), e.generation, pass, frameSeq, then', true, None, p);
    RequestsExactly(Some(Swept(e, now)), e.generation, pass, frameSeq, then', true, None, p);
  }

  // --------------------------------------------------- a tile's whole life

  datatype TileStep =
    | Sweep(now: nat)
    | Arrive(expired: bool, generation: nat, pass: nat, frameSeq: nat, now: nat, ok: bool, present: Option<Mask>)
    | Purge(now: nat) // the tile left the grid

  /** A held entry whose label has aged out counts as absent. */
  function Live(prev: Option<CoverageEntry>, expired: bool): Option<CoverageEntry> { if expired then None else prev }

  function StepTile(prev: Option<CoverageEntry>, s: TileStep): Option<CoverageEntry> {
    match s
    case Sweep(now) => if prev.Some? then Some(Swept(prev.value, now)) else None
    case Arrive(expired, g, p, f, now, ok, present) =>
      var o := ApplyArrival(Live(prev, expired), g, p, f, now, ok, present);
      if o.committed then Some(o.entry) else prev
    case Purge(_) => None
  }

  function RunTile(run: seq<TileStep>): Option<CoverageEntry> {
    if run == [] then None else StepTile(RunTile(run[..|run| - 1]), run[|run| - 1])
  }

  /** The last step of the run is a sweep that asks. */
  predicate Asks(run: seq<TileStep>)
    requires run != []
  {
    var prev, s := RunTile(run[..|run| - 1]), run[|run| - 1];
    s.Sweep? && prev.Some? && SweepMissing(prev.value, s.now) != {}
  }

  /** The last step of the run is a valid pass that counted. */
  predicate Lands(run: seq<TileStep>)
    requires run != []
  {
    var prev, s := RunTile(run[..|run| - 1]), run[|run| - 1];
    || s.Purge?
    || (&& s.Arrive? && s.ok
        && ApplyArrival(Live(prev, s.expired), s.generation, s.pass, s.frameSeq, s.now, true, s.present).committed)
  }

  /** How many sweeps asked since a valid pass last counted. */
  function AsksSinceLanding(run: seq<TileStep>): nat {
    if run == [] || Lands(run) then 0
    else AsksSinceLanding(run[..|run| - 1]) + if Asks(run) then 1 else 0
  }

  lemma FailedArrivalKeepsAttempts(
    prev: Option<CoverageEntry>, generation: nat, pass: nat, frameSeq: nat, now: nat, present: Option<Mask>)
    ensures var o := ApplyArrival(prev, generation, pass, frameSeq, now, false, present);
            o.committed ==> prev.Some? && o.entry.sweepAttempts == prev.value.sweepAttempts
  {
    hide MissingBelow, Below, ClassifyArrival;
  }

  lemma LandingClearsAttempts(
    prev: Option<CoverageEntry>, generation: nat, pass: nat, frameSeq: nat, now: nat, present: Option<Mask>)
    ensures var o := ApplyArrival(prev, generation, pass, frameSeq, now, true, present);
            o.committed ==> o.entry.sweepAttempts == 0
  {
    hide MissingBelow, Below, ClassifyArrival;
  }

  /**
   * Over any life of a tile, whatever arrives, at most six sweeps ask between two
   * valid passes: requests for content that never comes do not go on for ever.
   */
  lemma {:induction false} SweepsAreBounded(run: seq<TileStep>)
    ensures AsksSinceLanding(run) <= MAX_TAIL_SWEEP_ATTEMPTS
    ensures RunTile(run).Some? ==> AsksSinceLanding(run) == RunTile(run).value.sweepAttempts
    ensures RunTile(run).None? ==> AsksSinceLanding(run) == 0
  {
    hide SweepMissing, ApplyArrival;
    if run == [] {
    } else {
      var front, s := run[..|run| - 1], run[|run| - 1];
      SweepsAreBounded(front);
      match s
      case Sweep(now) =>
        if RunTile(front).Some? { SweptCounts(RunTile(front).value, now); }
      case Arrive(expired, g, p, f, now, ok, present) =>
        if ok { LandingClearsAttempts(Live(RunTile(front), expired), g, p, f, now, present); }
        else { FailedArrivalKeepsAttempts(Live(RunTile(front), expired), g, p, f, now, present); }
      case Purge(_) =>
    }
  }

  lemma SweptCounts(e: CoverageEntry, now: nat)
    ensures Swept(e, now).sweepAttempts == e.sweepAttempts + if SweepMissing(e, now) != {} then 1 else 0
    ensures SweepMissing(e, now) != {} ==> e.sweepAttempts < MAX_TAIL_SWEEP_ATTEMPTS
  {
  }

  /** Time does not run backwards. */
  ghost predicate InTime(run: seq<TileStep>) { forall i, j :: 0 <= i < j < |run| ==> run[i].now <= run[j].now }

  lemma StepChange(prev: Option<CoverageEntry>, s: TileStep, floor: nat)
    requires floor <= s.now && (prev.Some? ==> floor <= prev.value.lastChange)
    ensures StepTile(prev, s).Some? ==> floor <= StepTile(prev, s).value.lastChange
  {
    hide MissingBelow, Below, ClassifyArrival, SweepMissing;
  }

  /** What a tile holds was touched no earlier than its last sweep that asked. */
  lemma {:induction false} TouchedSinceAsk(run: seq<TileStep>, i: nat)
    requires InTime(run) && i < |run| && Asks(run[..i + 1])
    ensures RunTile(run).Some? ==> RunTile(run).value.lastChange >= run[i].now
  {
    hide SweepMissing, ApplyArrival;
    var front, s := run[..|run| - 1], run[|run| - 1];
    if i == |run| - 1 {
      assert run[..i + 1] == run;
    } else {
      assert front[..i + 1] == run[..i + 1];
      TouchedSinceAsk(front, i);
      StepChange(RunTile(front), s, run[i].now);
    }
  }

  /** Over any life of a tile, two sweeps that ask lie at least the grace period apart. */
  lemma SweepsAreSpaced(run: seq<TileStep>, i: nat, j: nat)
    requires InTime(run) && i < j < |run| && Asks(run[..i + 1]) && Asks(run[..j + 1])
    ensures run[j].now >= run[i].now + TAIL_FALLBACK_US
  {
    hide ApplyArrival, StepTile, GapEvidence;
    var before := run[..j];
    assert run[..j + 1][..j] == before && before[..i + 1] == run[..i + 1];
    TouchedSinceAsk(before, i);
  }

  // ------------------------------------------ what a tile's life says of a sweep

  /** An arrival for the content the tile holds. */
  predicate Continues(prev: Option<CoverageEntry>, s: TileStep) {
    && s.Arrive? && Live(prev, s.expired).Some?
    && ClassifyArrival(prev.value.generation, prev.value.frameSeq, s.generation, s.frameSeq) == Current
  }

  /** The first valid pass of content the tile does not hold. */
  predicate Starts(prev: Option<CoverageEntry>, s: TileStep) {
    && s.Arrive? && s.ok
    && (Live(prev, s.expired).None? ||
        ClassifyArrival(prev.value.generation, prev.value.frameSeq, s.generation, s.frameSeq) == NewGeneration)
  }

  /** The passes of the tile's content that came, valid or not, and those of them that were valid. */
  function CameSince(run: seq<TileStep>, valid: bool): set<nat> {
    if run == [] then {} else
      var front, s := run[..|run| - 1], run[|run| - 1];
      var rest, prev := CameSince(front, valid), RunTile(front);
      if s.Purge? then {}
      else if Starts(prev, s) then {s.pass}
      else if Continues(prev, s) && (valid ==> s.ok) then rest + {s.pass} else rest
  }

  /** When the tile last moved: its content began, a pass of it came that was new, or a sweep asked. */
  function LastMove(run: seq<TileStep>): nat {
    if run == [] then 0 else
      var front, s := run[..|run| - 1], run[|run| - 1];
      var prev := RunTile(front);
      if Starts(prev, s) || (Continues(prev, s) && s.ok && s.pass !in CameSince(front, true)) || Asks(run) then s.now
      else LastMove(front)
  }

  /** `o` is the greatest real pass of `came`. */
  ghost predicate IsHighest(o: Option<nat>, came: set<nat>) {
    && (o.Some? ==> o.value in came && o.value < PASS_COUNT)
    && forall p :: p in came && p < PASS_COUNT ==> o.Some? && p <= o.value
  }

  /** A real pass at least as high as `p` came. */
  ghost predicate Overtaken(came: set<nat>, p: nat) { exists q :: q in came && p <= q < PASS_COUNT }

  /** The entry is the summary of the tile's life. */
  ghost predicate Summary(e: CoverageEntry, run: seq<TileStep>) {
    && e.passMask == CameSince(run, true) && IsHighest(e.highestPassSeen, CameSince(run, false))
    && e.lastChange == LastMove(run) && BitmapWithPassZero(e)
  }

  /** Valid passes carry the bitmap if and only if they are pass 0. */
  predicate BitmapsOk(run: seq<TileStep>) {
    forall i :: 0 <= i < |run| && run[i].Arrive? && run[i].ok ==> (run[i].present.Some? <==> run[i].pass == 0)
  }

  lemma ArrivalSummary(prev: Option<CoverageEntry>, s: TileStep)
    requires s.Arrive?
    ensures var o := ApplyArrival(Live(prev, s.expired), s.generation, s.pass, s.frameSeq, s.now, s.ok, s.present);
            && o.committed == (Starts(prev, s) || Continues(prev, s))
            && (Starts(prev, s) ==>
                  && o.entry.passMask == {s.pass} && o.entry.lastChange == s.now
                  && o.entry.highestPassSeen == if s.pass < PASS_COUNT then Some(s.pass) else None)
            && (Continues(prev, s) ==>
                  var e := prev.value;
                  && o.entry.passMask == e.passMask + (if s.ok then {s.pass} else {})
                  && o.entry.lastChange == (if s.ok && s.pass !in e.passMask then s.now else e.lastChange)
                  && o.entry.highestPassSeen
                     == if s.pass < PASS_COUNT && !(e.highestPassSeen.Some? && e.highestPassSeen.value > s.pass)
                        then Some(s.pass) else e.highestPassSeen)
  {
    hide MissingBelow, Below, ClassifyArrival;
  }

  /** Over every life of a tile the entry tells what came, what of it was valid, and when it last moved. */
  lemma {:induction false} LifeSummary(run: seq<TileStep>)
    requires BitmapsOk(run) && RunTile(run).Some?
    ensures Summary(RunTile(run).value, run)
  {
    hide ApplyArrival, SweepMissing, ClassifyArrival, BitmapWithPassZero;
    var front, s := run[..|run| - 1], run[|run| - 1];
    var prev := RunTile(front);
    assert BitmapsOk(front);
    if prev.Some? { LifeSummary(front); }
    if s.Arrive? {
      ArrivalSummary(prev, s);
      if prev.Some? || Starts(prev, s) { BitmapAfter(prev, s); }
    } else if s.Sweep? {
      SweptBitmap(prev.value, s.now);
    }
  }

  lemma BitmapAfter(prev: Option<CoverageEntry>, s: TileStep)
    requires s.Arrive? && (prev.Some? ==> BitmapWithPassZero(prev.value))
    requires s.ok ==> (s.present.Some? <==> s.pass == 0)
    ensures StepTile(prev, s).Some? ==> BitmapWithPassZero(StepTile(prev, s).value)
  {
    hide ApplyArrival, BitmapWithPassZero;
    ArrivalKeepsBitmap(Live(prev, s.expired), s.generation, s.pass, s.frameSeq, s.now, s.ok, s.present);
  }

  lemma SweptBitmap(e: CoverageEntry, now: nat)
    ensures BitmapWithPassZero(e) ==> BitmapWithPassZero(Swept(e, now))
    ensures Swept(e, now).passMask == e.passMask && Swept(e, now).highestPassSeen == e.highestPassSeen
    ensures Swept(e, now).lastChange == if SweepMissing(e, now) != {} then now else e.lastChange
  {
  }

  /**
   * After any life of a tile, what a sweep asks for, told by that life alone: exactly the
   * passes named by the bitmap (pass 0 while there is none) that have not come valid, that
   * a pass at least as high has overtaken, once the tile has not moved for 1.5 s, and no
   * more than six times since a valid pass came.
   */
  lemma SweepAsksExactly(run: seq<TileStep>, now: nat, p: nat)
    requires BitmapsOk(run) && RunTile(run).Some?
    ensures var bitmap := RunTile(run).value.present;
      p in SweepMissing(RunTile(run).value, now) <==>
        && (if bitmap.Some? then p in bitmap.value else p == 0) && p !in CameSince(run, true)
        && Overtaken(CameSince(run, false), p)
        && now >= LastMove(run) + 1_500_000 && AsksSinceLanding(run) < 6
  {
    hide SweepMissing, RunTile, CameSince, LastMove, AsksSinceLanding;
    var e := RunTile(run).value;
    LifeSummary(run);
    SweepsAreBounded(run);
    SweepAsksIff(e, now, p);
    OvertakenIff(e.highestPassSeen, CameSince(run, false), p);
    assert e.passMask == CameSince(run, true) && e.lastChange == LastMove(run);
    assert e.sweepAttempts == AsksSinceLanding(run);
  }

  lemma OvertakenIff(o: Option<nat>, came: set<nat>, p: nat)
    requires IsHighest(o, came)
    ensures Overtaken(came, p) <==> o.Some? && p <= o.value
    ensures o.Some? ==> o.value < PASS_COUNT
  {
  }
}
