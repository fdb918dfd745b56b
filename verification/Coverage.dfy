/**
 * Per-tile coverage of CDF 5/3 passes: what has been received of the content
 * the tile holds, and what has been asked for again.
 */
module Coverage {
  import opened Serial
  import opened TileState

  datatype CoverageEntry = CoverageEntry(
    generation: nat,
    frameSeq: nat,
    passMask: Mask,
    nackedMask: Mask,
    present: Option<Mask>,
    lastChange: nat,
    sweepAttempts: nat,
    highestPassSeen: Option<nat>)

  datatype Outcome = Outcome(entry: CoverageEntry, nackPasses: seq<nat>, newGeneration: bool, committed: bool)

  /** Passes a tail sweep may ask for: missing ones a higher arrival vouches for. */
  function GapEvidence(e: CoverageEntry, missing: Mask): (r: Mask)
    ensures r <= missing
  {
    match e.highestPassSeen
    case None => {}
    case Some(h) => set p | p in missing && p <= (if h < 14 then h else 14)
  }

  /** The passes a tile is owed by its own bitmap; only pass 0 while the bitmap is unknown. */
  function Owed(e: CoverageEntry): Mask { if e.present.Some? then e.present.value else {0} }

  /** Members of `m` below `n`, ascending. */
  function Below(m: Mask, n: nat): (r: seq<nat>)
    ensures forall p :: p in r <==> p in m && p < n
    ensures forall i, j :: 0 <= i < j < |r| ==> r[i] < r[j]
  {
    if n == 0 then [] else
      var rest := Below(m, n - 1);
      assert forall i :: 0 <= i < |rest| ==> rest[i] in rest;
      rest + if n - 1 in m then [n - 1] else []
  }

  method CollectBelow(m: Mask, n: nat) returns (r: seq<nat>)
    ensures r == Below(m, n)
  {
    r := [];
    for p := 0 to n
      invariant r == Below(m, p)
    {
      if p in m { r := r + [p]; }
    }
  }

  function FreshEntry(generation: nat, frameSeq: nat, now: nat): CoverageEntry {
    CoverageEntry(generation, frameSeq, {}, {}, None, now, 0, None)
  }

  function Order(prev: Option<CoverageEntry>, generation: nat, frameSeq: nat): ArrivalOrder {
    if prev.None? then NewGeneration
    else ClassifyArrival(prev.value.generation, prev.value.frameSeq, generation, frameSeq)
  }

  /** The entry an arrival works on, with the bitmap and the gap evidence noted. */
  function Noted(
    prev: Option<CoverageEntry>, generation: nat, pass: nat, frameSeq: nat, now: nat, present: Option<Mask>):
    CoverageEntry
  {
    var base := if prev.Some? && Order(prev, generation, frameSeq) == Current then prev.value
                else FreshEntry(generation, frameSeq, now);
    var known := if present.Some? then base.(present := present) else base;
    if pass >= 14 then known
    else known.(highestPassSeen :=
      Some(if known.highestPassSeen.Some? && known.highestPassSeen.value > pass
           then known.highestPassSeen.value else pass))
  }

  /** Lower passes the tile is owed, not received and not yet asked for. */
  function MissingBelow(e: CoverageEntry, pass: nat): Mask {
    set p | p in Owed(e) && p < pass && p !in e.passMask && p !in e.nackedMask
  }

  function ApplyArrival(
    prev: Option<CoverageEntry>, generation: nat, pass: nat, frameSeq: nat, now: nat, ok: bool, present: Option<Mask>):
    Outcome
  {
    var order := Order(prev, generation, frameSeq);
    if prev.Some? && order == Stale then Outcome(prev.value, [], false, false) else
      var e := Noted(prev, generation, pass, frameSeq, now, present);
      if !ok then
        var asked := pass !in e.nackedMask;
        var e' := e.(nackedMask := e.nackedMask + {pass});
        Outcome(if order == Current then e' else if prev.Some? then prev.value else e',
                if asked then [pass] else [], false, order == Current)
      else
        var landed := e.(passMask := e.passMask + {pass}, sweepAttempts := 0);
        if pass in e.passMask then Outcome(landed, [], order != Current, true)
        else
          var changed := landed.(lastChange := now);
          if order != Current then Outcome(changed, [], true, true)
          else
            var missing := MissingBelow(changed, pass);
            Outcome(changed.(nackedMask := changed.nackedMask + missing), Below(missing, pass), false, true)
  }

  /** The arrival step by step on a working entry, as the reference above. */
  method ApplyCdf53Arrival(
    prev: Option<CoverageEntry>, generation: nat, pass: nat, frameSeq: nat, now: nat, ok: bool, present: Option<Mask>)
    returns (o: Outcome)
    ensures o == ApplyArrival(prev, generation, pass, frameSeq, now, ok, present)
  {
    hide ClassifyArrival, Below;
    var order := if prev.None? then NewGeneration
                 else ClassifyArrival(prev.value.generation, prev.value.frameSeq, generation, frameSeq);
    if order == Stale { return Outcome(prev.value, [], false, false); }
    var e := if order == Current then prev.value else FreshEntry(generation, frameSeq, now);
    if present.Some? { e := e.(present := present); }
    if pass < 14 {
      e := e.(highestPassSeen :=
        Some(if e.highestPassSeen.Some? && e.highestPassSeen.value > pass then e.highestPassSeen.value else pass));
    }
    if !ok {
      var asked := [];
      if pass !in e.nackedMask { asked := [pass]; }
      e := e.(nackedMask := e.nackedMask + {pass});
      var kept := if order == Current then e else if prev.Some? then prev.value else e;
      return Outcome(kept, asked, false, order == Current);
    }
    var nackPasses: seq<nat> := [];
    var before := e.passMask;
    e := e.(passMask := e.passMask + {pass}, sweepAttempts := 0);
    if pass !in before {
      e := e.(lastChange := now);
      if order == Current {
        var missing := MissingBelow(e, pass);
        nackPasses := CollectBelow(missing, pass);
        e := e.(nackedMask := e.nackedMask + missing);
      }
    }
    o := Outcome(e, nackPasses, order != Current, true);
  }

  /**
   * Requests raised by an arrival are justified and never repeated: a failed
   * pass asks for itself; any other request names a lower pass the tile is owed
   * by its own bitmap (pass 0 alone while that is unknown), not received, not
   * asked for before, and not above the highest pass seen.
   */
  lemma ArrivalRequestsJustified(
    prev: Option<CoverageEntry>, generation: nat, pass: nat, frameSeq: nat, now: nat, ok: bool,
    present: Option<Mask>, p: nat)
    requires p in ApplyArrival(prev, generation, pass, frameSeq, now, ok, present).nackPasses
    ensures var o := ApplyArrival(prev, generation, pass, frameSeq, now, ok, present);
            && (prev.Some? && Order(prev, generation, frameSeq) == Current ==> p !in prev.value.nackedMask)
            && (o.committed ==> p in o.entry.nackedMask)
            && if !ok then p == pass
               else && o.committed && !o.newGeneration && p < pass
                    && p in Owed(o.entry) && p !in o.entry.passMask
                    && (pass < 14 ==> o.entry.highestPassSeen.Some? && p <= o.entry.highestPassSeen.value)
  {
    var e := Noted(prev, generation, pass, frameSeq, now, present);
    if ok && pass !in e.passMask && Order(prev, generation, frameSeq) == Current {
      var changed := e.(passMask := e.passMask + {pass}, sweepAttempts := 0, lastChange := now);
      assert p in Below(MissingBelow(changed, pass), pass);
    }
  }

  /**
   * What an arrival asks for, exactly. A pass that fails validation asks for itself
   * unless its content had asked for it already; new content has asked for nothing.
   * A further pass of the content held asks for every lower pass that is named by the
   * bitmap (for pass 0 while there is no bitmap), not received and not asked for.
   * The first pass of new content, a repeated one and a stale one ask for nothing.
   */
  lemma RequestsExactly(
    prev: Option<CoverageEntry>, generation: nat, pass: nat, frameSeq: nat, now: nat, ok: bool,
    present: Option<Mask>, p: nat)
    ensures var o := ApplyArrival(prev, generation, pass, frameSeq, now, ok, present);
            var order := Order(prev, generation, frameSeq);
            && (p in o.nackPasses <==>
                  && !(prev.Some? && order == Stale)
                  && if !ok then p == pass && (prev.Some? && order == Current ==> p !in prev.value.nackedMask)
                     else && prev.Some? && order == Current && pass !in prev.value.passMask && p < pass
                          && p !in prev.value.passMask && p !in prev.value.nackedMask
                          && var bitmap := if present.Some? then present else prev.value.present;
                             if bitmap.Some? then p in bitmap.value else p == 0)
            && (forall i, j :: 0 <= i < j < |o.nackPasses| ==> o.nackPasses[i] < o.nackPasses[j])
  {
    hide ClassifyArrival;
    var e := Noted(prev, generation, pass, frameSeq, now, present);
    if ok && pass !in e.passMask && Order(prev, generation, frameSeq) == Current {
      var changed := e.(passMask := e.passMask + {pass}, sweepAttempts := 0, lastChange := now);
      assert p in Below(MissingBelow(changed, pass), pass) <==> p in MissingBelow(changed, pass) && p < pass;
    }
  }

  /** A stored entry carries the label of the content it stands for. */
  lemma ArrivalLabel(
    prev: Option<CoverageEntry>, generation: nat, pass: nat, frameSeq: nat, now: nat, ok: bool, present: Option<Mask>)
    requires prev.Some? ==> Order(prev, generation, frameSeq) != Stale
    ensures var o := ApplyArrival(prev, generation, pass, frameSeq, now, ok, present);
            var current := Order(prev, generation, frameSeq) == Current;
            && o.committed == (ok || current) && o.newGeneration == (ok && !current)
            && (o.committed ==> (o.entry.frameSeq, o.entry.generation)
                                == if current then (prev.value.frameSeq, prev.value.generation)
                                   else (frameSeq, generation))
  {
    hide MissingBelow, Below, ClassifyArrival;
  }

  /**
   * Once a further pass of its content lands, every owed lower pass is received or
   * marked as asked for, and what is marked by this arrival is what it asks for.
   */
  lemma ArrivalLeavesNoSilentGap(
    prev: CoverageEntry, generation: nat, pass: nat, frameSeq: nat, now: nat, present: Option<Mask>)
    requires ClassifyArrival(prev.generation, prev.frameSeq, generation, frameSeq) == Current
    requires pass !in prev.passMask
    ensures var o := ApplyArrival(Some(prev), generation, pass, frameSeq, now, true, present);
            && o.entry.passMask == prev.passMask + {pass}
            && o.entry.sweepAttempts == 0
            && (forall p :: p in Owed(o.entry) && p < pass ==> p in o.entry.passMask || p in o.entry.nackedMask)
            && forall p :: p in o.nackPasses <==> p in o.entry.nackedMask && p !in prev.nackedMask
  {
  }

  /** A further arrival for the content held loses no pass and no bitmap. */
  lemma ArrivalGrows(
    prev: CoverageEntry, generation: nat, pass: nat, frameSeq: nat, now: nat, ok: bool, present: Option<Mask>)
    requires Order(Some(prev), generation, frameSeq) == Current
    ensures var e := ApplyArrival(Some(prev), generation, pass, frameSeq, now, ok, present).entry;
            prev.passMask <= e.passMask && e.present == if present.Some? then present else prev.present
  {
    hide MissingBelow, Below, ClassifyArrival;
  }

  /** The first valid pass of new content is all there is of it. */
  lemma ArrivalBegins(
    prev: Option<CoverageEntry>, generation: nat, pass: nat, frameSeq: nat, now: nat, present: Option<Mask>)
    requires Order(prev, generation, frameSeq) == NewGeneration
    ensures var e := ApplyArrival(prev, generation, pass, frameSeq, now, true, present).entry;
            e.passMask == {pass} && e.present == present
  {
    hide MissingBelow, Below, ClassifyArrival;
  }
}
