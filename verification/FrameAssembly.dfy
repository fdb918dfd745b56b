/**
 * Reassembly of H.264 access units from their fragments.
 *
 * At most four assemblies exist after any datagram: the three newest frame
 * numbers, and one IDR that is given 2 s to complete however late it is.
 */
module FrameAssembly {
  import opened Serial
  import opened Bytes
  import opened GateLog

  const MAX_FRAME_FRAGMENTS: nat := 16_384
  const MAX_ACCESS_UNIT_BYTES: nat := 16_777_216
  const IDR_EXEMPT_US: nat := 2_000_000

  datatype Datagram = Datagram(header: Header, fragIdx: nat, fragTotal: nat, pad: bool, payload: seq<byte>)

  datatype Assembly = Assembly(
    header: Header, created: nat, fragments: seq<Option<seq<byte>>>, received: nat, bytes: nat)

  datatype AccessUnit = AccessUnit(header: Header, payload: seq<byte>)

  function CountSome(fragments: seq<Option<seq<byte>>>): (n: nat)
    ensures n <= |fragments|
    ensures n == |fragments| <==> forall i :: 0 <= i < |fragments| ==> fragments[i].Some?
  {
    if fragments == [] then 0 else
      var k := |fragments| - 1;
      CountSome(fragments[..k]) + if fragments[k].Some? then 1 else 0
  }

  function TotalBytes(fragments: seq<Option<seq<byte>>>): nat {
    if fragments == [] then 0 else
      var k := |fragments| - 1;
      TotalBytes(fragments[..k]) + if fragments[k].Some? then |fragments[k].value| else 0
  }

  /** The parts in index order, end to end. */
  function Concat(parts: seq<seq<byte>>): seq<byte> {
    if parts == [] then [] else Concat(parts[..|parts| - 1]) + parts[|parts| - 1]
  }

  lemma {:induction false} FillSlot(fragments: seq<Option<seq<byte>>>, i: nat, p: seq<byte>)
    requires i < |fragments| && fragments[i].None?
    ensures CountSome(fragments[i := Some(p)]) == CountSome(fragments) + 1
    ensures TotalBytes(fragments[i := Some(p)]) == TotalBytes(fragments) + |p|
    decreases |fragments|
  {
    var k := |fragments| - 1;
    if i < k {
      FillSlot(fragments[..k], i, p);
      assert fragments[i := Some(p)][..k] == fragments[..k][i := Some(p)];
    } else {
      assert fragments[i := Some(p)][..k] == fragments[..k];
    }
  }

  lemma {:induction false} NothingYet(n: nat)
    ensures CountSome(seq(n, _ => None)) == 0 && TotalBytes(seq(n, _ => None)) == 0
  {
    if n == 0 {
    } else {
      NothingYet(n - 1);
      var none: seq<Option<seq<byte>>> := seq(n, _ => None);
      assert none[..n - 1] == seq(n - 1, _ => None);
    }
  }

  predicate IsFragment(d: Datagram, s: nat, i: nat, p: seq<byte>) {
    d.header.frameSeq == s && d.fragIdx == i && d.payload == p && !d.pad
  }

  /** Payload `p` was received as fragment `i` of frame `s`. */
  ghost predicate WasReceived(log: seq<Datagram>, s: nat, i: nat, p: seq<byte>) {
    exists k :: 0 <= k < |log| && IsFragment(log[k], s, i, p)
  }

  lemma ReceivedStays(log: seq<Datagram>, d: Datagram, s: nat, i: nat, p: seq<byte>)
    requires WasReceived(log, s, i, p)
    ensures WasReceived(log + [d], s, i, p)
  {
    var k :| 0 <= k < |log| && IsFragment(log[k], s, i, p);
    assert (log + [d])[k] == log[k];
  }

  ghost predicate AssemblyOk(a: Assembly, s: nat, log: seq<Datagram>) {
    && a.header.frameSeq == s
    && 1 <= |a.fragments| <= MAX_FRAME_FRAGMENTS
    && a.received == CountSome(a.fragments)
    && a.bytes == TotalBytes(a.fragments) <= MAX_ACCESS_UNIT_BYTES
    && forall i :: 0 <= i < |a.fragments| && a.fragments[i].Some? ==> WasReceived(log, s, i, a.fragments[i].value)
  }

  lemma AssemblyStays(a: Assembly, s: nat, log: seq<Datagram>, d: Datagram)
    requires AssemblyOk(a, s, log)
    ensures AssemblyOk(a, s, log + [d])
  {
    forall i | 0 <= i < |a.fragments| && a.fragments[i].Some?
      ensures WasReceived(log + [d], s, i, a.fragments[i].value)
    {
      ReceivedStays(log, d, s, i, a.fragments[i].value);
    }
  }

  type Assemblies = map<nat, Assembly>

  /** Frame numbers up to `latest`; older than `latest - 2` only the one exempt IDR. */
  ghost predicate Windowed(assemblies: Assemblies, latest: nat, keep: nat) {
    && (forall s :: s in assemblies ==> s <= latest)
    && (forall s :: s in assemblies ==> s + 2 >= latest || s == keep)
  }

  lemma AtMostFour(assemblies: Assemblies, latest: nat, keep: nat)
    requires Windowed(assemblies, latest, keep)
    ensures |assemblies| <= 4
  {
    FourAtMost(assemblies.Keys, Back(latest, 2), Back(latest, 1), latest, keep);
  }

  lemma FourAtMost(s: set<nat>, a: nat, b: nat, c: nat, d: nat)
    requires forall x :: x in s ==> x == a || x == b || x == c || x == d
    ensures |s| <= 4
  {
    var s1 := s - {a};
    var s2 := s1 - {b};
    var s3 := s2 - {c};
    assert |s3| <= 1 by { assert s3 <= {d}; if s3 != {} { assert s3 == {d}; } }
    assert |s2| <= |s3| + 1;
    assert |s1| <= |s2| + 1;
  }

  /** `latest.saturating_sub(k)`. */
  function Back(latest: nat, k: nat): nat { if latest < k then 0 else latest - k }

  /** Whether an assembly started at `created` is still inside the IDR exemption. */
  predicate Exempt(created: nat, now: nat) { now < created + IDR_EXEMPT_US }

  /** `r` is the newest IDR assembly, if there is one. */
  ghost predicate IsNewestIdr(assemblies: Assemblies, r: Option<nat>) {
    match r
    case None => forall s :: s in assemblies ==> !assemblies[s].header.keyframe
    case Some(n) =>
      && n in assemblies && assemblies[n].header.keyframe
      && forall s :: s in assemblies && assemblies[s].header.keyframe ==> s <= n
  }

  method NewestIdr(assemblies: Assemblies) returns (r: Option<nat>)
    ensures IsNewestIdr(assemblies, r)
  {
    r := None;
    var todo := assemblies.Keys;
    while todo != {}
      invariant todo <= assemblies.Keys
      invariant match r
        case None => forall s :: s in assemblies && s !in todo ==> !assemblies[s].header.keyframe
        case Some(n) =>
          && n in assemblies && assemblies[n].header.keyframe
          && forall s :: s in assemblies && s !in todo && assemblies[s].header.keyframe ==> s <= n
      decreases todo
    {
      var s :| s in todo;
      if assemblies[s].header.keyframe && (r.None? || s > r.value) { r := Some(s); }
      todo := todo - {s};
    }
  }

  /** `u` joins `parts` in index order, each a received payload of that fragment. */
  ghost predicate IsJoinOf(u: AccessUnit, parts: seq<seq<byte>>, log: seq<Datagram>) {
    && parts != [] && u.payload == Concat(parts)
    && forall i :: 0 <= i < |parts| ==> WasReceived(log, u.header.frameSeq, i, parts[i])
  }

  ghost predicate Faithful(u: AccessUnit, log: seq<Datagram>) { exists parts :: IsJoinOf(u, parts, log) }

  /** With a sender that cuts each frame in one way, the unit is the frame that was sent. */
  lemma FaithfulIsSent(u: AccessUnit, log: seq<Datagram>, parts: seq<seq<byte>>, sent: seq<seq<byte>>)
    requires IsJoinOf(u, parts, log) && |parts| == |sent|
    requires forall k :: 0 <= k < |log| && log[k].header.frameSeq == u.header.frameSeq && log[k].fragIdx < |sent| ==>
      log[k].payload == sent[log[k].fragIdx]
    ensures u.payload == Concat(sent)
  {
    forall i | 0 <= i < |parts|
      ensures parts[i] == sent[i]
    {
      assert WasReceived(log, u.header.frameSeq, i, parts[i]);
    }
    assert parts == sent;
  }

  lemma FreshOk(d: Datagram, now: nat, log: seq<Datagram>)
    requires 1 <= d.fragTotal <= MAX_FRAME_FRAGMENTS
    ensures AssemblyOk(Assembly(d.header, now, seq(d.fragTotal, _ => None), 0, 0), d.header.frameSeq, log)
  {
    NothingYet(d.fragTotal);
  }

  // ------------------------------------------------- what one datagram does

  /** Assemblies inside the window, and the newest IDR while it is exempt. */
  ghost function Survivors(assemblies: Assemblies, latest: nat, now: nat): Assemblies {
    map s | s in assemblies &&
            (s >= Back(latest, 2) || (IsNewestIdr(assemblies, Some(s)) && Exempt(assemblies[s].created, now)))
      :: assemblies[s]
  }

  /** A fragment older than the window belongs to the newest IDR, held and exempt or about to start. */
  ghost predicate ExemptFragment(assemblies: Assemblies, h: Header, now: nat) {
    && h.keyframe
    && if h.frameSeq in assemblies
       then IsNewestIdr(assemblies, Some(h.frameSeq)) && Exempt(assemblies[h.frameSeq].created, now)
       else forall s :: s in assemblies && assemblies[s].header.keyframe ==> s < h.frameSeq
  }

  ghost predicate MayTake(assemblies: Assemblies, latest: nat, d: Datagram, now: nat, lastFed: Option<nat>) {
    && d.fragIdx < d.fragTotal <= MAX_FRAME_FRAGMENTS && !d.pad
    && (d.header.keyframe || lastFed.None? || d.header.frameSeq > lastFed.value)
    && (d.header.frameSeq >= Back(latest, 2) || ExemptFragment(assemblies, d.header, now))
  }

  /** The fragment goes to its slot if that is free; a unit that grows too large is given up whole. */
  function WithFragment(assemblies: Assemblies, d: Datagram): Assemblies {
    var s := d.header.frameSeq;
    if s !in assemblies then assemblies else
      var a := assemblies[s];
      if d.fragIdx >= |a.fragments| || a.fragments[d.fragIdx].Some? then assemblies
      else if a.bytes + |d.payload| > MAX_ACCESS_UNIT_BYTES then assemblies - {s}
      else assemblies[s := a.(fragments := a.fragments[d.fragIdx := Some(d.payload)],
                              received := a.received + 1, bytes := a.bytes + |d.payload|)]
  }

  /**
   * A fragment from before the window is taken exactly when it is an IDR's, no newer IDR is
   * being assembled, and its own assembly, if there is one, began less than 2 s ago.
   */
  lemma OldFragmentIff(f: Frames, d: Datagram, now: nat, lastFed: Option<nat>)
    requires d.fragIdx < d.fragTotal <= MAX_FRAME_FRAGMENTS && !d.pad && d.header.frameSeq + 2 < f.latest
    ensures MayTake(f.assemblies, f.latest, d, now, lastFed) <==>
      && d.header.keyframe
      && (forall t :: t in f.assemblies && f.assemblies[t].header.keyframe ==> t <= d.header.frameSeq)
      && (d.header.frameSeq in f.assemblies ==>
            var a := f.assemblies[d.header.frameSeq]; a.header.keyframe && now < a.created + 2_000_000)
  {
  }

  /** A fragment ends its frame's assembly exactly when it takes the frame above 16 MiB, all its fragments counted. */
  lemma GivenUpIff(assemblies: Assemblies, d: Datagram, log: seq<Datagram>)
    requires var s := d.header.frameSeq;
             && s in assemblies && AssemblyOk(assemblies[s], s, log)
             && d.fragIdx < |assemblies[s].fragments| && assemblies[s].fragments[d.fragIdx].None?
    ensures var s := d.header.frameSeq; var filled := assemblies[s].fragments[d.fragIdx := Some(d.payload)];
            && (s !in WithFragment(assemblies, d) <==> TotalBytes(filled) > 16_777_216)
            && (s in WithFragment(assemblies, d) ==> WithFragment(assemblies, d)[s].fragments == filled)
            && forall t :: t in assemblies && t != s ==>
                 t in WithFragment(assemblies, d) && WithFragment(assemblies, d)[t] == assemblies[t]
  {
    hide TotalBytes, CountSome, WasReceived;
    FillSlot(assemblies[d.header.frameSeq].fragments, d.fragIdx, d.payload);
  }

  predicate Complete(a: Assembly) { forall i :: 0 <= i < |a.fragments| ==> a.fragments[i].Some? }

  function Parts(a: Assembly): seq<seq<byte>>
    requires Complete(a)
  {
    seq(|a.fragments|, i requires 0 <= i < |a.fragments| => a.fragments[i].value)
  }

  function Finished(assemblies: Assemblies, s: nat): (Assemblies, Option<AccessUnit>) {
    if s in assemblies && Complete(assemblies[s])
    then (assemblies - {s}, Some(AccessUnit(assemblies[s].header, Concat(Parts(assemblies[s])))))
    else (assemblies, None)
  }

  function FreshFor(d: Datagram, now: nat): Assembly { Assembly(d.header, now, seq(d.fragTotal, _ => None), 0, 0) }

  /** The assemblies a taken fragment finds, its own among them unless that is already superseded. */
  ghost function Opened(assemblies: Assemblies, latest: nat, d: Datagram, now: nat): Assemblies {
    var s := d.header.frameSeq;
    var kept := Survivors(assemblies, latest, now);
    var begun := if s in kept then kept else kept[s := FreshFor(d, now)];
    if d.header.keyframe then Survivors(begun, latest, now) else begun
  }

  ghost function Taken(assemblies: Assemblies, latest: nat, d: Datagram, now: nat): (Assemblies, Option<AccessUnit>) {
    Finished(WithFragment(Opened(assemblies, latest, d, now), d), d.header.frameSeq)
  }

  /** What is held between datagrams. */
  datatype Frames = Frames(assemblies: Assemblies, latest: nat)

  /** One datagram: an inadmissible one changes nothing. */
  ghost function Step(f: Frames, d: Datagram, now: nat, lastFed: Option<nat>): (Frames, Option<AccessUnit>) {
    if MayTake(f.assemblies, f.latest, d, now, lastFed) then
      var latest := if d.header.frameSeq > f.latest then d.header.frameSeq else f.latest;
      var taken := Taken(f.assemblies, latest, d, now);
      (Frames(taken.0, latest), taken.1)
    else (f, None)
  }

  /**
   * The fragment that was still missing completes its unit at once: the payloads
   * in index order, under the header of the frame's first datagram.
   */
  lemma LastFragmentCompletes(assemblies: Assemblies, latest: nat, d: Datagram, now: nat, a: Assembly)
    requires d.header.frameSeq in Opened(assemblies, latest, d, now)
    requires a == Opened(assemblies, latest, d, now)[d.header.frameSeq]
    requires d.fragIdx < |a.fragments| && a.fragments[d.fragIdx].None? && a.bytes + |d.payload| <= MAX_ACCESS_UNIT_BYTES
    requires forall i :: 0 <= i < |a.fragments| && i != d.fragIdx ==> a.fragments[i].Some?
    ensures Taken(assemblies, latest, d, now).1
         == Some(AccessUnit(a.header, Concat(seq(|a.fragments|, i requires 0 <= i < |a.fragments| =>
              if i == d.fragIdx then d.payload else a.fragments[i].value))))
    ensures d.header.frameSeq !in Taken(assemblies, latest, d, now).0
  {
    hide Opened, Concat;
    var open := Opened(assemblies, latest, d, now);
    var full := WithFragment(open, d)[d.header.frameSeq];
    assert Complete(full);
    assert Parts(full) == seq(|a.fragments|, i requires 0 <= i < |a.fragments| =>
      if i == d.fragIdx then d.payload else a.fragments[i].value);
  }

  class FrameAssembler {
    var assemblies: Assemblies
    var latest: nat

    ghost var log: seq<Datagram>
    /** The one assembly that may be older than the window. */
    ghost var keep: nat

    ghost predicate Valid()
      reads this
    {
      && Windowed(assemblies, latest, keep)
      && (forall s :: s in assemblies ==> AssemblyOk(assemblies[s], s, log))
    }

    constructor ()
      ensures Valid() && log == [] && assemblies == map[] && latest == 0
    {
      assemblies, latest, log, keep := map[], 0, [], 0;
    }

    /** Drop assemblies older than `latest - 2`, except the newest IDR inside its exemption. */
    method Evict(now: nat)
      requires forall s :: s in assemblies ==> s <= latest
      requires forall s :: s in assemblies ==> AssemblyOk(assemblies[s], s, log)
      modifies this`assemblies, this`keep
      ensures Valid() && assemblies == Survivors(old(assemblies), latest, now)
    {
      hide AssemblyOk;
      var newest := NewestIdr(assemblies);
      var exempt := newest.Some? && Exempt(assemblies[newest.value].created, now);
      keep := if newest.Some? then newest.value else 0;
      assemblies := map s | s in assemblies && (s >= Back(latest, 2) || (exempt && s == newest.value)) :: assemblies[s];
    }

    /** Whether a fragment older than the window may still be taken: it belongs to the newest IDR. */
    method IsExempt(h: Header, now: nat) returns (r: bool)
      ensures r <==> ExemptFragment(assemblies, h, now)
    {
      if !h.keyframe { return false; }
      var newest := NewestIdr(assemblies);
      if h.frameSeq in assemblies {
        r := Exempt(assemblies[h.frameSeq].created, now) && newest == Some(h.frameSeq);
      } else {
        r := newest.None? || h.frameSeq > newest.value;
      }
    }

    /** Whether a fragment is worth assembling at all. */
    method Admits(d: Datagram, now: nat, lastFed: Option<nat>) returns (r: bool)
      ensures r <==> MayTake(assemblies, latest, d, now, lastFed)
    {
      hide ExemptFragment;
      var h := d.header;
      if d.fragIdx >= d.fragTotal || d.fragTotal > MAX_FRAME_FRAGMENTS { return false; }
      if d.pad { return false; }
      if !h.keyframe && lastFed.Some? && h.frameSeq <= lastFed.value { return false; }
      if h.frameSeq < Back(latest, 2) {
        r := IsExempt(h, now);
      } else {
        r := true;
      }
    }

    /** Store a fragment in its slot, if the slot is free. */
    method Store(d: Datagram)
      requires Valid() && d.header.frameSeq in assemblies && WasReceived(log, d.header.frameSeq, d.fragIdx, d.payload)
      modifies this`assemblies
      ensures Valid() && assemblies == WithFragment(old(assemblies), d)
    {
      hide CountSome, TotalBytes, WasReceived;
      var s := d.header.frameSeq;
      var a := assemblies[s];
      if d.fragIdx < |a.fragments| && a.fragments[d.fragIdx].None? {
        if a.bytes + |d.payload| > MAX_ACCESS_UNIT_BYTES {
          assemblies := assemblies - {s};
          return;
        }
        FillSlot(a.fragments, d.fragIdx, d.payload);
        assemblies := assemblies[s := a.(
          fragments := a.fragments[d.fragIdx := Some(d.payload)],
          received := a.received + 1, bytes := a.bytes + |d.payload|)];
      }
    }

    /** Take a complete assembly out and join its fragments. */
    method Finish(s: nat) returns (u: Option<AccessUnit>)
      requires Valid()
      modifies this`assemblies
      ensures Valid() && (assemblies, u) == Finished(old(assemblies), s)
      ensures u.Some? ==> u.value.header.frameSeq == s && Faithful(u.value, log)
    {
      u := None;
      if s in assemblies && assemblies[s].received == |assemblies[s].fragments| {
        var a := assemblies[s];
        assemblies := assemblies - {s};
        ghost var parts := Parts(a);
        var out := [];
        for i := 0 to |a.fragments|
          invariant out == Concat(parts[..i])
        {
          out := out + a.fragments[i].value;
          assert parts[..i + 1][..i] == parts[..i];
        }
        assert parts[..|parts|] == parts;
        u := Some(AccessUnit(a.header, out));
        assert IsJoinOf(u.value, parts, log);
      }
    }

    /**
     * Feed one frame datagram. Whatever the order and duplication of fragments, a
     * unit that comes out is the index-order join of received payloads, one per
     * fragment; at most four assemblies remain, none above 16 MiB.
     */
    method HandleFrameDatagram(d: Datagram, now: nat, lastFed: Option<nat>) returns (u: Option<AccessUnit>)
      requires Valid()
      modifies this
      ensures Valid() && log == old(log) + [d]
      ensures |assemblies| <= 4 && forall s :: s in assemblies ==> assemblies[s].bytes <= MAX_ACCESS_UNIT_BYTES
      ensures u.Some? ==> u.value.header.frameSeq == d.header.frameSeq && Faithful(u.value, log)
      ensures (Frames(assemblies, latest), u) == Step(old(Frames(assemblies, latest)), d, now, lastFed)
    {
      hide AssemblyOk, Faithful, MayTake, WithFragment, Finished, Opened;
      u := None;
      forall s | s in assemblies
        ensures AssemblyOk(assemblies[s], s, log + [d])
      {
        AssemblyStays(assemblies[s], s, log, d);
      }
      log := log + [d];
      var admitted := Admits(d, now, lastFed);
      if admitted {
        TakenShape(assemblies, latest, d, now, lastFed);
        if d.header.frameSeq > latest { latest := d.header.frameSeq; }
        u := Take(d, now);
      }
      AtMostFour(assemblies, latest, keep);
      BytesBound();
    }

    /** Open, store, finish. */
    method Take(d: Datagram, now: nat) returns (u: Option<AccessUnit>)
      requires 1 <= d.fragTotal <= MAX_FRAME_FRAGMENTS && log != [] && log[|log| - 1] == d && !d.pad
      requires d.header.frameSeq <= latest && (d.header.keyframe || d.header.frameSeq >= Back(latest, 2))
      requires forall s :: s in assemblies ==> s <= latest && AssemblyOk(assemblies[s], s, log)
      modifies this`assemblies, this`keep
      ensures Valid() && (assemblies, u) == Taken(old(assemblies), latest, d, now)
      ensures u.Some? ==> u.value.header.frameSeq == d.header.frameSeq && Faithful(u.value, log)
    {
      hide AssemblyOk, Faithful, WithFragment, Finished, Survivors;
      u := None;
      var s := d.header.frameSeq;
      Evict(now);
      if s !in assemblies {
        FreshOk(d, now, log);
        assemblies := assemblies[s := FreshFor(d, now)];
      }
      if d.header.keyframe { Evict(now); }
      if s in assemblies {
        assert WasReceived(log, s, d.fragIdx, d.payload);
        Store(d);
        u := Finish(s);
      } else {
        NoSuchFrame(assemblies, d);
      }
    }

    lemma BytesBound()
      requires Valid()
      ensures forall s :: s in assemblies ==> assemblies[s].bytes <= MAX_ACCESS_UNIT_BYTES
    {
    }
  }

  lemma NoSuchFrame(assemblies: Assemblies, d: Datagram)
    requires d.header.frameSeq !in assemblies
    ensures Finished(WithFragment(assemblies, d), d.header.frameSeq) == (assemblies, None)
  {
  }

  lemma TakenShape(assemblies: Assemblies, latest: nat, d: Datagram, now: nat, lastFed: Option<nat>)
    requires MayTake(assemblies, latest, d, now, lastFed)
    ensures 1 <= d.fragTotal <= MAX_FRAME_FRAGMENTS && !d.pad
    ensures d.header.keyframe || d.header.frameSeq >= Back(latest, 2)
  {
  }

}
