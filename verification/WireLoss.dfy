/**
 * Loss and loss-run measurement from gaps in `wire_seq`.
 *
 * A ring of 512 flags stands for an unbounded set of arrivals. Every number
 * that falls 64 behind the newest is settled, in order, as arrived or lost; the
 * ghost `log` records the verdicts, and a resynchronisation between them.
 */
module WireLoss {
  import opened Serial

  const REORDER_WINDOW: int := 64
  const RING: nat := 512
  const RESYNC_JUMP: int := 4096

  datatype Verdict = Arrived | Lost | Resync

  function Bucket(run: nat): (b: nat)
    ensures b < 8
  {
    if 1 <= run <= 4 then run - 1
    else if 5 <= run <= 8 then 4
    else if 9 <= run <= 16 then 5
    else if 17 <= run <= 32 then 6
    else 7
  }

  /** The shortest run of each column of the histogram. */
  const SHORTEST: seq<nat> := [1, 2, 3, 4, 5, 9, 17, 33]

  /** A run of this length belongs in column `b`; the last column has no upper end. */
  predicate LengthIn(b: nat, run: nat) {
    b < 8 && SHORTEST[b] <= run && (b < 7 ==> run < SHORTEST[b + 1])
  }

  lemma BucketIff(run: nat, b: nat)
    requires run > 0
    ensures Bucket(run) == b <==> LengthIn(b, run)
  {
  }

  // ------------------------------------------------------ loss runs of a log

  /** `log[i..j]` is a maximal run of losses that something closed. */
  ghost predicate IsRun(log: seq<Verdict>, i: nat, j: nat) {
    && i < j < |log|
    && (forall k :: i <= k < j ==> log[k] == Lost)
    && (i > 0 ==> log[i - 1] != Lost)
    && log[j] != Lost
  }

  ghost function Runs(log: seq<Verdict>): set<(nat, nat)> {
    set i, j | 0 <= i < |log| && 0 <= j < |log| && IsRun(log, i, j) :: (i, j)
  }

  ghost function RunsIn(log: seq<Verdict>, bucket: nat): set<(nat, nat)> {
    set r | r in Runs(log) && LengthIn(bucket, r.1 - r.0)
  }

  /** The last `n` verdicts are the losses since the last verdict of another kind. */
  ghost predicate IsOpenRun(log: seq<Verdict>, n: nat) {
    && n <= |log|
    && (forall k :: |log| - n <= k < |log| ==> log[k] == Lost)
    && (n < |log| ==> log[|log| - n - 1] != Lost)
  }

  function CountLost(log: seq<Verdict>): nat {
    if log == [] then 0 else CountLost(log[..|log| - 1]) + if log[|log| - 1] == Lost then 1 else 0
  }

  /** A loss closes no run. */
  lemma RunsAfterLoss(log: seq<Verdict>)
    ensures Runs(log + [Lost]) == Runs(log)
  {
    var after := log + [Lost];
    forall i: nat, j: nat
      ensures IsRun(after, i, j) <==> IsRun(log, i, j)
    {
      if j < |log| {
        assert forall k :: 0 <= k < |log| ==> after[k] == log[k];
      }
    }
  }

  /** Any other verdict closes the open run, if there is one, and nothing else. */
  lemma RunsAfterOther(log: seq<Verdict>, n: nat, v: Verdict)
    requires IsOpenRun(log, n) && v != Lost
    ensures Runs(log + [v]) == Runs(log) + if n > 0 then {(|log| - n, |log|)} else {}
    ensures (|log| - n, |log|) !in Runs(log)
  {
    var after := log + [v];
    assert forall k :: 0 <= k < |log| ==> after[k] == log[k];
    forall i: nat, j: nat
      ensures IsRun(after, i, j) <==> IsRun(log, i, j) || (n > 0 && i == |log| - n && j == |log|)
    {
    }
  }

  // --------------------------------------------------------- the counters

  datatype Stats = Stats(
    received: nat,
    lostPreFec: nat,
    reorderLate: nat,
    lateAfterDeclared: nat,
    recovered: nat,
    dupRebuilt: nat,
    runHist: seq<nat>,
    maxRun: nat)

  const ZERO_STATS := Stats(0, 0, 0, 0, 0, 0, [0, 0, 0, 0, 0, 0, 0, 0], 0)

  /** The loss counters describe exactly the log: losses, and closed maximal runs by length. */
  ghost predicate Describes(stats: Stats, curRun: nat, log: seq<Verdict>) {
    && stats.lostPreFec == CountLost(log)
    && IsOpenRun(log, curRun)
    && |stats.runHist| == 8
    && (forall b :: 0 <= b < 8 ==> stats.runHist[b] == |RunsIn(log, b)|)
    && (forall r :: r in Runs(log) ==> r.1 - r.0 <= stats.maxRun)
    && (stats.maxRun > 0 ==> exists r :: r in Runs(log) && r.1 - r.0 == stats.maxRun)
  }

  function Closed(stats: Stats, run: nat): (r: Stats)
    requires |stats.runHist| == 8
  {
    if run == 0 then stats else
      stats.(runHist := stats.runHist[Bucket(run) := stats.runHist[Bucket(run)] + 1],
             maxRun := if run > stats.maxRun then run else stats.maxRun)
  }

  lemma DescribesAfterLoss(stats: Stats, curRun: nat, log: seq<Verdict>)
    requires Describes(stats, curRun, log)
    ensures Describes(stats.(lostPreFec := stats.lostPreFec + 1), curRun + 1, log + [Lost])
  {
    RunsAfterLoss(log);
    assert forall b :: RunsIn(log + [Lost], b) == RunsIn(log, b);
    assert (log + [Lost])[..|log|] == log;
  }

  lemma HistAfterOther(log: seq<Verdict>, n: nat, v: Verdict, b: nat)
    requires IsOpenRun(log, n) && v != Lost
    ensures |RunsIn(log + [v], b)| == |RunsIn(log, b)| + if n > 0 && Bucket(n) == b then 1 else 0
  {
    hide IsRun, IsOpenRun, Runs;
    RunsAfterOther(log, n, v);
    var r := (|log| - n, |log|);
    if n > 0 && Bucket(n) == b {
      assert RunsIn(log + [v], b) == RunsIn(log, b) + {r};
    } else {
      assert RunsIn(log + [v], b) == RunsIn(log, b);
    }
  }

  lemma MaxAfterOther(stats: Stats, n: nat, log: seq<Verdict>, v: Verdict)
    requires Describes(stats, n, log) && v != Lost
    ensures forall r :: r in Runs(log + [v]) ==> r.1 - r.0 <= Closed(stats, n).maxRun
    ensures Closed(stats, n).maxRun > 0 ==> exists r :: r in Runs(log + [v]) && r.1 - r.0 == Closed(stats, n).maxRun
  {
    hide Runs, RunsIn, IsOpenRun, CountLost;
    RunsAfterOther(log, n, v);
    if n > stats.maxRun {
      assert (|log| - n, |log|) in Runs(log + [v]);
    } else if stats.maxRun > 0 {
      var r :| r in Runs(log) && r.1 - r.0 == stats.maxRun;
      assert r in Runs(log + [v]);
    }
  }

  lemma DescribesAfterOther(stats: Stats, curRun: nat, log: seq<Verdict>, v: Verdict)
    requires Describes(stats, curRun, log) && v != Lost
    ensures Describes(Closed(stats, curRun), 0, log + [v])
  {
    hide Runs, RunsIn, IsOpenRun;
    assert (log + [v])[..|log|] == log;
    ClosedRunIsOpenZero(log, v);
    MaxAfterOther(stats, curRun, log, v);
    forall b: nat | b < 8
      ensures Closed(stats, curRun).runHist[b] == |RunsIn(log + [v], b)|
    {
      HistAfterOther(log, curRun, v, b);
    }
  }

  /** The other counters play no part in describing the log. */
  lemma StatsFree(stats: Stats, curRun: nat, log: seq<Verdict>)
    ensures forall a, b, c, d, e ::
      Describes(stats.(received := a, reorderLate := b, lateAfterDeclared := c, recovered := d, dupRebuilt := e),
        curRun, log)
      <==> Describes(stats, curRun, log)
  {
  }

  /** Closing a run touches the run counters only. */
  lemma ClosedKeeps(stats: Stats, curRun: nat, log: seq<Verdict>)
    requires Describes(stats, curRun, log)
    ensures |stats.runHist| == 8
    ensures Closed(stats, curRun)
      == stats.(runHist := Closed(stats, curRun).runHist, maxRun := Closed(stats, curRun).maxRun)
  {
  }

  lemma ClosedRunIsOpenZero(log: seq<Verdict>, v: Verdict)
    requires v != Lost
    ensures IsOpenRun(log + [v], 0)
  {
  }

  // ------------------------------------------------------------ the tracker

  /** The verdicts on the numbers `from .. to`, given what had arrived. */
  ghost function Settled(arrived: iset<int>, from: int, to: int): seq<Verdict>
    requires from <= to
  {
    seq(to - from, i requires 0 <= i < to - from => if from + i in arrived then Arrived else Lost)
  }

  lemma SettledExtends(arrived: iset<int>, from: int, to: int)
    requires from <= to
    ensures Settled(arrived, from, from) == []
    ensures Settled(arrived, from, to + 1) == Settled(arrived, from, to) + [if to in arrived then Arrived else Lost]
  {
  }

  /** The flags `r` agree with the arrivals on the numbers `from ..= to`. */
  ghost predicate RingAgrees(r: seq<bool>, arrived: iset<int>, from: int, to: int) {
    && |r| == RING
    && forall n :: from <= n <= to ==> (r[n % RING] <==> n in arrived)
  }

  // --------------------------------------------------- what the ring does

  /** The slot belongs to one of the `count` numbers from `from` on. */
  predicate InArc(slot: int, from: int, count: int) { (slot - from) % RING < count }

  function Cleared(r: seq<bool>, from: int, count: int): seq<bool>
    requires |r| == RING
  {
    seq(RING, s requires 0 <= s < RING => r[s] && !InArc(s, from, count))
  }

  /** The ring with the flag of `n` alone. */
  function OnlyFlag(n: int): seq<bool> { seq(RING, s => s == n % RING) }

  /** What settling the numbers `from .. from + count` by their flags says: a flag is spent on its first reading. */
  function Verdicts(r: seq<bool>, from: int, count: nat): seq<Verdict>
    requires |r| == RING
  {
    seq(count, k requires 0 <= k < count => if k < RING && r[(from + k) % RING] then Arrived else Lost)
  }

  /** The ring once a forward step to `n` has cleared what it skips and marked `n`. */
  function Stepped(r: seq<bool>, newest: int, n: int): (after: seq<bool>)
    requires |r| == RING
    ensures |after| == RING
  {
    Cleared(r, newest + 1, n - newest - 1)[n % RING := true]
  }

  lemma Offset(m: int, from: int)
    ensures (m % RING - from) % RING == (m - from) % RING
  {
    assert m == m / RING * RING + m % RING;
    SameModulo(m % RING - from, m / RING);
  }

  lemma SameModulo(a: int, q: int)
    ensures (a + q * RING) % RING == a % RING
  {
  }

  /** A number less than a turn past `from` lies in the arc exactly when it is one of its numbers. */
  lemma InArcIff(m: int, from: int, count: int)
    ensures from <= m < from + RING ==> (InArc(m % RING, from, count) <==> m - from < count)
    ensures from - RING <= m < from ==> (InArc(m % RING, from, count) <==> m - from + RING < count)
  {
    Offset(m, from);
    if from - RING <= m < from { SameModulo(m - from, 1); }
  }

  lemma SlotsDiffer(a: int, b: int)
    requires 0 < b - a < RING
    ensures a % RING != b % RING
  {
  }

  lemma ClearNone(r: seq<bool>, from: int)
    requires |r| == RING
    ensures Cleared(r, from, 0) == r && Verdicts(r, from, 0) == []
  {
  }

  /** Reading and clearing the next number's flag. */
  lemma ClearNext(r: seq<bool>, from: int, k: nat)
    requires |r| == RING
    ensures Cleared(r, from, k)[(from + k) % RING := false] == Cleared(r, from, k + 1)
    ensures Cleared(r, from, k)[(from + k) % RING] <==> k < RING && r[(from + k) % RING]
  {
    var slot := (from + k) % RING;
    Offset(from + k, from);
    var was, now := Cleared(r, from, k)[slot := false], Cleared(r, from, k + 1);
    forall s | 0 <= s < RING
      ensures was[s] == now[s]
    {
      ArcGrows(s, from, k);
    }
  }

  lemma ArcGrows(s: int, from: int, k: nat)
    requires 0 <= s < RING
    ensures InArc(s, from, k + 1) <==> InArc(s, from, k) || s == (from + k) % RING
  {
    if (s - from) % RING == k {
      Offset(s - from, -from);
      assert s == (from + k) % RING;
    }
    if s == (from + k) % RING { Offset(from + k, from); }
  }

  lemma VerdictsExtend(r: seq<bool>, from: int, k: nat)
    requires |r| == RING
    ensures Verdicts(r, from, k + 1)
         == Verdicts(r, from, k) + [if k < RING && r[(from + k) % RING] then Arrived else Lost]
  {
  }

  /** A forward step that fits marks `n` and disturbs no number not yet settled. */
  lemma SteppedAgrees(r: seq<bool>, arrived: iset<int>, from: int, newest: int, n: int)
    requires RingAgrees(r, arrived, from, newest) && from <= newest < n < from + RING
    requires forall m :: m in arrived ==> m <= newest
    ensures RingAgrees(Stepped(r, newest, n), arrived + iset{n}, from, n)
  {
    hide InArc;
    var after := Stepped(r, newest, n);
    forall m | from <= m <= n
      ensures after[m % RING] <==> m in arrived + iset{n}
    {
      InArcIff(m, newest + 1, n - newest - 1);
      if m < n { SlotsDiffer(m, n); }
    }
  }

  /** Settling within one turn reads each number's own flag, and leaves the flags of the others. */
  lemma SettleAgrees(r: seq<bool>, arrived: iset<int>, from: int, until: int, newest: int)
    requires RingAgrees(r, arrived, from, newest) && from <= until <= newest < from + RING
    ensures Verdicts(r, from, until - from) == Settled(arrived, from, until)
    ensures RingAgrees(Cleared(r, from, until - from), arrived, until, newest)
  {
    hide InArc;
    forall k | 0 <= k < until - from
      ensures Verdicts(r, from, until - from)[k] == Settled(arrived, from, until)[k]
    {
      assert r[(from + k) % RING] <==> from + k in arrived;
    }
    forall m | until <= m <= newest
      ensures Cleared(r, from, until - from)[m % RING] <==> m in arrived
    {
      InArcIff(m, from, until - from);
    }
  }

  lemma SettledIgnores(arrived: iset<int>, n: int, from: int, until: int)
    requires from <= until <= n
    ensures Settled(arrived + iset{n}, from, until) == Settled(arrived, from, until)
  {
  }

  /** A forward step and the settling it brings: verdicts and flags are the truth exactly when it fits. */
  lemma StepKeepsAgreement(r: seq<bool>, arrived: iset<int>, from: int, newest: int, n: int)
    requires |r| == RING && RingAgrees(r, arrived, from, newest) && from <= newest < n
    requires forall m :: m in arrived ==> m <= newest
    ensures var until := if n - from > REORDER_WINDOW then n - REORDER_WINDOW else from;
            var flags := Stepped(r, newest, n);
            && (RingAgrees(Cleared(flags, from, until - from), arrived + iset{n}, until, n) <==> n - from < RING)
            && (n - from < RING ==> Verdicts(flags, from, until - from) == Settled(arrived, from, until))
  {
    hide RingAgrees, Cleared, Verdicts, Settled, Stepped;
    var until := if n - from > REORDER_WINDOW then n - REORDER_WINDOW else from;
    var flags := Stepped(r, newest, n);
    if n - from < RING {
      SteppedAgrees(r, arrived, from, newest, n);
      SettleAgrees(flags, arrived + iset{n}, from, until, n);
      SettledIgnores(arrived, n, from, until);
    } else {
      FlagSpent(flags, arrived + iset{n}, from, n);
    }
  }

  /** A turn or more past the last settled number, `n` shares its flag with a number settled before it. */
  lemma FlagSpent(r: seq<bool>, arrived: iset<int>, from: int, n: int)
    requires |r| == RING && n - from >= RING && n in arrived
    ensures !RingAgrees(Cleared(r, from, n - REORDER_WINDOW - from), arrived, n - REORDER_WINDOW, n)
  {
    Offset(n, from);
    assert (n - from) % RING <= n - from - RING by { TurnsOff(n - from); }
    assert !Cleared(r, from, n - REORDER_WINDOW - from)[n % RING];
  }

  lemma TurnsOff(d: int)
    requires d >= RING
    ensures d % RING <= d - RING
  {
  }

  /** A late number inside the window fills in its own flag only. */
  lemma FillIn(r: seq<bool>, arrived: iset<int>, from: int, to: int, n: int)
    requires RingAgrees(r, arrived, from, to) && from <= n <= to < from + RING
    ensures r[n % RING] <==> n in arrived
    ensures RingAgrees(r[n % RING := true], arrived + iset{n}, from, to)
  {
    forall m | from <= m <= to && m != n
      ensures m % RING != n % RING
    {
    }
  }

  /** Numbers outside the window do not matter to it. */
  lemma OutsideIsFree(r: seq<bool>, arrived: iset<int>, from: int, to: int, n: int)
    requires RingAgrees(r, arrived, from, to) && n < from
    ensures RingAgrees(r, arrived + iset{n}, from, to)
  {
  }

  /** Wrapped numbers name the true number's flag, and count on as it does. */
  lemma SlotOfWrapped(n: int)
    ensures Wrap32(n) % RING == n % RING
  {
  }

  lemma WrapDiff(a: int, b: int)
    ensures (Wrap32(a) - Wrap32(b)) % MOD32 == (a - b) % MOD32
  {
  }

  lemma RingReads(r: seq<bool>, arrived: iset<int>, from: int, to: int, n: int)
    requires RingAgrees(r, arrived, from, to) && from <= n <= to
    ensures r[n % RING] <==> n in arrived
  {
  }

  lemma WrapAdd(n: int, k: int)
    ensures (Wrap32(n) + k) % MOD32 == Wrap32(n + k)
  {
  }

  // ------------------------------------------ what a run of numbers amounts to

  /** The newest number, the first not yet settled and the verdicts: no ring, no wrapping. */
  datatype Window = Window(newest: Option<int>, settled: int, log: seq<Verdict>)

  ghost function Everything(numbers: seq<int>): iset<int> { iset n | n in numbers }

  ghost function Judged(numbers: seq<int>): (w: Window)
    ensures w.newest.Some? ==> w.settled <= w.newest.value
    ensures w.newest.None? <==> numbers == []
  {
    if numbers == [] then Window(None, 0, []) else
      var front, n := numbers[..|numbers| - 1], numbers[|numbers| - 1];
      var w := Judged(front);
      if w.newest.None? then Window(Some(n), n, [])
      else if n - w.newest.value > RESYNC_JUMP then Window(Some(n), n, w.log + [Resync])
      else if n > w.newest.value then
        var settled := SettledBy(w, n);
        Window(Some(n), settled, w.log + Settled(Everything(front), w.settled, settled))
      else w
  }

  /** Where settling stops once `n` is the newest. */
  function SettledBy(w: Window, n: int): int {
    if n - w.settled > REORDER_WINDOW then n - REORDER_WINDOW else w.settled
  }

  /** The numbers `from .. to` that had not arrived. */
  ghost function Absent(arrived: iset<int>, from: int, to: int): set<int> { set m | from <= m < to && m !in arrived }

  /** The numbers declared lost: settled at some step without having arrived. */
  ghost function DeclaredLost(numbers: seq<int>): set<int> {
    if numbers == [] then {} else
      var front, n := numbers[..|numbers| - 1], numbers[|numbers| - 1];
      var w := Judged(front);
      DeclaredLost(front)
      + if w.newest.Some? && 0 < n - w.newest.value <= RESYNC_JUMP
        then Absent(Everything(front), w.settled, SettledBy(w, n))
        else {}
  }

  /** The last number of the run had been settled, or given up by a resynchronisation, when it came. */
  ghost predicate ComesLate(numbers: seq<int>)
    requires numbers != []
  {
    var w := Judged(numbers[..|numbers| - 1]);
    w.newest.Some? && numbers[|numbers| - 1] < w.settled
  }

  ghost predicate ComesAgain(numbers: seq<int>)
    requires numbers != []
  {
    numbers[|numbers| - 1] in numbers[..|numbers| - 1]
  }

  /** The last number came for the first time, out of order but inside the window. */
  ghost predicate ComesReordered(numbers: seq<int>)
    requires numbers != []
  {
    var w, n := Judged(numbers[..|numbers| - 1]), numbers[|numbers| - 1];
    w.newest.Some? && w.settled <= n < w.newest.value && !ComesAgain(numbers)
  }

  /** The last number came for the first time, after it was declared lost. */
  ghost predicate ComesAfterDeclared(numbers: seq<int>)
    requires numbers != []
  {
    numbers[|numbers| - 1] in DeclaredLost(numbers[..|numbers| - 1]) && !ComesAgain(numbers)
  }

  /** `received` should be this: distinct datagrams that arrived. */
  ghost function Distinct(numbers: seq<int>): nat { |Numbers(numbers)| }

  ghost function Numbers(numbers: seq<int>): set<int> { set n | n in numbers }

  /** `reorder_late`: datagrams that came out of order but inside the window. */
  ghost function Reordered(numbers: seq<int>): nat {
    if numbers == [] then 0 else Reordered(numbers[..|numbers| - 1]) + if ComesReordered(numbers) then 1 else 0
  }

  /** `late_after_declared` should be this: datagrams that came after they were declared lost. */
  ghost function AfterDeclared(numbers: seq<int>): nat {
    if numbers == [] then 0 else AfterDeclared(numbers[..|numbers| - 1]) + if ComesAfterDeclared(numbers) then 1 else 0
  }

  /** Arrivals the tracker counts as late. */
  ghost function Late(numbers: seq<int>): nat {
    if numbers == [] then 0 else Late(numbers[..|numbers| - 1]) + if ComesLate(numbers) then 1 else 0
  }

  /** Late arrivals of numbers that had arrived before. */
  ghost function LateAgain(numbers: seq<int>): nat {
    if numbers == [] then 0
    else LateAgain(numbers[..|numbers| - 1]) + if ComesLate(numbers) && ComesAgain(numbers) then 1 else 0
  }

  /** No number came late that had arrived before. */
  ghost predicate NothingLateAgain(numbers: seq<int>) {
    forall i :: 0 < i <= |numbers| && ComesLate(numbers[..i]) ==> !ComesAgain(numbers[..i])
  }

  /** Every number that came late came for the first time, and after it was declared lost. */
  ghost predicate OnlyLostCameLate(numbers: seq<int>) {
    forall i :: 0 < i <= |numbers| && ComesLate(numbers[..i]) ==> ComesAfterDeclared(numbers[..i])
  }

  lemma {:induction false} LateAgainNone(numbers: seq<int>)
    ensures LateAgain(numbers) == 0 <==> NothingLateAgain(numbers)
  {
    hide ComesLate, ComesAgain;
    if numbers == [] {
    } else {
      var front := numbers[..|numbers| - 1];
      LateAgainNone(front);
      PrefixesOf(numbers, front);
    }
  }

  /** A number declared lost has been settled. */
  lemma {:induction false} DeclaredIsLate(numbers: seq<int>)
    ensures forall n :: n in DeclaredLost(numbers) ==> n < Judged(numbers).settled
  {
    if numbers == [] {
    } else {
      DeclaredIsLate(numbers[..|numbers| - 1]);
    }
  }

  lemma {:induction false} OnlyLostIff(numbers: seq<int>)
    ensures AfterDeclared(numbers) <= Late(numbers)
    ensures AfterDeclared(numbers) == Late(numbers) <==> OnlyLostCameLate(numbers)
  {
    if numbers == [] {
    } else {
      var front := numbers[..|numbers| - 1];
      assert ComesAfterDeclared(numbers) ==> ComesLate(numbers) by { DeclaredIsLate(front); }
      hide ComesLate, ComesAfterDeclared;
      OnlyLostIff(front);
      PrefixesOf(numbers, front);
    }
  }

  lemma PrefixesOf(numbers: seq<int>, front: seq<int>)
    requires numbers != [] && front == numbers[..|numbers| - 1]
    ensures numbers[..|numbers|] == numbers
    ensures forall i {:trigger numbers[..i]} {:trigger front[..i]} :: 0 <= i < |numbers| ==> front[..i] == numbers[..i]
  {
  }

  lemma DistinctStep(numbers: seq<int>)
    requires numbers != []
    ensures Distinct(numbers) == Distinct(numbers[..|numbers| - 1]) + if ComesAgain(numbers) then 0 else 1
  {
    var front, n := numbers[..|numbers| - 1], numbers[|numbers| - 1];
    assert numbers == front + [n];
    assert Numbers(numbers) == Numbers(front) + {n};
    assert n in Numbers(front) <==> ComesAgain(numbers);
  }

  lemma CountLostAppend(log: seq<Verdict>, v: Verdict)
    ensures CountLost(log + [v]) == CountLost(log) + if v == Lost then 1 else 0
  {
    assert (log + [v])[..|log|] == log;
  }

  lemma AbsentExtends(arrived: iset<int>, lo: int, hi: int)
    requires lo <= hi
    ensures Absent(arrived, lo, lo) == {} && hi !in Absent(arrived, lo, hi)
    ensures Absent(arrived, lo, hi + 1) == Absent(arrived, lo, hi) + if hi in arrived then {} else {hi}
  {
  }

  /** One settling logs one loss for each number that had not arrived. */
  lemma {:induction false} LostInSettled(arrived: iset<int>, log: seq<Verdict>, lo: int, hi: int)
    requires lo <= hi
    ensures CountLost(log + Settled(arrived, lo, hi)) == CountLost(log) + |Absent(arrived, lo, hi)|
    decreases hi - lo
  {
    hide CountLost, Settled, Absent;
    if lo == hi {
      SettledExtends(arrived, lo, hi);
      AbsentExtends(arrived, lo, hi);
      assert log + [] == log;
    } else {
      LostInSettled(arrived, log, lo, hi - 1);
      SettledExtends(arrived, lo, hi - 1);
      AbsentExtends(arrived, lo, hi - 1);
      var v := if hi - 1 in arrived then Arrived else Lost;
      var shorter := log + Settled(arrived, lo, hi - 1);
      assert log + Settled(arrived, lo, hi) == shorter + [v];
      CountLostAppend(shorter, v);
    }
  }

  /** Each number is declared lost at most once, and `lost_pre_fec` counts them. */
  lemma {:induction false} LostAreDistinct(numbers: seq<int>)
    ensures CountLost(Judged(numbers).log) == |DeclaredLost(numbers)|
  {
    if numbers == [] {
    } else {
      var front, n := numbers[..|numbers| - 1], numbers[|numbers| - 1];
      LostAreDistinct(front);
      DeclaredIsLate(front);
      var w := Judged(front);
      if w.newest.Some? && n - w.newest.value > RESYNC_JUMP {
        assert (w.log + [Resync])[..|w.log|] == w.log;
      } else if w.newest.Some? && n > w.newest.value {
        LostInSettled(Everything(front), w.log, w.settled, SettledBy(w, n));
        assert Absent(Everything(front), w.settled, SettledBy(w, n)) !! DeclaredLost(front);
      }
    }
  }

  // ------------------------------------------------- a copy that comes late

  function UpTo(k: nat): seq<int> { seq(k + 1, i => i) }

  lemma {:induction false} CountsUp(k: nat)
    ensures Judged(UpTo(k)).newest == Some(k)
    ensures Judged(UpTo(k)).settled == if k > REORDER_WINDOW then k - REORDER_WINDOW else 0
    ensures DeclaredLost(UpTo(k)) == {}
  {
    hide Settled, Everything;
    var up := UpTo(k);
    if k == 0 {
      assert up[..0] == [];
    } else {
      assert up[..k] == UpTo(k - 1);
      CountsUp(k - 1);
      AllArrived(k - 1, Judged(UpTo(k - 1)).settled, Judged(up).settled);
    }
  }

  lemma {:induction false} NothingLate(k: nat)
    ensures Distinct(UpTo(k)) == k + 1 && LateAgain(UpTo(k)) == Late(UpTo(k)) == AfterDeclared(UpTo(k)) == 0
  {
    hide Judged, DeclaredLost, Distinct;
    var up := UpTo(k);
    DistinctStep(up);
    if k == 0 {
      assert up[..0] == [];
      NothingSeen(up[..0]);
    } else {
      assert up[..k] == UpTo(k - 1);
      CountsUp(k - 1);
      NothingLate(k - 1);
    }
  }

  lemma NothingSeen(numbers: seq<int>)
    requires numbers == []
    ensures Judged(numbers) == Window(None, 0, []) && Everything(numbers) == iset{} && DeclaredLost(numbers) == {}
    ensures Distinct(numbers) == LateAgain(numbers) == Late(numbers) == 0
    ensures Reordered(numbers) == AfterDeclared(numbers) == 0
  {
    assert Numbers(numbers) == {};
  }

  lemma AllArrived(k: nat, lo: int, hi: int)
    requires 0 <= lo && hi <= k + 1
    ensures Absent(Everything(UpTo(k)), lo, hi) == {}
  {
    forall m | 0 <= m <= k ensures m in UpTo(k) { assert UpTo(k)[m] == m; }
  }

  /** The numbers 0 to 65, and 0 once more. */
  function CopyComesLate(): seq<int> { UpTo(65) + [0] }

  lemma UpToIsGood(k: nat)
    ensures GoodSteps(UpTo(k))
  {
    hide Judged;
    var run := UpTo(k);
    forall i | 0 < i < |run|
      ensures GoodStep(Judged(run[..i]), run[i])
    {
      CountsUp(i - 1);
      assert run[..i] == UpTo(i - 1);
    }
  }

  lemma CopyIsGood()
    ensures GoodSteps(CopyComesLate())
  {
    hide Judged;
    var run := CopyComesLate();
    forall i | 0 < i < |run|
      ensures GoodStep(Judged(run[..i]), run[i])
    {
      CountsUp(i - 1);
      assert run[..i] == UpTo(i - 1);
    }
  }

  /** A late copy of a datagram that arrived in order is counted as another, and as declared lost. */
  lemma CopyCountedTwice()
    ensures var run := CopyComesLate();
            && Distinct(run) + LateAgain(run) == 67 && Distinct(run) == 66
            && Late(run) == 1 && AfterDeclared(run) == 0 && DeclaredLost(run) == {}
  {
    hide Distinct, Judged;
    var run := CopyComesLate();
    CountsUp(65);
    NothingLate(65);
    assert run[..66] == UpTo(65);
    assert UpTo(65)[0] == 0;
    DistinctStep(run);
  }

  /** One more received; of the other counters only the loss counters may move. */
  predicate Counted(was: Stats, now: Stats) {
    now == was.(received := was.received + 1, lostPreFec := now.lostPreFec, runHist := now.runHist,
      maxRun := now.maxRun)
  }

  /**
   * Every step is within half a turn, and a forward step leads less than 512 past the
   * last settled number or resynchronises.
   */
  ghost predicate GoodSteps(numbers: seq<int>) {
    forall i :: 0 < i < |numbers| ==> GoodStep(Judged(numbers[..i]), numbers[i])
  }

  ghost predicate GoodStep(w: Window, n: int) {
    w.newest.Some? && -HALF32 <= n - w.newest.value < HALF32 &&
    (n <= w.newest.value || n - w.settled < RING || n - w.newest.value > RESYNC_JUMP)
  }

  class WireLossTracker {
    var stats: Stats
    var newest: Option<u32>
    var settledNext: u32
    const ring: array<bool>
    var curRun: nat

    /** True numbers behind `newest` and `settledNext`, and everything that arrived. */
    ghost var trueNewest: int
    ghost var trueSettled: int
    ghost var arrived: iset<int>
    ghost var log: seq<Verdict>

    ghost predicate Valid()
      reads this, ring
    {
      && ring.Length == RING
      && Describes(stats, curRun, log)
      && (newest.None? ==> curRun == 0 && arrived == iset{})
      && (newest.Some? ==>
            && newest.value == Wrap32(trueNewest) && settledNext == Wrap32(trueSettled)
            && 0 <= trueNewest - trueSettled <= REORDER_WINDOW
            && trueNewest in arrived && forall n :: n in arrived ==> n <= trueNewest)
    }

    /** The ring agrees with the arrivals on every number not yet settled. */
    ghost predicate Agrees()
      requires ring.Length == RING
      reads this, ring
    {
      newest.Some? ==> RingAgrees(ring[..], arrived, trueSettled, trueNewest)
    }

    constructor ()
      ensures Valid() && Agrees() && fresh(ring)
      ensures Untouched()
    {
      stats, newest, settledNext, curRun := ZERO_STATS, None, 0, 0;
      ring := new bool[RING](_ => false);
      trueNewest, trueSettled, arrived, log := 0, 0, iset{}, [];
    }

    ghost predicate Untouched()
      reads this
    {
      newest == None && stats == ZERO_STATS && trueSettled == 0 && arrived == iset{} && log == []
    }

    lemma StartsTracking(numbers: seq<int>)
      requires Untouched() && numbers == []
      ensures Tracks(numbers)
    {
      hide Judged, Everything, Distinct, LateAgain, Late, Reordered;
      NothingSeen(numbers);
    }

    /** Settle the oldest unsettled number by what the ring says of it. */
    method SettleOne()
      requires ring.Length == RING && Describes(stats, curRun, log)
      requires settledNext == Wrap32(trueSettled)
      modifies this`stats, this`settledNext, this`curRun, this`trueSettled, this`log, ring
      ensures Describes(stats, curRun, log)
      ensures trueSettled == old(trueSettled) + 1 && settledNext == Wrap32(trueSettled)
      ensures log == old(log) + [if old(ring[trueSettled % RING]) then Arrived else Lost]
      ensures ring[..] == old(ring[..])[old(trueSettled) % RING := false]
      ensures stats == old(stats).(lostPreFec := stats.lostPreFec, runHist := stats.runHist, maxRun := stats.maxRun)
    {
      hide Describes, Wrap32, Closed;
      var s := settledNext;
      SlotOfWrapped(trueSettled);
      WrapAdd(trueSettled, 1);
      ClosedKeeps(stats, curRun, log);
      if ring[s % RING] {
        DescribesAfterOther(stats, curRun, log, Arrived);
        stats := Closed(stats, curRun);
        curRun := 0;
        log := log + [Arrived];
      } else {
        DescribesAfterLoss(stats, curRun, log);
        stats := stats.(lostPreFec := stats.lostPreFec + 1);
        curRun := curRun + 1;
        log := log + [Lost];
      }
      ring[s % RING] := false;
      settledNext := (s + 1) % MOD32;
      trueSettled := trueSettled + 1;
    }

    /** Settle every number older than the reorder window behind the newest, by the flags of the ring. */
    method Settle()
      requires ring.Length == RING && Describes(stats, curRun, log)
      requires newest.Some? && newest.value == Wrap32(trueNewest) && settledNext == Wrap32(trueSettled)
      requires 0 <= trueNewest - trueSettled < HALF32
      modifies this`stats, this`settledNext, this`curRun, this`trueSettled, this`log, ring
      ensures Describes(stats, curRun, log) && settledNext == Wrap32(trueSettled)
      ensures trueSettled == if old(trueNewest - trueSettled) <= REORDER_WINDOW then old(trueSettled)
                             else trueNewest - REORDER_WINDOW
      ensures old(trueSettled) <= trueSettled
      ensures ring[..] == Cleared(old(ring[..]), old(trueSettled), trueSettled - old(trueSettled))
      ensures log == old(log) + Verdicts(old(ring[..]), old(trueSettled), trueSettled - old(trueSettled))
      ensures stats == old(stats).(lostPreFec := stats.lostPreFec, runHist := stats.runHist, maxRun := stats.maxRun)
    {
      hide Describes, Signed32, Cleared, Verdicts, Wrap32;
      ghost var flags, start := ring[..], trueSettled;
      Signed32OfTrue(trueNewest, trueSettled);
      ClearNone(flags, start);
      while Signed32(newest.value, settledNext) > REORDER_WINDOW
        invariant settledNext == Wrap32(trueSettled) && start <= trueSettled
        invariant trueSettled == start || trueSettled <= trueNewest - REORDER_WINDOW
        invariant Signed32(newest.value, settledNext) == trueNewest - trueSettled
        invariant Describes(stats, curRun, log)
        invariant ring[..] == Cleared(flags, start, trueSettled - start)
        invariant log == old(log) + Verdicts(flags, start, trueSettled - start)
        invariant stats == old(stats).(lostPreFec := stats.lostPreFec, runHist := stats.runHist, maxRun := stats.maxRun)
        decreases trueNewest - trueSettled
      {
        ClearNext(flags, start, trueSettled - start);
        VerdictsExtend(flags, start, trueSettled - start);
        assert ring[trueSettled % RING] == ring[..][trueSettled % RING];
        SettleOne();
        Signed32OfTrue(trueNewest, trueSettled);
      }
    }

    /** Forget everything and start over at `n`, without counting the jump. */
    method Restart(seq': u32, ghost n: int)
      requires ring.Length == RING && seq' == Wrap32(n) && Describes(stats, 0, log)
      requires forall m :: m in arrived ==> m <= n
      modifies this`newest, this`settledNext, this`trueNewest, this`trueSettled
      modifies this`arrived, this`stats, this`curRun, ring
      ensures Valid() && Agrees()
      ensures newest == Some(seq') && trueNewest == trueSettled == n && arrived == old(arrived) + iset{n}
      ensures ring[..] == OnlyFlag(n)
      ensures stats == old(stats).(received := old(stats).received + 1)
    {
      SlotOfWrapped(n);
      newest, settledNext, curRun := Some(seq'), seq', 0;
      forall i | 0 <= i < RING { ring[i] := false; }
      ring[seq' % RING] := true;
      trueNewest, trueSettled, arrived := n, n, arrived + iset{n};
      stats := stats.(received := stats.received + 1);
    }

    /**
     * A datagram numbered `n` (on the wire `seq'`) arrived. `n` is the number
     * within half a turn of the newest that `seq'` stands for.
     *
     * A forward step settles what falls out of the reorder window, each number by its
     * flag. That is whether it had arrived, and agreement survives the step, exactly
     * when the step leads less than 512 past the last settled number; steps up to 447
     * always do.
     */
    method OnReceived(seq': u32, ghost n: int)
      requires Valid() && seq' == Wrap32(n)
      requires newest.Some? ==> -HALF32 <= n - trueNewest < HALF32
      modifies this, ring
      ensures Valid() && newest.Some? && arrived == old(arrived) + iset{n}
      ensures old(newest).None? ==>
        Agrees() && trueNewest == trueSettled == n && log == old(log) && ring[..] == OnlyFlag(n)
      ensures old(newest).Some? && n - old(trueNewest) > RESYNC_JUMP ==>
        Agrees() && trueNewest == trueSettled == n && log == old(log) + [Resync]
      ensures old(newest).Some? && 0 < n - old(trueNewest) <= RESYNC_JUMP ==>
        && trueNewest == n && old(trueSettled) <= trueSettled
        && trueSettled == (if n - old(trueSettled) > REORDER_WINDOW then n - REORDER_WINDOW else old(trueSettled))
        && var flags := Stepped(old(ring[..]), old(trueNewest), n);
           && ring[..] == Cleared(flags, old(trueSettled), trueSettled - old(trueSettled))
           && log == old(log) + Verdicts(flags, old(trueSettled), trueSettled - old(trueSettled))
      ensures old(newest).Some? && 0 < n - old(trueNewest) <= RESYNC_JUMP && old(Agrees()) ==>
        && (Agrees() <==> n - old(trueSettled) < RING)
        && (n - old(trueSettled) < RING ==> log == old(log) + Settled(old(arrived), old(trueSettled), trueSettled))
        && (n - old(trueNewest) <= 447 ==> Agrees())
      ensures old(newest).None? || n > old(trueNewest) ==> Counted(old(stats), stats)
      ensures old(newest).Some? && n <= old(trueNewest) && old(Agrees()) ==>
        && Agrees()
        && trueNewest == old(trueNewest) && trueSettled == old(trueSettled) && log == old(log)
        && stats == if n < trueSettled
                    then old(stats).(received := old(stats).received + 1,
                      lateAfterDeclared := old(stats).lateAfterDeclared + 1)
                    else if n in old(arrived) then old(stats)
                    else old(stats).(received := old(stats).received + 1, reorderLate := old(stats).reorderLate + 1)
    {
      hide Describes, Signed32, RingAgrees, Settled, Cleared, Verdicts, Stepped, OnlyFlag;
      if newest.None? {
        Restart(seq', n);
        return;
      }
      Signed32OfTrue(n, trueNewest);
      var d := Signed32(seq', newest.value);
      if d > RESYNC_JUMP {
        DescribesAfterOther(stats, curRun, log, Resync);
        ClosedKeeps(stats, curRun, log);
        stats := Closed(stats, curRun);
        log := log + [Resync];
        Restart(seq', n);
      } else if d > 0 {
        if Agrees() {
          StepKeepsAgreement(ring[..], arrived, trueSettled, trueNewest, n);
        }
        Advance(seq', d, n);
      } else {
        OnOld(seq', n);
      }
    }

    /** Clear the flags of the numbers a forward step of `d` skips. */
    method ClearGap(d: int)
      requires ring.Length == RING && newest.Some? && newest.value == Wrap32(trueNewest) && d > 0
      modifies ring
      ensures ring[..] == Cleared(old(ring[..]), trueNewest + 1, d - 1)
    {
      hide Cleared, Verdicts, Wrap32;
      ghost var flags := ring[..];
      ClearNone(flags, trueNewest + 1);
      for s := 1 to d
        invariant ring[..] == Cleared(flags, trueNewest + 1, s - 1)
      {
        ClearNext(flags, trueNewest + 1, s - 1);
        WrapAdd(trueNewest, s);
        SlotOfWrapped(trueNewest + s);
        ghost var before := ring[..];
        ring[(newest.value + s) % MOD32 % RING] := false;
        assert ring[..] == before[(trueNewest + s) % RING := false];
      }
    }

    /** A forward step of `d`: the numbers skipped are gaps until they fill in. */
    method Advance(seq': u32, d: int, ghost n: int)
      requires Valid() && newest.Some? && seq' == Wrap32(n) && d == n - trueNewest && 0 < d <= RESYNC_JUMP
      modifies this, ring
      ensures Valid() && newest.Some?
      ensures trueNewest == n && arrived == old(arrived) + iset{n} && Counted(old(stats), stats)
      ensures trueSettled == if n - old(trueSettled) > REORDER_WINDOW then n - REORDER_WINDOW else old(trueSettled)
      ensures old(trueSettled) <= trueSettled
      ensures var flags := Stepped(old(ring[..]), old(trueNewest), n);
              && ring[..] == Cleared(flags, old(trueSettled), trueSettled - old(trueSettled))
              && log == old(log) + Verdicts(flags, old(trueSettled), trueSettled - old(trueSettled))
    {
      hide Describes, Signed32, Cleared, Verdicts, Wrap32;
      StatsFree(stats, curRun, log);
      ClearGap(d);
      SlotOfWrapped(n);
      ghost var before := ring[..];
      ring[seq' % RING] := true;
      assert ring[..] == before[n % RING := true];
      newest := Some(seq');
      trueNewest, arrived := n, arrived + iset{n};
      stats := stats.(received := stats.received + 1);
      Settle();
    }

    /** Not newer: already settled, a duplicate, or reordered inside the window. */
    method OnOld(seq': u32, ghost n: int)
      requires Valid() && newest.Some? && seq' == Wrap32(n) && -HALF32 <= n - trueNewest <= 0
      modifies this, ring
      ensures Valid() && newest == old(newest)
      ensures trueNewest == old(trueNewest) && trueSettled == old(trueSettled) && log == old(log)
      ensures arrived == old(arrived) + iset{n}
      ensures old(Agrees()) ==>
        && Agrees()
        && stats == if n < trueSettled
                    then old(stats).(received := old(stats).received + 1,
                      lateAfterDeclared := old(stats).lateAfterDeclared + 1)
                    else if n in old(arrived) then old(stats)
                    else old(stats).(received := old(stats).received + 1, reorderLate := old(stats).reorderLate + 1)
    {
      hide Describes, Signed32, RingAgrees;
      Signed32OfTrue(n, trueSettled);
      SlotOfWrapped(n);
      StatsFree(stats, curRun, log);
      ghost var before := ring[..];
      if Signed32(seq', settledNext) < 0 {
        if Agrees() { OutsideIsFree(ring[..], arrived, trueSettled, trueNewest, n); }
        stats := stats.(received := stats.received + 1, lateAfterDeclared := stats.lateAfterDeclared + 1);
      } else {
        if Agrees() { FillIn(ring[..], arrived, trueSettled, trueNewest, n); }
        if !ring[seq' % RING] {
          ring[seq' % RING] := true;
          stats := stats.(received := stats.received + 1, reorderLate := stats.reorderLate + 1);
        }
        assert ring[..] == before[n % RING := true];
      }
      arrived := arrived + iset{n};
    }

    /**
     * A datagram numbered `n` was rebuilt from parity. It counts as a recovery
     * unless the ring says of a number not yet settled that it had arrived; that is
     * the truth exactly when the number is not a settled one that had arrived.
     */
    method OnRebuilt(seq': u32, ghost n: int) returns (recovered: bool)
      requires Valid() && seq' == Wrap32(n)
      requires newest.Some? ==> -HALF32 < n - trueNewest < HALF32 && -HALF32 < n - trueSettled < HALF32
      modifies this`stats
      ensures Valid() && (old(Agrees()) ==> Agrees())
      ensures recovered <==> !(newest.Some? && trueSettled <= n <= trueNewest && ring[n % RING])
      ensures old(Agrees()) ==> ((recovered <==> n !in arrived) <==> !(newest.Some? && n < trueSettled && n in arrived))
      ensures stats == if recovered then old(stats).(recovered := old(stats).recovered + 1)
                       else old(stats).(dupRebuilt := old(stats).dupRebuilt + 1)
    {
      hide Describes, Signed32, Wrap32, RingAgrees;
      if newest.Some? {
        Signed32OfTrue(n, trueSettled);
        Signed32OfTrue(trueNewest, n);
        WrapDiff(trueNewest, n);
        if Agrees() && trueSettled <= n <= trueNewest { RingReads(ring[..], arrived, trueSettled, trueNewest, n); }
      }
      SlotOfWrapped(n);
      StatsFree(stats, curRun, log);
      var settled := Signed32(seq', settledNext) < 0;
      var inWindow := newest.Some? && Signed32(newest.value, seq') >= 0 && (newest.value - seq') % MOD32 < RING;
      var arrivedBefore := !settled && inWindow && ring[seq' % RING];
      recovered := !arrivedBefore;
      stats := if recovered then stats.(recovered := stats.recovered + 1)
        else stats.(dupRebuilt := stats.dupRebuilt + 1);
    }

    /** The tracker has seen the run `numbers`: its window, and each counter exactly. */
    ghost predicate Tracks(numbers: seq<int>)
      reads this
    {
      && Window(if newest.Some? then Some(trueNewest) else None, trueSettled, log) == Judged(numbers)
      && arrived == Everything(numbers)
      && stats.received == Distinct(numbers) + LateAgain(numbers)
      && stats.reorderLate == Reordered(numbers) && stats.lateAfterDeclared == Late(numbers)
    }

    /**
     * Over a whole run of good steps, across any number of wraps, the tracker judges
     * as with unbounded memory. The losses counted are the distinct numbers declared
     * lost. `received` counts distinct datagrams exactly when none came late that had
     * come before; `lateAfterDeclared` counts the datagrams that came after they were
     * declared lost exactly when nothing else came late.
     */
    method Replay(numbers: seq<int>)
      requires Valid() && Agrees() && Untouched() && GoodSteps(numbers)
      modifies this, ring
      ensures Valid() && Agrees() && Tracks(numbers) && stats.lostPreFec == |DeclaredLost(numbers)|
      ensures stats.received == Distinct(numbers) <==> NothingLateAgain(numbers)
      ensures stats.lateAfterDeclared == AfterDeclared(numbers) <==> OnlyLostCameLate(numbers)
    {
      hide Describes, RingAgrees, Judged, Distinct, LateAgain, Late, Reordered, AfterDeclared, DeclaredLost;
      hide NothingLateAgain, OnlyLostCameLate;
      StartsTracking(numbers[..0]);
      for i := 0 to |numbers|
        invariant Valid() && Agrees() && Tracks(numbers[..i])
      {
        if i > 0 { assert GoodStep(Judged(numbers[..i]), numbers[i]); }
        Receive(numbers[..i], numbers[i]);
        assert numbers[..i + 1] == numbers[..i] + [numbers[i]];
      }
      assert numbers[..|numbers|] == numbers;
      LateAgainNone(numbers);
      OnlyLostIff(numbers);
      LostAreDistinct(numbers);
      LossesCounted();
    }

    lemma LossesCounted()
      requires Valid()
      ensures stats.lostPreFec == CountLost(log)
    {
    }

    /** One more number of the run. */
    method Receive(front: seq<int>, n: int)
      requires Valid() && Agrees() && Tracks(front) && (front != [] ==> GoodStep(Judged(front), n))
      modifies this, ring
      ensures Valid() && Agrees() && Tracks(front + [n])
    {
      hide Describes, RingAgrees, Settled, Distinct;
      var numbers := front + [n];
      assert numbers[..|numbers| - 1] == front;
      DistinctStep(numbers);
      assert Everything(numbers) == Everything(front) + iset{n};
      OnReceived(Wrap32(n), n);
    }
  }

  /** 66 datagrams arrive, one of them twice: 67 are received, and one late after it was declared lost. */
  method LateCopy() returns (stats: Stats)
    ensures Distinct(CopyComesLate()) == 66 && AfterDeclared(CopyComesLate()) == 0
    ensures stats.received == 67 && stats.lateAfterDeclared == 1 && stats.lostPreFec == 0
  {
    hide Judged, Distinct, LateAgain, Late, Reordered, AfterDeclared, GoodSteps, DeclaredLost, RingAgrees, Describes;
    hide NothingLateAgain, OnlyLostCameLate, CopyComesLate, Everything;
    var t := new WireLossTracker();
    CopyIsGood();
    CopyCountedTwice();
    t.Replay(CopyComesLate());
    stats := t.stats;
  }

  /** Parity then rebuilds the first of 66 datagrams, all of which had arrived: it counts as recovered. */
  method RebuiltCopy() returns (recovered: bool, ghost arrived: iset<int>)
    ensures recovered && 0 in arrived
  {
    hide Judged, Distinct, LateAgain, Late, Reordered, AfterDeclared, GoodSteps, DeclaredLost, RingAgrees, Describes;
    hide NothingLateAgain, OnlyLostCameLate, UpTo;
    var t := new WireLossTracker();
    CountsUp(65);
    UpToIsGood(65);
    t.Replay(UpTo(65));
    recovered := t.OnRebuilt(0, 0);
    arrived := t.arrived;
    assert 0 in UpTo(65) by { UpToHolds(65); }
  }

  lemma UpToHolds(k: nat)
    ensures 0 in UpTo(k)
  {
    assert UpTo(k)[0] == 0;
  }

  // ----------------------------------------------- a step that does not fit

  /** After 0 and 600 the flag of 600 is the only one, and it is read for 88. */
  lemma OneFlagLeft()
    ensures Stepped(OnlyFlag(0), 0, 600) == OnlyFlag(600)
    ensures Cleared(OnlyFlag(600), 0, 536) == OnlyFlag(600)[88 := false]
    ensures var v := Verdicts(OnlyFlag(600), 0, 536);
            |v| == 536 && forall k :: 0 <= k < 536 ==> v[k] == if k == 88 then Arrived else Lost
  {
  }

  lemma NoFlagLeft(r: seq<bool>)
    requires r == OnlyFlag(600)[88 := false]
    ensures var flags := Stepped(r, 600, 665);
            var v := Verdicts(flags, 536, 65);
            |v| == 65 && forall k :: 0 <= k < 65 ==> v[k] == Lost
  {
  }

  /**
   * 0, 600 and 665 arrive. Of the numbers settled, 88 is judged arrived, which did not,
   * and 0 and 600 are judged lost, which did.
   */
  method JudgesWrongly() returns (ghost log: seq<Verdict>, ghost arrived: iset<int>)
    ensures arrived == iset{0, 600, 665} && |log| == 601
    ensures forall i :: 0 <= i < 601 ==> log[i] == if i == 88 then Arrived else Lost
  {
    hide Cleared, Verdicts, Stepped, OnlyFlag, Describes, RingAgrees, Settled;
    var t := new WireLossTracker();
    t.OnReceived(0, 0);
    OneFlagLeft();
    t.OnReceived(600, 600);
    NoFlagLeft(t.ring[..]);
    t.OnReceived(665, 665);
    log, arrived := t.log, t.arrived;
  }
}
