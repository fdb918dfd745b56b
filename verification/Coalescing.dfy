/**
 * Merging a grid of dirty tiles into rectangles: horizontal runs per row, then a
 * vertical merge of runs that line up exactly with the row above.
 *
 * The rectangles that come out are exactly the `Maximal` ones, stacks of one run
 * repeated over as many rows as it lasts. That they are pairwise disjoint and
 * cover the dirty tiles exactly is then a fact about runs and stacks alone.
 */
module Coalescing {
  import opened Dirty

  datatype Rect = Rect(x: nat, y: nat, w: nat, h: nat)

  predicate Inside(r: Rect, t: Tile) { r.x <= t.0 < r.x + r.w && r.y <= t.1 < r.y + r.h }

  // ----------------------------------------------------------------- runs

  /** A longest stretch of dirty tiles in row `y`: `w` of them from column `x`. */
  ghost predicate IsRun(g: DirtyGrid, y: nat, x: nat, w: nat)
    requires GridOk(g)
  {
    && w > 0 && x + w <= g.cols
    && (forall i :: x <= i < x + w ==> Get(g, (i, y)))
    && (x == 0 || !Get(g, (x - 1, y)))
    && (x + w == g.cols || !Get(g, (x + w, y)))
  }

  /** Two runs of a row that share a tile are one run. */
  lemma RunsMeet(g: DirtyGrid, y: nat, x: nat, w: nat, x2: nat, w2: nat, t: nat)
    requires GridOk(g) && IsRun(g, y, x, w) && IsRun(g, y, x2, w2)
    requires x <= t < x + w && x2 <= t < x2 + w2
    ensures x == x2 && w == w2
  {
    hide Get;
  }

  /** `runs` lists the runs of row `y` that start before column `x`, left to right. */
  ghost predicate RunsBefore(g: DirtyGrid, y: nat, x: nat, runs: seq<(nat, nat)>)
    requires GridOk(g)
  {
    && (forall r: (nat, nat) :: r in runs <==> IsRun(g, y, r.0, r.1) && r.0 < x)
    && forall i, j :: 0 <= i < j < |runs| ==> runs[i].0 < runs[j].0
  }

  lemma CleanTile(g: DirtyGrid, y: nat, x: nat, runs: seq<(nat, nat)>)
    requires GridOk(g) && RunsBefore(g, y, x, runs) && !Get(g, (x, y))
    ensures RunsBefore(g, y, x + 1, runs)
  {
    hide Get;
    forall r: (nat, nat)
      ensures r in runs <==> IsRun(g, y, r.0, r.1) && r.0 < x + 1
    {
      assert IsRun(g, y, r.0, r.1) ==> Get(g, (r.0, y));
    }
  }

  lemma RunAdded(g: DirtyGrid, y: nat, start: nat, x: nat, runs: seq<(nat, nat)>)
    requires GridOk(g) && RunsBefore(g, y, start, runs) && start < x && IsRun(g, y, start, x - start)
    ensures RunsBefore(g, y, x, runs + [(start, x - start)])
  {
    hide Get;
    var now := runs + [(start, x - start)];
    forall r: (nat, nat)
      ensures r in now <==> IsRun(g, y, r.0, r.1) && r.0 < x
    {
      if IsRun(g, y, r.0, r.1) && start <= r.0 < x { RunsMeet(g, y, start, x - start, r.0, r.1, r.0); }
    }
    forall i, j | 0 <= i < j < |now|
      ensures now[i].0 < now[j].0
    {
      if j == |runs| { assert runs[i] in runs; }
    }
  }

  lemma NoRunYet(g: DirtyGrid, y: nat)
    requires GridOk(g)
    ensures RunsBefore(g, y, 0, [])
  {
  }

  lemma AllRuns(g: DirtyGrid, y: nat, runs: seq<(nat, nat)>)
    requires GridOk(g) && RunsBefore(g, y, g.cols, runs)
    ensures forall r: (nat, nat) :: r in runs <==> IsRun(g, y, r.0, r.1)
    ensures forall i, j :: 0 <= i < j < |runs| ==> runs[i].0 < runs[j].0
  {
    hide Get;
    assert forall r: (nat, nat) :: IsRun(g, y, r.0, r.1) ==> r.0 < g.cols;
  }

  /** Where the dirty stretch that starts at column `start` ends. */
  method EndOfRun(g: DirtyGrid, y: nat, start: nat) returns (x: nat)
    requires GridOk(g) && start < g.cols && Get(g, (start, y)) && (start == 0 || !Get(g, (start - 1, y)))
    ensures start < x <= g.cols && IsRun(g, y, start, x - start) && (x < g.cols ==> !Get(g, (x, y)))
  {
    hide Get;
    x := start + 1;
    while x < g.cols && Get(g, (x, y))
      invariant start < x <= g.cols && forall i :: start <= i < x ==> Get(g, (i, y))
    {
      x := x + 1;
    }
  }

  /** The runs of one row, left to right. */
  method HorizontalRuns(g: DirtyGrid, y: nat) returns (runs: seq<(nat, nat)>)
    requires GridOk(g)
    ensures forall r: (nat, nat) :: r in runs <==> IsRun(g, y, r.0, r.1)
    ensures forall i, j :: 0 <= i < j < |runs| ==> runs[i].0 < runs[j].0
  {
    hide Get, IsRun, RunsBefore;
    runs := [];
    var x := 0;
    NoRunYet(g, y);
    while x < g.cols
      invariant x <= g.cols && RunsBefore(g, y, x, runs)
      invariant x < g.cols && Get(g, (x, y)) ==> x == 0 || !Get(g, (x - 1, y))
    {
      if Get(g, (x, y)) {
        var start := x;
        x := EndOfRun(g, y, start);
        RunAdded(g, y, start, x, runs);
        runs := runs + [(start, x - start)];
      } else {
        CleanTile(g, y, x, runs);
        x := x + 1;
      }
    }
    AllRuns(g, y, runs);
  }

  // --------------------------------------------------------------- stacks

  /** Every row the rectangle spans has its run. */
  ghost predicate Stacked(g: DirtyGrid, r: Rect)
    requires GridOk(g)
  {
    r.h > 0 && r.y + r.h <= g.rows && forall i :: r.y <= i < r.y + r.h ==> IsRun(g, i, r.x, r.w)
  }

  /** The row above does not have the run. */
  ghost predicate Starts(g: DirtyGrid, r: Rect)
    requires GridOk(g)
  {
    r.y == 0 || !IsRun(g, r.y - 1, r.x, r.w)
  }

  /** The row below does not have the run. */
  ghost predicate Ends(g: DirtyGrid, r: Rect)
    requires GridOk(g)
  {
    r.y + r.h >= g.rows || !IsRun(g, r.y + r.h, r.x, r.w)
  }

  ghost predicate Maximal(g: DirtyGrid, r: Rect)
    requires GridOk(g)
  {
    Stacked(g, r) && Starts(g, r) && Ends(g, r)
  }

  /** A stack that reaches the row above `y` and may go on. */
  ghost predicate OpenAt(g: DirtyGrid, y: nat, r: Rect)
    requires GridOk(g)
  {
    Stacked(g, r) && Starts(g, r) && r.y + r.h == y
  }

  /** A stack that is known to be over once row `y - 1` has been seen. */
  ghost predicate ClosedAt(g: DirtyGrid, y: nat, r: Rect)
    requires GridOk(g)
  {
    Maximal(g, r) && r.y + r.h < y
  }

  /** Two stacks of one run that share a row, both started, start together. */
  lemma StartsMeet(g: DirtyGrid, a: Rect, b: Rect, row: nat)
    requires GridOk(g) && Stacked(g, a) && Stacked(g, b) && Starts(g, a) && Starts(g, b)
    requires a.x == b.x && a.w == b.w && a.y <= row < a.y + a.h && b.y <= row < b.y + b.h
    ensures a.y == b.y
  {
    hide IsRun;
  }

  /** Two maximal stacks that share a tile are one: the rectangles never overlap. */
  lemma MaximalMeet(g: DirtyGrid, a: Rect, b: Rect, t: Tile)
    requires GridOk(g) && Maximal(g, a) && Maximal(g, b) && Inside(a, t) && Inside(b, t)
    ensures a == b
  {
    hide Get;
    RunsMeet(g, t.1, a.x, a.w, b.x, b.w, t.0);
    hide IsRun;
    StartsMeet(g, a, b, t.1);
  }

  /** Every dirty tile lies in a run. */
  lemma RunAt(g: DirtyGrid, t: Tile) returns (x: nat, w: nat)
    requires GridOk(g) && Get(g, t)
    ensures IsRun(g, t.1, x, w) && x <= t.0 < x + w
  {
    assert InRange(g, t);
    hide Get;
    x := t.0;
    while x > 0 && Get(g, (x - 1, t.1))
      invariant x <= t.0 && forall i :: x <= i <= t.0 ==> Get(g, (i, t.1))
    {
      x := x - 1;
    }
    var e := t.0 + 1;
    while e < g.cols && Get(g, (e, t.1))
      invariant t.0 < e <= g.cols && forall i :: x <= i < e ==> Get(g, (i, t.1))
    {
      e := e + 1;
    }
    w := e - x;
  }

  /** Every run lies in a maximal stack. */
  lemma StackAt(g: DirtyGrid, x: nat, w: nat, row: nat) returns (r: Rect)
    requires GridOk(g) && IsRun(g, row, x, w) && row < g.rows
    ensures Maximal(g, r) && r.x == x && r.w == w && r.y <= row < r.y + r.h
  {
    hide IsRun;
    var y: nat := row;
    while y > 0 && IsRun(g, y - 1, x, w)
      invariant y <= row && forall i :: y <= i <= row ==> IsRun(g, i, x, w)
    {
      y := y - 1;
    }
    var e := row + 1;
    while e < g.rows && IsRun(g, e, x, w)
      invariant row < e <= g.rows && forall i :: y <= i < e ==> IsRun(g, i, x, w)
    {
      e := e + 1;
    }
    r := Rect(x, y, w, e - y);
  }

  // ------------------------------------------------------- the merge, by row

  /** The map holds exactly the stacks that reach row `y`, by their run. */
  ghost predicate OpenOk(g: DirtyGrid, y: nat, open: map<(nat, nat), Rect>)
    requires GridOk(g)
  {
    && (forall k :: k in open ==> (open[k].x, open[k].w) == k)
    && forall r: Rect :: OpenAt(g, y, r) <==> (r.x, r.w) in open && open[(r.x, r.w)] == r
  }

  ghost predicate ClosedOk(g: DirtyGrid, y: nat, closed: seq<Rect>)
    requires GridOk(g)
  {
    && (forall r: Rect :: r in closed <==> ClosedAt(g, y, r))
    && NoRepeats(closed)
  }

  ghost predicate NoRepeats(s: seq<Rect>) { forall r: Rect :: multiset(s)[r] <= 1 }

  /** What row `y` makes of the stacks: each run extends its stack or starts one. */
  function Extended(open: map<(nat, nat), Rect>, y: nat, k: (nat, nat)): Rect {
    if k in open then open[k].(h := open[k].h + 1) else Rect(k.0, y, k.1, 1)
  }

  lemma ExtendedIsOpen(g: DirtyGrid, y: nat, open: map<(nat, nat), Rect>, k: (nat, nat))
    requires GridOk(g) && OpenOk(g, y, open) && y < g.rows && IsRun(g, y, k.0, k.1)
    ensures OpenAt(g, y + 1, Extended(open, y, k))
    ensures (Extended(open, y, k).x, Extended(open, y, k).w) == k
  {
    hide IsRun;
    var r := Extended(open, y, k);
    if k in open {
      assert OpenAt(g, y, open[k]);
    } else if y > 0 && IsRun(g, y - 1, k.0, k.1) {
      var s := StackEndingAt(g, k.0, k.1, y);
      assert false;
    }
  }

  lemma StackEndingAt(g: DirtyGrid, x: nat, w: nat, y: nat) returns (r: Rect)
    requires GridOk(g) && 0 < y <= g.rows && IsRun(g, y - 1, x, w)
    ensures OpenAt(g, y, r) && r.x == x && r.w == w
  {
    hide IsRun;
    var top := y - 1;
    while top > 0 && IsRun(g, top - 1, x, w)
      invariant top < y && forall i :: top <= i < y ==> IsRun(g, i, x, w)
    {
      top := top - 1;
    }
    r := Rect(x, top, w, y - top);
  }

  lemma OpenStep(g: DirtyGrid, y: nat, open: map<(nat, nat), Rect>, now: map<(nat, nat), Rect>)
    requires GridOk(g) && OpenOk(g, y, open) && y < g.rows
    requires forall k: (nat, nat) :: k in now <==> IsRun(g, y, k.0, k.1)
    requires forall k :: k in now ==> now[k] == Extended(open, y, k)
    ensures OpenOk(g, y + 1, now)
  {
    hide IsRun, Extended;
    forall k | k in now
      ensures OpenAt(g, y + 1, now[k]) && (now[k].x, now[k].w) == k
    {
      ExtendedIsOpen(g, y, open, k);
    }
    forall r: Rect | OpenAt(g, y + 1, r)
      ensures (r.x, r.w) in now && now[(r.x, r.w)] == r
    {
      var k := (r.x, r.w);
      assert IsRun(g, y, r.x, r.w);
      StartsMeet(g, r, now[k], y);
    }
  }

  lemma ClosedStep(
    g: DirtyGrid, y: nat, open: map<(nat, nat), Rect>, left: map<(nat, nat), Rect>, closed: seq<Rect>, now: seq<Rect>)
    requires GridOk(g) && OpenOk(g, y, open) && ClosedOk(g, y, closed) && y < g.rows
    requires forall k: (nat, nat) :: k in left <==> k in open && !IsRun(g, y, k.0, k.1)
    requires forall k :: k in left ==> left[k] == open[k]
    requires NoRepeats(now)
    requires forall r: Rect :: r in now <==> r in closed || ((r.x, r.w) in left && left[(r.x, r.w)] == r)
    ensures ClosedOk(g, y + 1, now)
  {
    hide IsRun;
    forall r: Rect
      ensures r in now <==> ClosedAt(g, y + 1, r)
    {
      if ClosedAt(g, y + 1, r) && r.y + r.h == y { assert OpenAt(g, y, r); }
      if (r.x, r.w) in left && left[(r.x, r.w)] == r { assert OpenAt(g, y, r); }
    }
  }

  /** At the end every stack is over. */
  lemma AllClosed(g: DirtyGrid, open: map<(nat, nat), Rect>, closed: seq<Rect>, now: seq<Rect>)
    requires GridOk(g) && OpenOk(g, g.rows, open) && ClosedOk(g, g.rows, closed)
    requires forall r: Rect :: r in now <==> r in closed || ((r.x, r.w) in open && open[(r.x, r.w)] == r)
    ensures forall r: Rect :: r in now <==> Maximal(g, r)
  {
    hide IsRun;
    forall r: Rect
      ensures r in now <==> Maximal(g, r)
    {
      if Maximal(g, r) && r.y + r.h == g.rows { assert OpenAt(g, g.rows, r); }
      if (r.x, r.w) in open && open[(r.x, r.w)] == r { assert OpenAt(g, g.rows, r); }
    }
  }

  /** Empty the map onto the list, in whatever order the map gives. */
  method Drain(left: map<(nat, nat), Rect>, closed: seq<Rect>) returns (now: seq<Rect>)
    requires NoRepeats(closed)
    requires forall k :: k in left ==> (left[k].x, left[k].w) == k && left[k] !in closed
    ensures NoRepeats(now)
    ensures forall r: Rect :: r in now <==> r in closed || ((r.x, r.w) in left && left[(r.x, r.w)] == r)
  {
    now := closed;
    var rest := left.Keys;
    while rest != {}
      invariant rest <= left.Keys && NoRepeats(now)
      invariant forall r: Rect :: r in now <==>
        r in closed || ((r.x, r.w) in left && (r.x, r.w) !in rest && left[(r.x, r.w)] == r)
    {
      var k :| k in rest;
      now := now + [left[k]];
      rest := rest - {k};
    }
  }

  // ----------------------------------------------------------------- order

  predicate Before(a: Rect, b: Rect) { a.y < b.y || (a.y == b.y && a.x < b.x) }

  ghost predicate Sorted(s: seq<Rect>) { forall i, j :: 0 <= i < j < |s| ==> !Before(s[j], s[i]) }

  lemma InsertedSorted(s: seq<Rect>, r: Rect, k: nat)
    requires Sorted(s) && k <= |s| && (k == 0 || !Before(r, s[k - 1]))
    requires forall i :: k <= i < |s| ==> Before(r, s[i])
    ensures Sorted(s[..k] + [r] + s[k..])
  {
    var t := s[..k] + [r] + s[k..];
    forall i, j | 0 <= i < j < |t|
      ensures !Before(t[j], t[i])
    {
      var u := if i < k then s[i] else if i == k then r else s[i - 1];
      var v := if j < k then s[j] else if j == k then r else s[j - 1];
      assert t[i] == u && t[j] == v;
    }
  }

  method InsertByOrigin(s: seq<Rect>, r: Rect) returns (t: seq<Rect>)
    requires Sorted(s)
    ensures Sorted(t) && multiset(t) == multiset(s) + multiset{r}
  {
    hide Sorted, Before;
    var k: nat := |s|;
    while k > 0 && Before(r, s[k - 1])
      invariant k <= |s| && forall i :: k <= i < |s| ==> Before(r, s[i])
    {
      k := k - 1;
    }
    InsertedSorted(s, r, k);
    t := s[..k] + [r] + s[k..];
    assert s == s[..k] + s[k..];
  }

  method SortByOrigin(s: seq<Rect>) returns (t: seq<Rect>)
    ensures Sorted(t) && multiset(t) == multiset(s)
  {
    t := [];
    for i := 0 to |s|
      invariant Sorted(t) && multiset(t) == multiset(s[..i])
    {
      assert s[..i + 1] == s[..i] + [s[i]];
      t := InsertByOrigin(t, s[i]);
    }
    assert s[..|s|] == s;
  }

  lemma NoTwoPlaces(s: seq<Rect>, i: nat, j: nat)
    requires NoRepeats(s) && i < j < |s|
    ensures s[i] != s[j]
  {
    assert s == s[..i] + [s[i]] + s[i + 1..j] + [s[j]] + s[j + 1..];
    assert s[i] == s[j] ==> multiset(s)[s[i]] >= 2;
  }

  // ------------------------------------------------------------- the result

  /** The rectangles cover exactly the dirty tiles. */
  ghost predicate Covers(g: DirtyGrid, rects: seq<Rect>)
    requires GridOk(g)
  {
    forall t: Tile :: Get(g, t) <==> InSome(rects, t)
  }

  predicate InSome(rects: seq<Rect>, t: Tile) { exists i :: 0 <= i < |rects| && Inside(rects[i], t) }

  ghost predicate Disjoint(rects: seq<Rect>) {
    forall i, j, t: Tile :: 0 <= i < j < |rects| ==> !(Inside(rects[i], t) && Inside(rects[j], t))
  }

  ghost predicate RowMajor(rects: seq<Rect>) { forall i, j :: 0 <= i < j < |rects| ==> Before(rects[i], rects[j]) }

  lemma MaximalCovers(g: DirtyGrid, rects: seq<Rect>)
    requires GridOk(g) && forall r: Rect :: r in rects <==> Maximal(g, r)
    ensures Covers(g, rects)
  {
    forall t: Tile
      ensures Get(g, t) <==> InSome(rects, t)
    {
      if Get(g, t) {
        var x, w := RunAt(g, t);
        var r := StackAt(g, x, w, t.1);
        assert r in rects;
      }
      if InSome(rects, t) {
        var i :| 0 <= i < |rects| && Inside(rects[i], t);
        assert rects[i] in rects;
        assert IsRun(g, t.1, rects[i].x, rects[i].w);
      }
    }
  }

  lemma MaximalDisjoint(g: DirtyGrid, rects: seq<Rect>)
    requires GridOk(g) && NoRepeats(rects) && forall r: Rect :: r in rects ==> Maximal(g, r)
    ensures Disjoint(rects)
  {
    hide Maximal, NoRepeats;
    forall i, j, t: Tile | 0 <= i < j < |rects|
      ensures !(Inside(rects[i], t) && Inside(rects[j], t))
    {
      NoTwoPlaces(rects, i, j);
      if Inside(rects[i], t) && Inside(rects[j], t) { MaximalMeet(g, rects[i], rects[j], t); }
    }
  }

  lemma MaximalRowMajor(g: DirtyGrid, rects: seq<Rect>)
    requires GridOk(g) && NoRepeats(rects) && Sorted(rects) && forall r: Rect :: r in rects ==> Maximal(g, r)
    ensures RowMajor(rects)
  {
    hide NoRepeats;
    forall i, j | 0 <= i < j < |rects|
      ensures Before(rects[i], rects[j])
    {
      var a, b := rects[i], rects[j];
      NoTwoPlaces(rects, i, j);
      assert a in rects && b in rects;
      if a.x == b.x && a.y == b.y {
        assert IsRun(g, a.y, a.x, a.w) && IsRun(g, b.y, b.x, b.w);
        MaximalMeet(g, a, b, (a.x, a.y));
      }
    }
  }

  /** One row of the merge: extend, open, and hand back what did not go on. */
  method MergeRow(g: DirtyGrid, y: nat, open: map<(nat, nat), Rect>)
    returns (now: map<(nat, nat), Rect>, left: map<(nat, nat), Rect>)
    requires GridOk(g) && OpenOk(g, y, open) && y < g.rows
    ensures OpenOk(g, y + 1, now)
    ensures forall k: (nat, nat) :: k in left <==> k in open && !IsRun(g, y, k.0, k.1)
    ensures forall k :: k in left ==> left[k] == open[k]
  {
    hide IsRun, OpenOk, Merged;
    var runs := HorizontalRuns(g, y);
    now, left := map[], open;
    ghost var done: set<(nat, nat)> := {};
    assert Merged(open, y, done, now, left) by { NothingMerged(open, y); }
    for i := 0 to |runs|
      invariant Merged(open, y, done, now, left)
      invariant forall k :: k in done <==> k in runs[..i]
    {
      var k := runs[i];
      assert k !in done by { FirstSeen(runs, i); }
      MergeRun(open, y, done, now, left, k);
      if k in left {
        now := now[k := left[k].(h := left[k].h + 1)];
        left := left - {k};
      } else {
        now := now[k := Rect(k.0, y, k.1, 1)];
      }
      done := done + {k};
      assert runs[..i + 1] == runs[..i] + [k];
    }
    assert runs[..|runs|] == runs;
    MergedAll(open, y, done, now, left);
    OpenStep(g, y, open, now);
  }

  /** The runs in `done` are merged: each extends its stack or starts one, and the other stacks are left. */
  ghost predicate Merged(
    open: map<(nat, nat), Rect>, y: nat, done: set<(nat, nat)>, now: map<(nat, nat), Rect>,
    left: map<(nat, nat), Rect>)
  {
    && left == open - done
    && now.Keys == done && forall k :: k in now ==> now[k] == Extended(open, y, k)
  }

  lemma NothingMerged(open: map<(nat, nat), Rect>, y: nat)
    ensures Merged(open, y, {}, map[], open)
  {
  }

  lemma MergeRun(
    open: map<(nat, nat), Rect>, y: nat, done: set<(nat, nat)>, now: map<(nat, nat), Rect>,
    left: map<(nat, nat), Rect>, k: (nat, nat))
    requires Merged(open, y, done, now, left) && k !in done
    ensures if k in left
      then Merged(open, y, done + {k}, now[k := left[k].(h := left[k].h + 1)], left - {k})
      else Merged(open, y, done + {k}, now[k := Rect(k.0, y, k.1, 1)], left)
  {
    assert open - (done + {k}) == (open - done) - {k};
  }

  lemma MergedAll(
    open: map<(nat, nat), Rect>, y: nat, done: set<(nat, nat)>, now: map<(nat, nat), Rect>,
    left: map<(nat, nat), Rect>)
    requires Merged(open, y, done, now, left)
    ensures forall k: (nat, nat) :: k in left <==> k in open && k !in done
    ensures forall k :: k in left ==> left[k] == open[k]
    ensures now.Keys == done && forall k :: k in now ==> now[k] == Extended(open, y, k)
  {
  }

  lemma FirstSeen(runs: seq<(nat, nat)>, i: nat)
    requires i < |runs| && forall i, j :: 0 <= i < j < |runs| ==> runs[i].0 < runs[j].0
    ensures runs[i] !in runs[..i]
  {
  }

  lemma NothingOpenYet(g: DirtyGrid)
    requires GridOk(g)
    ensures OpenOk(g, 0, map[]) && ClosedOk(g, 0, [])
  {
    hide IsRun;
  }

  lemma OpenIsNotClosed(g: DirtyGrid, y: nat, open: map<(nat, nat), Rect>, closed: seq<Rect>)
    requires GridOk(g) && OpenOk(g, y, open) && ClosedOk(g, y, closed)
    ensures forall k :: k in open ==> (open[k].x, open[k].w) == k && open[k] !in closed
    ensures NoRepeats(closed)
  {
    hide IsRun;
    forall k | k in open
      ensures open[k] !in closed
    {
      assert OpenAt(g, y, open[k]);
    }
  }

  /**
   * Merge the dirty tiles into rectangles: they cover the dirty tiles exactly, no
   * two overlap, and they come in row-major order of their origins.
   */
  method Coalesce(g: DirtyGrid) returns (rects: seq<Rect>)
    requires GridOk(g)
    ensures Covers(g, rects) && Disjoint(rects) && RowMajor(rects)
    ensures forall r: Rect :: r in rects <==> Maximal(g, r)
  {
    hide IsRun, OpenOk, ClosedOk, Maximal, Covers, Disjoint, RowMajor, Sorted, NoRepeats;
    var open, closed := map[], [];
    NothingOpenYet(g);
    for y := 0 to g.rows
      invariant OpenOk(g, y, open) && ClosedOk(g, y, closed)
    {
      var now, left := MergeRow(g, y, open);
      OpenIsNotClosed(g, y, open, closed);
      var more := Drain(left, closed);
      ClosedStep(g, y, open, left, closed, more);
      open, closed := now, more;
    }
    OpenIsNotClosed(g, g.rows, open, closed);
    var all := Drain(open, closed);
    AllClosed(g, open, closed, all);
    rects := SortByOrigin(all);
    SameMembers(all, rects);
    MaximalCovers(g, rects);
    MaximalDisjoint(g, rects);
    MaximalRowMajor(g, rects);
  }

  lemma SameMembers(s: seq<Rect>, t: seq<Rect>)
    requires multiset(s) == multiset(t) && NoRepeats(s)
    ensures NoRepeats(t) && forall r: Rect :: r in t <==> r in s
  {
    forall r: Rect ensures r in t <==> r in s {
      assert r in t <==> r in multiset(t);
      assert r in s <==> r in multiset(s);
    }
  }
}
