/**
 * The window of received sources by true number, and exactly when a group with
 * several sources absent may still be rebuilt by what arrives later.
 *
 * A source is rebuilt only while it is newer than everything the window has
 * evicted, and every arrival may evict: so a group can run out of room as well as
 * out of sources.
 */
module ParityWindow {
  import opened Serial

  /** Held numbers, oldest insertion first, and the greatest number evicted. */
  datatype Window = Window(order: seq<int>, maxEvicted: Option<int>)

  predicate Distinct(order: seq<int>) { forall i, j :: 0 <= i < j < |order| ==> order[i] != order[j] }

  function Evict(w: Window): Window
    requires w.order != []
  {
    var oldest := w.order[0];
    Window(w.order[1..], if w.maxEvicted.Some? && oldest <= w.maxEvicted.value then w.maxEvicted else Some(oldest))
  }

  function Trim(w: Window, capacity: nat): Window
    decreases |w.order|
  {
    if |w.order| <= capacity then w else Trim(Evict(w), capacity)
  }

  /** A source arrives. */
  function Recorded(w: Window, n: int, capacity: nat): Window {
    if n in w.order then w else Trim(w.(order := w.order + [n]), capacity)
  }

  function RecordedAll(w: Window, ns: seq<int>, capacity: nat): Window
    decreases |ns|
  {
    if ns == [] then w else RecordedAll(Recorded(w, ns[0], capacity), ns[1..], capacity)
  }

  // ------------------------------------------------------------- one group

  predicate InGroup(f: int, k: nat, n: int) { f <= n < f + k }

  predicate Above(w: Window, m: int) { w.maxEvicted.Some? ==> m > w.maxEvicted.value }

  /** `m` is the one source of the group the window lacks, and newer than all it has evicted. */
  ghost predicate OneAbsent(w: Window, f: int, k: nat, m: int) {
    InGroup(f, k, m) && m !in w.order && Above(w, m) && forall i :: InGroup(f, k, i) && i != m ==> i in w.order
  }

  ghost predicate Rebuildable(w: Window, f: int, k: nat) { exists m :: OneAbsent(w, f, k, m) }

  /** How many of the group's sources the window lacks. */
  function AbsentCount(order: seq<int>, f: int, k: nat): nat {
    if k == 0 then 0 else AbsentCount(order, f, k - 1) + if f + k - 1 in order then 0 else 1
  }

  /** How many sources of other groups leave before one that is not older than `m`. */
  function Movable(order: seq<int>, f: int, k: nat, m: int): nat {
    if order == [] || order[0] >= m then 0
    else Movable(order[1..], f, k, m) + if InGroup(f, k, order[0]) then 0 else 1
  }

  /** Absent source `m` outlives the evictions it takes to hold all the others at once. */
  predicate Room(w: Window, f: int, k: nat, capacity: nat, m: int) {
    && InGroup(f, k, m) && m !in w.order && Above(w, m)
    && |w.order| - Movable(w.order, f, k, m) + AbsentCount(w.order, f, k) - 1 <= capacity
  }

  ghost predicate MayYetBeRebuilt(w: Window, f: int, k: nat, capacity: nat) { exists m :: Room(w, f, k, capacity, m) }

  // --------------------------------------------------------------- counting

  lemma {:induction false} AbsentAppend(order: seq<int>, x: int, f: int, k: nat)
    requires x !in order
    ensures AbsentCount(order + [x], f, k) == AbsentCount(order, f, k) - if InGroup(f, k, x) then 1 else 0
  {
    if k == 0 {
    } else {
      AbsentAppend(order, x, f, k - 1);
    }
  }

  lemma {:induction false} AbsentDrop(order: seq<int>, f: int, k: nat)
    requires order != [] && Distinct(order)
    ensures AbsentCount(order[1..], f, k) == AbsentCount(order, f, k) + if InGroup(f, k, order[0]) then 1 else 0
  {
    if k == 0 {
    } else {
      AbsentDrop(order, f, k - 1);
      var n := f + k - 1;
      assert order == [order[0]] + order[1..];
      assert order[0] !in order[1..];
      assert n in order <==> n == order[0] || n in order[1..];
    }
  }

  lemma {:induction false} AbsentIs(order: seq<int>, f: int, k: nat, m: int)
    requires InGroup(f, k, m) && m !in order
    ensures AbsentCount(order, f, k) >= 1
    ensures AbsentCount(order, f, k) == 1 <==> forall i :: InGroup(f, k, i) && i != m ==> i in order
  {
    if m == f + k - 1 {
      NoneAbsent(order, f, k - 1);
    } else {
      AbsentIs(order, f, k - 1, m);
      assert InGroup(f, k, f + k - 1);
    }
  }

  lemma {:induction false} NoneAbsent(order: seq<int>, f: int, k: nat)
    ensures AbsentCount(order, f, k) == 0 <==> forall i :: InGroup(f, k, i) ==> i in order
  {
    if k == 0 {
    } else {
      NoneAbsent(order, f, k - 1);
      assert InGroup(f, k, f + k - 1);
    }
  }

  /** With two or more absent there is one beside `m`. */
  lemma AnotherAbsent(order: seq<int>, f: int, k: nat, m: int) returns (x: int)
    requires InGroup(f, k, m) && m !in order && AbsentCount(order, f, k) > 1
    ensures InGroup(f, k, x) && x != m && x !in order
  {
    AbsentIs(order, f, k, m);
    x :| InGroup(f, k, x) && x != m && x !in order;
  }

  lemma {:induction false} MovableAppend(order: seq<int>, x: int, f: int, k: nat, m: int)
    ensures Movable(order, f, k, m) <= Movable(order + [x], f, k, m)
    ensures Movable(order + [x], f, k, m) <= Movable(order, f, k, m) + if InGroup(f, k, x) then 0 else 1
  {
    if order == [] {
      assert (order + [x])[1..] == [];
    } else {
      MovableAppend(order[1..], x, f, k, m);
      assert (order + [x])[1..] == order[1..] + [x];
    }
  }

  // -------------------------------------------------------- room, backwards

  /** The window after an arrival it did not hold. */
  lemma RecordedIs(w: Window, n: int, capacity: nat)
    requires Distinct(w.order) && |w.order| <= capacity && n !in w.order
    ensures var grown := w.(order := w.order + [n]); var r := Recorded(w, n, capacity);
            && Distinct(grown.order) && Distinct(r.order) && |r.order| <= capacity
            && r == if |w.order| < capacity then grown else Evict(grown)
  {
    var grown := w.(order := w.order + [n]);
    assert |w.order| == capacity ==> Trim(grown, capacity) == Trim(Evict(grown), capacity) == Evict(grown);
  }

  /** An arrival never makes room: what there is room for after it there was room for before. */
  lemma RoomBefore(w: Window, n: int, f: int, k: nat, capacity: nat, m: int)
    requires Distinct(w.order) && |w.order| <= capacity && Room(Recorded(w, n, capacity), f, k, capacity, m)
    ensures Room(w, f, k, capacity, m)
  {
    if n !in w.order {
      RecordedIs(w, n, capacity);
      hide Recorded, Distinct;
      var grown := w.order + [n];
      AbsentAppend(w.order, n, f, k);
      MovableAppend(w.order, n, f, k, m);
      if |w.order| == capacity {
        AbsentDrop(grown, f, k);
        assert grown == [grown[0]] + grown[1..];
        assert m > grown[0];
        assert m in w.order ==> m in grown;
      }
    }
  }

  lemma {:induction false} RoomBeforeAll(w: Window, ns: seq<int>, f: int, k: nat, capacity: nat, m: int)
    requires Distinct(w.order) && |w.order| <= capacity && Room(RecordedAll(w, ns, capacity), f, k, capacity, m)
    ensures Room(w, f, k, capacity, m)
    decreases |ns|
  {
    hide Room, Recorded;
    if ns == [] {
    } else {
      RecordedKeeps(w, ns[0], capacity);
      RoomBeforeAll(Recorded(w, ns[0], capacity), ns[1..], f, k, capacity, m);
      RoomBefore(w, ns[0], f, k, capacity, m);
    }
  }

  lemma RecordedKeeps(w: Window, n: int, capacity: nat)
    requires Distinct(w.order) && |w.order| <= capacity
    ensures Distinct(Recorded(w, n, capacity).order) && |Recorded(w, n, capacity).order| <= capacity
  {
    if n !in w.order { RecordedIs(w, n, capacity); }
  }

  lemma RebuildableHasRoom(w: Window, f: int, k: nat, capacity: nat, m: int)
    requires |w.order| <= capacity && OneAbsent(w, f, k, m)
    ensures Room(w, f, k, capacity, m)
  {
    AbsentIs(w.order, f, k, m);
  }

  // --------------------------------------------------------- room, forwards

  /** How many sources of the group lead the window. */
  function Lead(order: seq<int>, f: int, k: nat): nat {
    if order == [] || !InGroup(f, k, order[0]) then 0 else 1 + Lead(order[1..], f, k)
  }

  lemma {:induction false} LeadShrinks(order: seq<int>, x: int, f: int, k: nat, m: int)
    requires Movable(order, f, k, m) > 0
    ensures Lead(order + [x], f, k) == Lead(order, f, k)
  {
    if InGroup(f, k, order[0]) {
      LeadShrinks(order[1..], x, f, k, m);
      assert (order + [x])[1..] == order[1..] + [x];
    } else {
      assert (order + [x])[0] == order[0];
    }
  }

  /** The next absent source arrives: the room is kept, and the group is nearer to one absent. */
  lemma RoomAfter(w: Window, x: int, f: int, k: nat, capacity: nat, m: int)
    requires Distinct(w.order) && |w.order| <= capacity && Room(w, f, k, capacity, m)
    requires InGroup(f, k, x) && x != m && x !in w.order && AbsentCount(w.order, f, k) > 1
    ensures var r := Recorded(w, x, capacity);
            && Room(r, f, k, capacity, m)
            && (AbsentCount(r.order, f, k) < AbsentCount(w.order, f, k)
                || (AbsentCount(r.order, f, k) == AbsentCount(w.order, f, k)
                  && Lead(r.order, f, k) < Lead(w.order, f, k)))
  {
    RecordedIs(w, x, capacity);
    hide Recorded, Distinct;
    var grown := w.order + [x];
    AbsentAppend(w.order, x, f, k);
    MovableAppend(w.order, x, f, k, m);
    if |w.order| == capacity {
      AbsentDrop(grown, f, k);
      LeadShrinks(w.order, x, f, k, m);
      assert grown[0] == w.order[0] && grown == [grown[0]] + grown[1..];
    }
  }

  /** What must arrive for the group to be rebuilt. */
  lemma {:induction false} RoomGives(w: Window, f: int, k: nat, capacity: nat, m: int) returns (ns: seq<int>)
    requires Distinct(w.order) && |w.order| <= capacity && Room(w, f, k, capacity, m)
    ensures OneAbsent(RecordedAll(w, ns, capacity), f, k, m)
    ensures forall i :: 0 <= i < |ns| ==> InGroup(f, k, ns[i])
    decreases AbsentCount(w.order, f, k), Lead(w.order, f, k)
  {
    hide Recorded;
    AbsentIs(w.order, f, k, m);
    if AbsentCount(w.order, f, k) == 1 {
      ns := [];
    } else {
      var x := AnotherAbsent(w.order, f, k, m);
      RoomAfter(w, x, f, k, capacity, m);
      RecordedKeeps(w, x, capacity);
      var rest := RoomGives(Recorded(w, x, capacity), f, k, capacity, m);
      ns := [x] + rest;
      assert ns[1..] == rest;
    }
  }

  /**
   * Some later arrivals let the group's absent source be rebuilt if and only if
   * some absent source has room: what the window holds and has evicted decides.
   */
  lemma RebuiltLaterIff(w: Window, f: int, k: nat, capacity: nat)
    requires Distinct(w.order) && |w.order| <= capacity
    ensures (exists ns :: Rebuildable(RecordedAll(w, ns, capacity), f, k)) <==> MayYetBeRebuilt(w, f, k, capacity)
  {
    hide RecordedAll, Room, OneAbsent;
    if ns :| Rebuildable(RecordedAll(w, ns, capacity), f, k) {
      var after := RecordedAll(w, ns, capacity);
      var m :| OneAbsent(after, f, k, m);
      StaysBounded(w, ns, capacity);
      RebuildableHasRoom(after, f, k, capacity, m);
      RoomBeforeAll(w, ns, f, k, capacity, m);
    }
    if m :| Room(w, f, k, capacity, m) {
      var ns := RoomGives(w, f, k, capacity, m);
      assert Rebuildable(RecordedAll(w, ns, capacity), f, k);
    }
  }

  lemma {:induction false} StaysBounded(w: Window, ns: seq<int>, capacity: nat)
    requires Distinct(w.order) && |w.order| <= capacity
    ensures Distinct(RecordedAll(w, ns, capacity).order) && |RecordedAll(w, ns, capacity).order| <= capacity
    decreases |ns|
  {
    hide Recorded;
    if ns == [] {
    } else {
      RecordedKeeps(w, ns[0], capacity);
      StaysBounded(Recorded(w, ns[0], capacity), ns[1..], capacity);
    }
  }

  /** A group wholly at or below what was evicted is past rebuilding, whatever arrives. */
  lemma EvictedIsPast(w: Window, f: int, k: nat, capacity: nat)
    requires Distinct(w.order) && |w.order| <= capacity && w.maxEvicted.Some? && f + k - 1 <= w.maxEvicted.value
    ensures forall ns :: !Rebuildable(RecordedAll(w, ns, capacity), f, k)
  {
    hide RecordedAll, Rebuildable;
    RebuiltLaterIff(w, f, k, capacity);
    assert !MayYetBeRebuilt(w, f, k, capacity);
  }
}
