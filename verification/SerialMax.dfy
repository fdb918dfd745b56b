/**
 * The greatest of some true numbers, kept as a wrapped 31-bit one: right as long as
 * they all lie in one half-turn, whatever order they come in.
 */
module SerialMax {
  import opened Serial

  function NewestOf(cur: Option<u32>, n: u32): Option<u32> {
    if cur.Some? && !IsNewer(n, cur.value) then cur else Some(n)
  }

  /** `o` is the wrapped maximum of the noted numbers, absent when there are none. */
  ghost predicate IsNewest(notes: seq<int>, o: Option<u32>) {
    && (o.None? <==> notes == [])
    && (o.Some? ==> exists k :: 0 <= k < |notes| && o.value == Wrap31(notes[k]) && AtLeast(notes, notes[k]))
  }

  ghost predicate AtLeast(notes: seq<int>, m: int) { forall k :: 0 <= k < |notes| ==> notes[k] <= m }

  ghost predicate InWindow(notes: seq<int>, base: int) {
    forall k :: 0 <= k < |notes| ==> base <= notes[k] < base + HALF31
  }

  /** Some noted number is greater than `n`. */
  ghost predicate NoteAbove(notes: seq<int>, n: int) { exists k :: 0 <= k < |notes| && notes[k] > n }

  /** Noting a number keeps the maximum, whatever order the numbers come in. */
  lemma NewestKept(notes: seq<int>, o: Option<u32>, n: int, base: int)
    requires IsNewest(notes, o) && InWindow(notes, base) && base <= n < base + HALF31
    ensures IsNewest(notes + [n], NewestOf(o, Wrap31(n))) && InWindow(notes + [n], base)
  {
    hide IsNewer, Wrap31;
    var now := notes + [n];
    if o.None? {
      assert now[0] == n && AtLeast(now, n);
    } else {
      var k :| 0 <= k < |notes| && o.value == Wrap31(notes[k]) && AtLeast(notes, notes[k]);
      NewerIffTrueOrder(n, notes[k]);
      assert now[k] == notes[k] && now[|notes|] == n;
      if n > notes[k] { assert AtLeast(now, now[|notes|]); } else { assert AtLeast(now, now[k]); }
    }
  }

  /** Asking whether the maximum is newer asks whether any noted number is greater. */
  lemma NewerThanNewest(notes: seq<int>, o: Option<u32>, n: int, base: int)
    requires IsNewest(notes, o) && InWindow(notes, base) && base <= n < base + HALF31
    ensures o.Some? && IsNewer(o.value, Wrap31(n)) <==> NoteAbove(notes, n)
  {
    hide IsNewer, Wrap31;
    if o.Some? {
      var k :| 0 <= k < |notes| && o.value == Wrap31(notes[k]) && AtLeast(notes, notes[k]);
      NewerIffTrueOrder(notes[k], n);
      assert notes[k] > n ==> NoteAbove(notes, n);
    }
  }
}
