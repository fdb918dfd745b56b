/**
 * The CDF 5/3 lifting transform on a 32x32 tile.
 *
 * The one-dimensional steps work in place on a buffer, as the codec does; the
 * tile transform composes them over rows and columns for three levels.
 */
module Wavelet {
  import opened Bytes

  // ------------------------------------------------------- one dimension

  /** High-pass sample `k`: odd sample minus the mean of its even neighbours. */
  function High(s: seq<int>, k: nat): int
    requires |s| % 2 == 0 && 2 * k + 1 < |s|
  {
    s[2 * k + 1] - (s[2 * k] + (if 2 * k + 2 < |s| then s[2 * k + 2] else s[2 * k])) / 2
  }

  /** Low-pass sample `k`: even sample plus a quarter of its high-pass neighbours. */
  function Low(s: seq<int>, k: nat): int
    requires |s| % 2 == 0 && 2 * k + 1 < |s|
  {
    s[2 * k] + (High(s, if k == 0 then 0 else k - 1) + High(s, k) + 2) / 4
  }

  /** The row continued past its ends by mirroring it there. */
  function Mirrored(s: seq<int>, i: int): int
    requires |s| >= 2 && -2 <= i <= |s|
  {
    var j := if i < 0 then -i else i;
    if j >= |s| then s[2 * (|s| - 1) - j] else s[j]
  }

  /**
   * The lifting steps are the five- and three-tap filters of the transform, with the row
   * mirrored at its ends: (-1, 2, 6, 2, -1) / 8 and (-1, 2, -1) / 2, up to the rounding.
   */
  lemma FilterTaps(s: seq<int>, k: nat)
    requires |s| % 2 == 0 && 2 * k + 1 < |s|
    ensures 0 <= 2 * High(s, k) - (2 * s[2 * k + 1] - s[2 * k] - Mirrored(s, 2 * k + 2)) <= 1
    ensures var taps := 6 * s[2 * k] + 2 * (Mirrored(s, 2 * k - 1) + s[2 * k + 1])
                        - Mirrored(s, 2 * k - 2) - Mirrored(s, 2 * k + 2);
            -2 <= 8 * Low(s, k) - taps <= 6
  {
    HighTaps(s, k);
    HighTaps(s, if k == 0 then 0 else k - 1);
  }

  lemma HighTaps(s: seq<int>, k: nat)
    requires |s| % 2 == 0 && 2 * k + 1 < |s|
    ensures 0 <= 2 * High(s, k) - (2 * s[2 * k + 1] - s[2 * k] - Mirrored(s, 2 * k + 2)) <= 1
  {
  }

  function RowForward(s: seq<int>): (r: seq<int>)
    requires |s| % 2 == 0
    ensures |r| == |s|
  {
    var half := |s| / 2;
    seq(|s|, i requires 0 <= i < |s| => if i < half then Low(s, i) else High(s, i - half))
  }

  /** Even sample `k` recovered from the transformed row. */
  function Even(t: seq<int>, k: nat): int
    requires |t| % 2 == 0 && 2 * k + 1 < |t|
  {
    var half := |t| / 2;
    t[k] - (t[half + (if k == 0 then 0 else k - 1)] + t[half + k] + 2) / 4
  }

  function Odd(t: seq<int>, k: nat): int
    requires |t| % 2 == 0 && 2 * k + 1 < |t|
  {
    t[|t| / 2 + k] + (Even(t, k) + (if 2 * k + 2 < |t| then Even(t, k + 1) else Even(t, k))) / 2
  }

  function RowInverse(t: seq<int>): (r: seq<int>)
    requires |t| % 2 == 0
    ensures |r| == |t|
  {
    seq(|t|, i requires 0 <= i < |t| => if i % 2 == 0 then Even(t, i / 2) else Odd(t, i / 2))
  }

  lemma EvenOfForward(s: seq<int>, k: nat)
    requires |s| % 2 == 0 && 2 * k + 1 < |s|
    ensures Even(RowForward(s), k) == s[2 * k]
  {
    var t, half := RowForward(s), |s| / 2;
    var l := if k == 0 then 0 else k - 1;
    assert t[k] == Low(s, k) && t[half + l] == High(s, l) && t[half + k] == High(s, k);
  }

  lemma OddOfForward(s: seq<int>, k: nat)
    requires |s| % 2 == 0 && 2 * k + 1 < |s|
    ensures Odd(RowForward(s), k) == s[2 * k + 1]
  {
    var t, half := RowForward(s), |s| / 2;
    assert t[half + k] == High(s, k);
    EvenOfForward(s, k);
    if 2 * k + 2 < |s| { EvenOfForward(s, k + 1); }
  }

  /** Lifting is lossless on every even-length row, whatever its values. */
  lemma RowRoundTrip(s: seq<int>)
    requires |s| % 2 == 0
    ensures RowInverse(RowForward(s)) == s
  {
    var t := RowForward(s);
    forall i | 0 <= i < |s|
      ensures RowInverse(t)[i] == s[i]
    {
      SampleRoundTrip(s, t, i);
    }
  }

  lemma SampleRoundTrip(s: seq<int>, t: seq<int>, i: nat)
    requires |s| % 2 == 0 && i < |s| && t == RowForward(s)
    ensures RowInverse(t)[i] == s[i]
  {
    var k := i / 2;
    if i % 2 == 0 {
      assert i == 2 * k;
      EvenOfForward(s, k);
    } else {
      assert i == 2 * k + 1;
      OddOfForward(s, k);
    }
  }

  /** Sample `j` once the odd samples below `upto` are high-pass. */
  function Predicted(s: seq<int>, upto: nat, j: nat): int
    requires |s| % 2 == 0 && j < |s|
  {
    if j % 2 == 1 && j < upto then High(s, j / 2) else s[j]
  }

  /** Sample `j` once every odd sample is high-pass and the even ones below `upto` low-pass. */
  function Updated(s: seq<int>, upto: nat, j: nat): int
    requires |s| % 2 == 0 && j < |s|
  {
    if j % 2 == 1 then High(s, j / 2) else if j < upto then Low(s, j / 2) else s[j]
  }

  /** `buf` holds `s` with the odd samples below `upto` predicted. */
  ghost predicate PredictedTo(buf: array<int>, s: seq<int>, upto: nat)
    requires |s| % 2 == 0 && |s| <= buf.Length
    reads buf
  {
    forall j :: 0 <= j < |s| ==> buf[j] == Predicted(s, upto, j)
  }

  ghost predicate UpdatedTo(buf: array<int>, s: seq<int>, upto: nat)
    requires |s| % 2 == 0 && |s| <= buf.Length
    reads buf
  {
    forall j :: 0 <= j < |s| ==> buf[j] == Updated(s, upto, j)
  }

  /** Predicting odd sample `i` from what the buffer holds moves the reference on by one. */
  lemma PredictStep(s: seq<int>, i: nat)
    requires |s| % 2 == 0 && i % 2 == 1 && i < |s|
    ensures var left := Predicted(s, i, i - 1);
            var right := if i + 1 < |s| then Predicted(s, i, i + 1) else Predicted(s, i, i - 1);
            forall j :: 0 <= j < |s| ==>
              Predicted(s, i + 2, j) == if j == i then Predicted(s, i, i) - (left + right) / 2 else Predicted(s, i, j)
  {
    assert i == 2 * (i / 2) + 1;
  }

  lemma PredictedEnds(s: seq<int>, upto: nat)
    requires |s| % 2 == 0
    ensures forall j :: 0 <= j < |s| ==> Predicted(s, 1, j) == s[j]
    ensures |s| <= upto ==> forall j :: 0 <= j < |s| ==> Updated(s, 0, j) == Predicted(s, upto, j)
  {
  }

  lemma UpdateStep(s: seq<int>, i: nat)
    requires |s| % 2 == 0 && i % 2 == 0 && i < |s|
    ensures var left, right := (if i == 0 then Updated(s, i, 1) else Updated(s, i, i - 1)), Updated(s, i, i + 1);
            forall j :: 0 <= j < |s| ==>
              Updated(s, i + 2, j) == if j == i then Updated(s, i, i) + (left + right + 2) / 4 else Updated(s, i, j)
  {
    assert i == 2 * (i / 2);
  }

  method PredictInPlace(buf: array<int>, n: nat)
    requires n % 2 == 0 && n <= buf.Length
    modifies buf
    ensures UpdatedTo(buf, old(buf[..n]), 0)
    ensures buf[n..] == old(buf[n..])
  {
    hide Predicted, Updated;
    ghost var s := buf[..n];
    PredictedEnds(s, 1);
    var i := 1;
    while i < n
      invariant i % 2 == 1 && i <= n + 1
      invariant PredictedTo(buf, s, i)
      invariant buf[n..] == old(buf[n..])
    {
      var left := buf[i - 1];
      var right := if i + 1 < n then buf[i + 1] else buf[i - 1];
      PredictStep(s, i);
      buf[i] := buf[i] - (left + right) / 2;
      i := i + 2;
    }
    PredictedEnds(s, i);
  }

  method UpdateInPlace(buf: array<int>, n: nat, ghost s: seq<int>)
    requires n % 2 == 0 && n <= buf.Length && |s| == n && UpdatedTo(buf, s, 0)
    modifies buf
    ensures UpdatedTo(buf, s, n)
    ensures buf[n..] == old(buf[n..])
  {
    hide Updated;
    var i := 0;
    while i < n
      invariant i % 2 == 0 && i <= n
      invariant UpdatedTo(buf, s, i)
      invariant buf[n..] == old(buf[n..])
    {
      var left := if i == 0 then buf[1] else buf[i - 1];
      var right := buf[i + 1]; // `n` is even, so an even sample never needs the mirror here
      UpdateStep(s, i);
      buf[i] := buf[i] + (left + right + 2) / 4;
      i := i + 2;
    }
  }

  /** Forward lifting of the first `n` samples, in place: predict, update, deinterleave. */
  method RowForwardInPlace(buf: array<int>, n: nat)
    requires n % 2 == 0 && n <= buf.Length
    modifies buf
    ensures buf[..n] == RowForward(old(buf[..n]))
    ensures buf[n..] == old(buf[n..])
  {
    ghost var s := buf[..n];
    PredictInPlace(buf, n);
    UpdateInPlace(buf, n, s);
    Deinterleave(buf, n, s);
  }

  /** Low-pass samples to the front, high-pass to the back. */
  method Deinterleave(buf: array<int>, n: nat, ghost s: seq<int>)
    requires n % 2 == 0 && n <= buf.Length && |s| == n && UpdatedTo(buf, s, n)
    modifies buf
    ensures buf[..n] == RowForward(s)
    ensures buf[n..] == old(buf[n..])
  {
    hide Updated, RowForward;
    var half := n / 2;
    var lifted := buf[..n];
    forall j | 0 <= j < n { buf[j] := lifted[if j < half then 2 * j else 2 * (j - half) + 1]; }
    forall j | 0 <= j < n
      ensures buf[j] == RowForward(s)[j]
    {
      Deinterleaved(s, j);
    }
  }

  /** Where the deinterleaved sample `j` comes from. */
  lemma Deinterleaved(s: seq<int>, j: nat)
    requires |s| % 2 == 0 && j < |s|
    ensures var i := if j < |s| / 2 then 2 * j else 2 * (j - |s| / 2) + 1;
            i < |s| && RowForward(s)[j] == Updated(s, |s|, i)
  {
    hide Low, High;
  }

  /** Sample `j` once the even samples below `upto` have lost their update. */
  function Unupdated(t: seq<int>, upto: nat, j: nat): int
    requires |t| % 2 == 0 && j < |t|
  {
    if j % 2 == 1 then t[|t| / 2 + j / 2] else if j < upto then Even(t, j / 2) else t[j / 2]
  }

  /** Sample `j` once every even sample is recovered and the odd ones below `upto`. */
  function Unpredicted(t: seq<int>, upto: nat, j: nat): int
    requires |t| % 2 == 0 && j < |t|
  {
    if j % 2 == 0 then Even(t, j / 2) else if j < upto then Odd(t, j / 2) else t[|t| / 2 + j / 2]
  }

  ghost predicate UnupdatedTo(buf: array<int>, t: seq<int>, upto: nat)
    requires |t| % 2 == 0 && |t| <= buf.Length
    reads buf
  {
    forall j :: 0 <= j < |t| ==> buf[j] == Unupdated(t, upto, j)
  }

  ghost predicate UnpredictedTo(buf: array<int>, t: seq<int>, upto: nat)
    requires |t| % 2 == 0 && |t| <= buf.Length
    reads buf
  {
    forall j :: 0 <= j < |t| ==> buf[j] == Unpredicted(t, upto, j)
  }

  lemma UndoUpdateStep(t: seq<int>, i: nat)
    requires |t| % 2 == 0 && i % 2 == 0 && i < |t|
    ensures var left, right := (if i == 0 then Unupdated(t, i, 1) else Unupdated(t, i, i - 1)), Unupdated(t, i, i + 1);
            forall j :: 0 <= j < |t| ==>
              Unupdated(t, i + 2, j) == if j == i then Unupdated(t, i, i) - (left + right + 2) / 4
                else Unupdated(t, i, j)
  {
    assert i == 2 * (i / 2);
  }

  lemma UnupdatedEnds(t: seq<int>)
    requires |t| % 2 == 0
    ensures forall j :: 0 <= j < |t| ==> Unpredicted(t, 0, j) == Unupdated(t, |t|, j)
    ensures forall j :: 0 <= j < |t| ==> Unpredicted(t, 1, j) == Unpredicted(t, 0, j)
    ensures forall j :: 0 <= j < |t| ==> Unpredicted(t, |t| + 1, j) == Unpredicted(t, |t|, j)
  {
  }

  lemma UndoPredictStep(t: seq<int>, i: nat)
    requires |t| % 2 == 0 && i % 2 == 1 && i < |t|
    ensures var left := Unpredicted(t, i, i - 1);
            var right := if i + 1 < |t| then Unpredicted(t, i, i + 1) else Unpredicted(t, i, i - 1);
            forall j :: 0 <= j < |t| ==>
              Unpredicted(t, i + 2, j) == if j == i then Unpredicted(t, i, i) + (left + right) / 2
                else Unpredicted(t, i, j)
  {
    assert i == 2 * (i / 2) + 1;
  }

  method UndoUpdateInPlace(buf: array<int>, n: nat, ghost t: seq<int>)
    requires n % 2 == 0 && n <= buf.Length && |t| == n && UnupdatedTo(buf, t, 0)
    modifies buf
    ensures UnpredictedTo(buf, t, 0)
    ensures buf[n..] == old(buf[n..])
  {
    hide Unupdated, Unpredicted;
    UnupdatedEnds(t);
    var i := 0;
    while i < n
      invariant i % 2 == 0 && i <= n
      invariant UnupdatedTo(buf, t, i)
      invariant buf[n..] == old(buf[n..])
    {
      var left := if i == 0 then buf[1] else buf[i - 1];
      var right := buf[i + 1]; // `n` is even, so an even sample never needs the mirror here
      UndoUpdateStep(t, i);
      buf[i] := buf[i] - (left + right + 2) / 4;
      i := i + 2;
    }
  }

  method UndoPredictInPlace(buf: array<int>, n: nat, ghost t: seq<int>)
    requires n % 2 == 0 && n <= buf.Length && |t| == n && UnpredictedTo(buf, t, 0)
    modifies buf
    ensures UnpredictedTo(buf, t, n)
    ensures buf[n..] == old(buf[n..])
  {
    hide Unpredicted;
    UnupdatedEnds(t);
    var i := 1;
    while i < n
      invariant i % 2 == 1 && i <= n + 1
      invariant UnpredictedTo(buf, t, i)
      invariant buf[n..] == old(buf[n..])
    {
      var left := buf[i - 1];
      var right := if i + 1 < n then buf[i + 1] else buf[i - 1];
      UndoPredictStep(t, i);
      buf[i] := buf[i] + (left + right) / 2;
      i := i + 2;
    }
  }

  /** Inverse lifting of the first `n` samples, in place: interleave, undo update, undo predict. */
  method RowInverseInPlace(buf: array<int>, n: nat)
    requires n % 2 == 0 && n <= buf.Length
    modifies buf
    ensures buf[..n] == RowInverse(old(buf[..n]))
    ensures buf[n..] == old(buf[n..])
  {
    var half := n / 2;
    var t := buf[..n];
    forall j | 0 <= j < n { buf[j] := t[if j % 2 == 0 then j / 2 else half + j / 2]; }
    UndoUpdateInPlace(buf, n, t);
    UndoPredictInPlace(buf, n, t);
  }

  /** With samples within `r` of `c`: high-pass within 2r of 0, low-pass within 3r/2 + 1 of `c`. */
  lemma LiftBounds(s: seq<int>, c: int, r: nat, k: nat)
    requires |s| % 2 == 0 && 2 * k + 1 < |s|
    requires forall i :: 0 <= i < |s| ==> c - r <= s[i] <= c + r
    ensures -2 * r <= High(s, k) <= 2 * r
    ensures -3 * r - 2 <= 2 * (Low(s, k) - c) <= 3 * r + 2
  {
  }

}
