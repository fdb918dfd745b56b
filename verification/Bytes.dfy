/** Bytes as integers, with the bit operations the codecs use. */
module Bytes {

  type byte = b: int | 0 <= b < 256

  function Pow2(n: nat): (r: nat)
    ensures r > 0
  {
    if n == 0 then 1 else 2 * Pow2(n - 1)
  }

  /** `m >> j`. */
  function Shift(m: nat, j: nat): nat {
    if j == 0 then m else Shift(m, j - 1) / 2
  }

  /** `(m >> j) & 1 != 0`. */
  predicate BitAt(m: nat, j: nat) { Shift(m, j) % 2 == 1 }

  lemma {:induction false} ShiftHalf(m: nat, j: nat)
    ensures Shift(m, j + 1) == Shift(m / 2, j)
  {
    if j == 0 {
    } else {
      ShiftHalf(m, j - 1);
    }
  }

  lemma {:induction false} ShiftZero(j: nat)
    ensures Shift(0, j) == 0
  {
    if j == 0 {
    } else {
      ShiftZero(j - 1);
    }
  }

  lemma {:induction false} ShiftBound(m: nat, j: nat)
    ensures Shift(m, j) * Pow2(j) <= m
  {
    if j == 0 {
    } else {
      ShiftBound(m, j - 1);
      HalfTimesTwice(Shift(m, j - 1), Pow2(j - 1));
    }
  }

  lemma HalfTimesTwice(q: nat, w: nat)
    ensures q / 2 * (2 * w) <= q * w
  {
    var h, r := q / 2, q % 2;
    assert q * w == h * (2 * w) + r * w;
  }

  /** The number whose bit `j` is `bits[j]`. */
  function PackBits(bits: seq<bool>): (m: nat)
    ensures m < Pow2(|bits|)
  {
    if bits == [] then 0 else 2 * PackBits(bits[1..]) + if bits[0] then 1 else 0
  }

  lemma {:induction false} PackedBit(bits: seq<bool>, j: nat)
    requires j < |bits|
    ensures BitAt(PackBits(bits), j) <==> bits[j]
  {
    if j == 0 {
    } else {
      PackedBit(bits[1..], j - 1);
      ShiftHalf(PackBits(bits), j - 1);
    }
  }

  /** Big-endian fields. */
  function Be16(b: seq<byte>, at: nat): (r: nat)
    requires at + 2 <= |b|
    ensures r < 0x1_0000
  {
    (b[at] as int) * 256 + b[at + 1] as int
  }

  function PutBe16(v: nat): (r: seq<byte>)
    requires v < 0x1_0000
    ensures |r| == 2 && Be16(r, 0) == v
  {
    [v / 256, v % 256]
  }

  function Be32(b: seq<byte>, at: nat): (r: nat)
    requires at + 4 <= |b|
    ensures r < 0x1_0000_0000
  {
    (b[at] as int) * 0x100_0000 + (b[at + 1] as int) * 0x1_0000 + (b[at + 2] as int) * 0x100 + b[at + 3] as int
  }

  function PutBe32(v: nat): (r: seq<byte>)
    requires v < 0x1_0000_0000
    ensures |r| == 4 && Be32(r, 0) == v
  {
    var w := v / 0x100;
    var x := w / 0x100;
    [x / 0x100, x % 0x100, w % 0x100, v % 0x100]
  }

  // ------------------------------------------------------------- sequences

  lemma SliceOfSlice<T>(s: seq<T>, a: nat, b: nat, c: nat, d: nat)
    requires a <= b <= |s| && c <= d <= b - a
    ensures s[a..b][c..d] == s[a + c..a + d]
  {
    var l, r := s[a..b][c..d], s[a + c..a + d];
    forall i | 0 <= i < |l| ensures l[i] == r[i] { assert l[i] == s[a..b][c + i]; }
  }

  lemma SliceOfTail<T>(s: seq<T>, a: nat, c: nat, d: nat)
    requires a + c <= a + d <= |s|
    ensures s[a..][c..d] == s[a + c..a + d] && s[a..][c..] == s[a + c..]
  {
    assert s[a..] == s[a..|s|];
    SliceOfSlice(s, a, |s|, c, d);
    SliceOfSlice(s, a, |s|, c, |s| - a);
    assert s[a..][c..] == s[a..][c..|s| - a] && s[a + c..] == s[a + c..|s|];
  }

  /** What follows `at` is `x` and then `rest`. */
  lemma Continues<T>(s: seq<T>, at: nat, x: seq<T>, rest: seq<T>)
    requires at <= |s| && s[at..] == x + rest
    ensures at + |x| <= |s| && s[at..at + |x|] == x && s[at + |x|..] == rest
  {
    assert |s| == at + |x| + |rest| by { assert |s[at..]| == |x + rest|; }
    forall i | 0 <= i < |x| ensures s[at + i] == x[i] { assert s[at..][i] == (x + rest)[i]; }
    forall i | 0 <= i < |rest|
      ensures s[at + |x| + i] == rest[i]
    {
      assert s[at..][|x| + i] == (x + rest)[|x| + i];
    }
  }

  lemma Be16At(s: seq<byte>, at: nat, v: nat)
    requires v < 0x1_0000 && at + 2 <= |s| && s[at..at + 2] == PutBe16(v)
    ensures Be16(s, at) == v
  {
    assert s[at] == s[at..at + 2][0] && s[at + 1] == s[at..at + 2][1];
  }
}
