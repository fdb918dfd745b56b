/**
 * The CDF 5/3 tile codec end to end: three two-dimensional lifting levels, the
 * coefficient layout, the 14 bit-planes and back to pixels.
 */
module TileCodec {
  import opened Bytes
  import opened BitPlanes
  import opened Wavelet

  /** A 32x32 working buffer, row by row. */
  type Grid = g: seq<seq<int>> | |g| == 32 && forall y :: 0 <= y < 32 ==> |g[y]| == 32
    witness seq(32, _ => seq(32, _ => 0))

  function Lift(s: seq<int>, forward: bool): (r: seq<int>)
    requires |s| % 2 == 0
    ensures |r| == |s|
  {
    if forward then RowForward(s) else RowInverse(s)
  }

  function LiftedRow(row: seq<int>, n: nat, forward: bool): (r: seq<int>)
    requires n % 2 == 0 && n <= |row|
    ensures |r| == |row|
  {
    Lift(row[..n], forward) + row[n..]
  }

  /** Lift the first `n` samples of the first `n` rows. */
  function Rows(w: Grid, n: nat, forward: bool): Grid
    requires n % 2 == 0 && n <= 32
  {
    seq(32, y requires 0 <= y < 32 => if y < n then LiftedRow(w[y], n, forward) else w[y])
  }

  function Transpose(w: Grid): Grid {
    seq(32, x requires 0 <= x < 32 => seq(32, y requires 0 <= y < 32 => w[y][x]))
  }

  function Columns(w: Grid, n: nat, forward: bool): Grid
    requires n % 2 == 0 && n <= 32
  {
    Transpose(Rows(Transpose(w), n, forward))
  }

  function Analyse(w: Grid, n: nat): Grid
    requires n % 2 == 0 && n <= 32
  {
    Columns(Rows(w, n, true), n, true)
  }

  function Synthesise(w: Grid, n: nat): Grid
    requires n % 2 == 0 && n <= 32
  {
    Rows(Columns(w, n, false), n, false)
  }

  lemma RowsUndone(w: Grid, n: nat)
    requires n % 2 == 0 && n <= 32
    ensures Rows(Rows(w, n, true), n, false) == w
  {
    forall y | 0 <= y < n
      ensures LiftedRow(LiftedRow(w[y], n, true), n, false) == w[y]
    {
      RowRoundTrip(w[y][..n]);
      assert LiftedRow(w[y], n, true)[..n] == RowForward(w[y][..n]);
      assert LiftedRow(w[y], n, true)[n..] == w[y][n..];
    }
  }

  lemma TransposeTwice(w: Grid)
    ensures Transpose(Transpose(w)) == w
  {
    forall y | 0 <= y < 32
      ensures Transpose(Transpose(w))[y] == w[y]
    {
      forall x | 0 <= x < 32 ensures Transpose(Transpose(w))[y][x] == w[y][x] {}
    }
  }

  lemma LevelUndone(w: Grid, n: nat)
    requires n % 2 == 0 && n <= 32
    ensures Synthesise(Analyse(w, n), n) == w
  {
    var rows := Rows(w, n, true);
    TransposeTwice(Rows(Transpose(rows), n, true));
    RowsUndone(Transpose(rows), n);
    TransposeTwice(rows);
    RowsUndone(w, n);
  }

  function Forward3(w: Grid): Grid { Analyse(Analyse(Analyse(w, 32), 16), 8) }

  function Inverse3(w: Grid): Grid { Synthesise(Synthesise(Synthesise(w, 8), 16), 32) }

  lemma Inverse3UndoesForward3(w: Grid)
    ensures Inverse3(Forward3(w)) == w
  {
    var a := Analyse(w, 32);
    LevelUndone(Analyse(a, 16), 8);
    LevelUndone(a, 16);
    LevelUndone(w, 32);
  }

  // ------------------------------------------------------ coefficient layout

  /** Index of grid cell `(y, x)` in a channel: LL3 HL3 LH3 HH3, HL2 LH2 HH2, HL1 LH1 HH1. */
  function Slot(y: nat, x: nat): (i: nat)
    requires y < 32 && x < 32
    ensures i < 1024
  {
    if y < 4 && x < 4 then 4 * y + x
    else if y < 4 && x < 8 then 16 + 4 * y + (x - 4)
    else if y < 8 && x < 4 then 32 + 4 * (y - 4) + x
    else if y < 8 && x < 8 then 48 + 4 * (y - 4) + (x - 4)
    else if y < 8 && x < 16 then 64 + 8 * y + (x - 8)
    else if y < 16 && x < 8 then 128 + 8 * (y - 8) + x
    else if y < 16 && x < 16 then 192 + 8 * (y - 8) + (x - 8)
    else if y < 16 then 256 + 16 * y + (x - 16)
    else if x < 16 then 512 + 16 * (y - 16) + x
    else 768 + 16 * (y - 16) + (x - 16)
  }

  /** The grid cell stored at index `i`. */
  function Cell(i: nat): (c: (nat, nat))
    requires i < 1024
    ensures c.0 < 32 && c.1 < 32
  {
    if i < 16 then (i / 4, i % 4)
    else if i < 32 then ((i - 16) / 4, 4 + i % 4)
    else if i < 48 then (4 + (i - 32) / 4, i % 4)
    else if i < 64 then (4 + (i - 48) / 4, 4 + i % 4)
    else if i < 128 then ((i - 64) / 8, 8 + i % 8)
    else if i < 192 then (8 + (i - 128) / 8, i % 8)
    else if i < 256 then (8 + (i - 192) / 8, 8 + i % 8)
    else if i < 512 then ((i - 256) / 16, 16 + i % 16)
    else if i < 768 then (16 + (i - 512) / 16, i % 16)
    else (16 + (i - 768) / 16, 16 + i % 16)
  }

  lemma Split4(b: nat, r: nat, c: nat)
    requires c < 4
    ensures (4 * r + c) / 4 == r && (4 * b + 4 * r + c) % 4 == c
  {
  }

  lemma Split8(b: nat, r: nat, c: nat)
    requires c < 8
    ensures (8 * r + c) / 8 == r && (8 * b + 8 * r + c) % 8 == c
  {
  }

  lemma Split16(b: nat, r: nat, c: nat)
    requires c < 16
    ensures (16 * r + c) / 16 == r && (16 * b + 16 * r + c) % 16 == c
  {
  }

  lemma CellOfSlotInner(y: nat, x: nat)
    requires y < 8 && x < 8
    ensures Slot(y, x) < 64 && Cell(Slot(y, x)) == (y, x) && (Slot(y, x) < 16 <==> y < 4 && x < 4)
  {
    var b := if y < 4 && x < 4 then 0 else if y < 4 then 4 else if x < 4 then 8 else 12;
    var r, c := if y < 4 then y else y - 4, if x < 4 then x else x - 4;
    assert Slot(y, x) == 4 * b + 4 * r + c;
    Split4(b, r, c);
  }

  lemma CellOfSlotMiddle(y: nat, x: nat)
    requires y < 16 && x < 16 && (y >= 8 || x >= 8)
    ensures 64 <= Slot(y, x) < 256 && Cell(Slot(y, x)) == (y, x)
  {
    var b := if y < 8 then 8 else if x < 8 then 16 else 24;
    var r, c := if y < 8 then y else y - 8, if x < 8 then x else x - 8;
    assert Slot(y, x) == 8 * b + 8 * r + c;
    Split8(b, r, c);
  }

  lemma CellOfSlotOuter(y: nat, x: nat)
    requires y < 32 && x < 32 && (y >= 16 || x >= 16)
    ensures 256 <= Slot(y, x) < 1024 && Cell(Slot(y, x)) == (y, x)
  {
    var b := if y < 16 then 16 else if x < 16 then 32 else 48;
    var r, c := if y < 16 then y else y - 16, if x < 16 then x else x - 16;
    assert Slot(y, x) == 16 * b + 16 * r + c;
    Split16(b, r, c);
  }

  lemma CellOfSlot(y: nat, x: nat)
    requires y < 32 && x < 32
    ensures Cell(Slot(y, x)) == (y, x)
  {
    hide Slot, Cell;
    if y < 8 && x < 8 { CellOfSlotInner(y, x); }
    else if y < 16 && x < 16 { CellOfSlotMiddle(y, x); }
    else { CellOfSlotOuter(y, x); }
  }

  /** Coarse before fine: the corner each level leaves for the next one comes first. */
  lemma CoarseFirst(y: nat, x: nat)
    requires y < 32 && x < 32
    ensures Slot(y, x) < 16 <==> y < 4 && x < 4
    ensures Slot(y, x) < 64 <==> y < 8 && x < 8
    ensures Slot(y, x) < 256 <==> y < 16 && x < 16
  {
    hide Slot, Cell;
    if y < 8 && x < 8 { CellOfSlotInner(y, x); }
    else if y < 16 && x < 16 { CellOfSlotMiddle(y, x); }
    else { CellOfSlotOuter(y, x); }
  }

  type Tile = t: seq<byte> | |t| == 4096 witness seq(4096, _ => 0)

  /** Channel `ch` (0 blue, 1 green, 2 red) of a BGRA tile. */
  function Channel(tile: Tile, ch: nat): Grid
    requires ch < 3
  {
    seq(32, y requires 0 <= y < 32 => seq(32, x requires 0 <= x < 32 => tile[(y * 32 + x) * 4 + ch] as int))
  }

  /** The server's transform: 3072 coefficients of a BGRA tile, alpha dropped. */
  function Forward(tile: Tile): (r: seq<int>)
    ensures |r| == COEFFS
  {
    seq(COEFFS, c requires 0 <= c < COEFFS => CoefficientOf(tile, c))
  }

  function CoefficientOf(tile: Tile, c: nat): int
    requires c < COEFFS
  {
    var (y, x) := Cell(c % 1024);
    Forward3(Channel(tile, c / 1024))[y][x]
  }

  function Unpack(coefficients: seq<int>, ch: nat): Grid
    requires |coefficients| == COEFFS && ch < 3
  {
    seq(32, y requires 0 <= y < 32 => seq(32, x requires 0 <= x < 32 => coefficients[ch * 1024 + Slot(y, x)]))
  }

  function Clamp(v: int): byte { if v < 0 then 0 else if v > 255 then 255 else v }

  /** A sample outside the byte range becomes the nearest byte. */
  lemma ClampIsNearest(v: int, b: byte)
    ensures Abs(v - Clamp(v)) <= Abs(v - b)
  {
  }

  /** The client's transform: 1024 BGR triples. */
  function Inverse(coefficients: seq<int>): (bgr: seq<byte>)
    requires |coefficients| == COEFFS
    ensures |bgr| == COEFFS
  {
    seq(COEFFS, j requires 0 <= j < COEFFS =>
      Clamp(Inverse3(Unpack(coefficients, j % 3))[j / 3 / 32][j / 3 % 32]))
  }

  /** The colour bytes of a BGRA tile. */
  function Bgr(tile: Tile): (r: seq<byte>)
    ensures |r| == COEFFS
  {
    seq(COEFFS, j requires 0 <= j < COEFFS => tile[j / 3 * 4 + j % 3])
  }

  lemma UnpackForward(tile: Tile, ch: nat)
    requires ch < 3
    ensures Unpack(Forward(tile), ch) == Forward3(Channel(tile, ch))
  {
    hide Unpack, Forward3, Forward, Channel;
    var u, f := Unpack(Forward(tile), ch), Forward3(Channel(tile, ch));
    forall y | 0 <= y < 32
      ensures u[y] == f[y]
    {
      forall x | 0 <= x < 32 ensures u[y][x] == f[y][x] { UnpackForwardAt(tile, ch, y, x); }
    }
  }

  lemma UnpackForwardAt(tile: Tile, ch: nat, y: nat, x: nat)
    requires ch < 3 && y < 32 && x < 32
    ensures Unpack(Forward(tile), ch)[y][x] == Forward3(Channel(tile, ch))[y][x]
  {
    hide Slot, Cell, Forward3, Channel;
    CellOfSlot(y, x);
    ChannelOf(ch, Slot(y, x));
    assert Unpack(Forward(tile), ch)[y][x] == CoefficientOf(tile, ch * 1024 + Slot(y, x));
  }

  lemma ChannelOf(ch: nat, i: nat)
    requires i < 1024
    ensures (ch * 1024 + i) / 1024 == ch && (ch * 1024 + i) % 1024 == i
  {
  }

  lemma PixelRoundTrip(tile: Tile, ch: nat, y: nat, x: nat)
    requires ch < 3 && y < 32 && x < 32
    ensures Inverse3(Unpack(Forward(tile), ch))[y][x] == tile[(y * 32 + x) * 4 + ch] as int
  {
    UnpackForward(tile, ch);
    Inverse3UndoesForward3(Channel(tile, ch));
  }

  /** The transform is lossless: for every tile the inverse gives back its colour bytes. */
  lemma TransformRoundTrip(tile: Tile)
    ensures Inverse(Forward(tile)) == Bgr(tile)
  {
    var coefficients := Forward(tile);
    forall j | 0 <= j < COEFFS
      ensures Inverse(coefficients)[j] == Bgr(tile)[j]
    {
      PixelRoundTrip(tile, j % 3, j / 3 / 32, j / 3 % 32);
      assert j / 3 / 32 * 32 + j / 3 % 32 == j / 3;
    }
  }

  // ------------------------------------------------------ coefficient bounds

  /** Every cell of rows `y0..y1`, columns `x0..x1` is within `r` of `c`. */
  ghost predicate Within(w: Grid, y0: nat, y1: nat, x0: nat, x1: nat, c: int, r: nat)
    requires y1 <= 32 && x1 <= 32
  {
    forall y, x :: y0 <= y < y1 && x0 <= x < x1 ==> c - r <= w[y][x] <= c + r
  }

  lemma RowBounds(row: seq<int>, n: nat, x: nat, c: int, r: nat)
    requires n % 2 == 0 && x < n <= |row|
    requires forall i :: 0 <= i < n ==> c - r <= row[i] <= c + r
    ensures var v := LiftedRow(row, n, true)[x];
            if x < n / 2 then -3 * r - 2 <= 2 * (v - c) <= 3 * r + 2 else -2 * r <= v <= 2 * r
  {
    LiftBounds(row[..n], c, r, if x < n / 2 then x else x - n / 2);
  }

  lemma RowsBounds(w: Grid, n: nat, y0: nat, y1: nat, c: int, r: nat)
    requires n % 2 == 0 && y1 <= n <= 32 && Within(w, y0, y1, 0, n, c, r)
    ensures Within(Rows(w, n, true), y0, y1, 0, n / 2, c, (3 * r + 3) / 2)
    ensures Within(Rows(w, n, true), y0, y1, n / 2, n, 0, 2 * r)
  {
    forall y, x | y0 <= y < y1 && 0 <= x < n
      ensures var v := LiftedRow(w[y], n, true)[x];
              if x < n / 2 then -3 * r - 2 <= 2 * (v - c) <= 3 * r + 2 else -2 * r <= v <= 2 * r
    {
      RowBounds(w[y], n, x, c, r);
    }
  }

  /** One level: the next LL band stays near `c`, every detail cell near 0. */
  lemma LevelBounds(w: Grid, n: nat, c: int, r: nat)
    requires n % 2 == 0 && n <= 32 && Within(w, 0, n, 0, n, c, r)
    ensures Within(Analyse(w, n), 0, n / 2, 0, n / 2, c, (3 * ((3 * r + 3) / 2) + 3) / 2)
    ensures Within(Analyse(w, n), 0, n / 2, n / 2, n, 0, 4 * r + 3)
    ensures Within(Analyse(w, n), n / 2, n, 0, n, 0, 4 * r + 3)
  {
    var rows := Rows(w, n, true);
    RowsBounds(w, n, 0, n, c, r);
    var t := Transpose(rows);
    RowsBounds(t, n, 0, n / 2, c, (3 * r + 3) / 2);
    RowsBounds(t, n, n / 2, n, 0, 2 * r);
  }

  /** The two grids agree outside the top-left `n` x `n` block. */
  ghost predicate SameOutside(v: Grid, w: Grid, n: nat) {
    forall y, x :: 0 <= y < 32 && 0 <= x < 32 && (y >= n || x >= n) ==> v[y][x] == w[y][x]
  }

  lemma LevelFrame(w: Grid, n: nat)
    requires n % 2 == 0 && n <= 32
    ensures SameOutside(Analyse(w, n), w, n)
  {
  }

  lemma Level(w: Grid, n: nat, r: nat) returns (f: Grid)
    requires n % 2 == 0 && n <= 32 && Within(w, 0, n, 0, n, 128, r)
    ensures f == Analyse(w, n) && SameOutside(f, w, n)
    ensures Within(f, 0, n / 2, 0, n / 2, 128, (3 * ((3 * r + 3) / 2) + 3) / 2)
    ensures Within(f, 0, n / 2, n / 2, n, 0, 4 * r + 3)
    ensures Within(f, n / 2, n, 0, n, 0, 4 * r + 3)
  {
    f := Analyse(w, n);
    LevelBounds(w, n, 128, r);
    LevelFrame(w, n);
  }

  /** A cell after the last level, from the bound on what goes in. */
  lemma ThirdLevelCell(b: Grid, y: nat, x: nat)
    requires Within(b, 0, 8, 0, 8, 128, 658) && y < 32 && x < 32
    ensures if y < 8 && x < 8 then Abs(Analyse(b, 8)[y][x]) <= 2635 else Analyse(b, 8)[y][x] == b[y][x]
  {
    var f := Level(b, 8, 658);
  }

  lemma SecondLevelCell(a: Grid, y: nat, x: nat)
    requires Within(a, 0, 16, 0, 16, 128, 291) && y < 32 && x < 32
    ensures var f := Analyse(Analyse(a, 16), 8)[y][x]; if y < 16 && x < 16 then Abs(f) <= 2635 else f == a[y][x]
  {
    var b := Level(a, 16, 291);
    ThirdLevelCell(b, y, x);
  }

  lemma Forward3Bounds(w: Grid, y: nat, x: nat)
    requires Within(w, 0, 32, 0, 32, 128, 128) && y < 32 && x < 32
    ensures Abs(Forward3(w)[y][x]) <= 2635
  {
    var a := Level(w, 32, 128);
    SecondLevelCell(a, y, x);
  }

  /**
   * Every coefficient of every tile is at most 2635 in magnitude. The 13
   * magnitude planes therefore lose nothing, and the top one is always empty.
   */
  lemma CoefficientBound(tile: Tile, c: nat)
    requires c < COEFFS
    ensures Abs(Forward(tile)[c]) <= 2635
  {
    hide Cell, Forward3, Channel, Within;
    var (y, x) := Cell(c % 1024);
    ChannelWithin(tile, c / 1024);
    Forward3Bounds(Channel(tile, c / 1024), y, x);
  }

  lemma ChannelWithin(tile: Tile, ch: nat)
    requires ch < 3
    ensures Within(Channel(tile, ch), 0, 32, 0, 32, 128, 128)
  {
  }

  // ------------------------------------------------------------- end to end

  /** The planes the client draws from: received ones, zero planes for those never sent. */
  ghost function SentPlanes(tile: Tile): (planes: seq<Plane>)
    ensures |planes| == PASS_COUNT
  {
    var coefficients := Forward(tile);
    seq(PASS_COUNT, p requires 0 <= p < PASS_COUNT =>
      if p in SparsePasses(coefficients) then ExtractPlane(coefficients, p) else ZERO_PLANE)
  }

  /**
   * The codec is lossless end to end: from the sparse planes of any tile the
   * client reconstructs exactly that tile's colour bytes.
   */
  lemma SparseTileRoundTrip(tile: Tile)
    ensures Inverse(DecodePlanes(SentPlanes(tile))) == Bgr(tile)
  {
    var coefficients := Forward(tile);
    ZeroPlaneStandsIn(SentPlanes(tile), coefficients);
    forall c | 0 <= c < COEFFS ensures Abs(coefficients[c]) < 8192 { CoefficientBound(tile, c); }
    DecodeInvertsExtract(SentPlanes(tile), coefficients);
    TransformRoundTrip(tile);
  }

  /** The server never sends pass 1 (magnitude bit 12): no tile has a coefficient that large. */
  lemma PassOneNeverSent(tile: Tile)
    ensures 1 !in SparsePasses(Forward(tile))
  {
    var coefficients := Forward(tile);
    forall c | 0 <= c < COEFFS
      ensures !CoefficientBit(coefficients[c], 1)
    {
      CoefficientBound(tile, c);
      NoBitTwelve(Abs(coefficients[c]));
    }
  }

  lemma NoBitTwelve(m: nat)
    requires m < 4096
    ensures !BitAt(m, 12)
  {
    ShiftBound(m, 12);
    assert Pow2(12) == 4096;
  }

}
