/**
 * Tile-granular damage, and a bounded history of it.
 *
 * A grid is a bit per tile, packed row-major into 64-bit words; a word is
 * modelled by the set of its one bits.
 */
module Dirty {
  import opened Serial

  type Tile = (nat, nat)

  datatype DirtyGrid = DirtyGrid(cols: nat, rows: nat, words: seq<set<nat>>)

  function NewGrid(cols: nat, rows: nat): DirtyGrid { DirtyGrid(cols, rows, seq((cols * rows + 63) / 64, _ => {})) }

  function BitIndex(g: DirtyGrid, t: Tile): nat { t.1 * g.cols + t.0 }

  predicate InRange(g: DirtyGrid, t: Tile) { t.0 < g.cols && t.1 < g.rows }

  /** There is a bit for every tile, and no bit is set beyond the last. */
  predicate GridOk(g: DirtyGrid) {
    && |g.words| == (g.cols * g.rows + 63) / 64
    && forall i, b :: 0 <= i < |g.words| && b in g.words[i] ==> b < 64 && i * 64 + b < g.cols * g.rows
  }

  lemma IndexFits(g: DirtyGrid, t: Tile)
    requires GridOk(g) && InRange(g, t)
    ensures BitIndex(g, t) < g.cols * g.rows && BitIndex(g, t) / 64 < |g.words|
  {
    assert t.1 * g.cols + t.0 < (t.1 + 1) * g.cols <= g.rows * g.cols;
  }

  lemma RowsApart(g: DirtyGrid, a: Tile, b: Tile)
    requires InRange(g, a) && InRange(g, b) && a.1 < b.1
    ensures BitIndex(g, a) < BitIndex(g, b)
  {
    assert (a.1 + 1) * g.cols <= b.1 * g.cols;
  }

  /** Different tiles have different bits: a mark never lands on a neighbour. */
  lemma IndexInjective(g: DirtyGrid, a: Tile, b: Tile)
    requires InRange(g, a) && InRange(g, b) && a != b
    ensures BitIndex(g, a) != BitIndex(g, b)
  {
    if a.1 < b.1 { RowsApart(g, a, b); }
    if b.1 < a.1 { RowsApart(g, b, a); }
  }

  function Get(g: DirtyGrid, t: Tile): bool
    requires GridOk(g)
  {
    InRange(g, t) && (IndexFits(g, t); BitIndex(g, t) % 64 in g.words[BitIndex(g, t) / 64])
  }

  /** Mark a tile; out of range does nothing. */
  function Set(g: DirtyGrid, t: Tile): (r: DirtyGrid)
    requires GridOk(g)
    ensures GridOk(r) && r.cols == g.cols && r.rows == g.rows
  {
    if !InRange(g, t) then g else
      IndexFits(g, t);
      var i := BitIndex(g, t);
      g.(words := g.words[i / 64 := g.words[i / 64] + {i % 64}])
  }

  function UnionWith(g: DirtyGrid, o: DirtyGrid): (r: DirtyGrid)
    requires GridOk(g) && GridOk(o) && g.cols == o.cols && g.rows == o.rows
    ensures GridOk(r) && r.cols == g.cols && r.rows == g.rows
  {
    g.(words := seq(|g.words|, i requires 0 <= i < |g.words| => g.words[i] + o.words[i]))
  }

  /** The union, word by word. */
  method UnionWords(g: DirtyGrid, o: DirtyGrid) returns (r: DirtyGrid)
    requires GridOk(g) && GridOk(o) && g.cols == o.cols && g.rows == o.rows
    ensures r == UnionWith(g, o)
  {
    var words := g.words;
    for i := 0 to |words|
      invariant |words| == |g.words|
      invariant forall j :: 0 <= j < |words| ==> words[j] == if j < i then g.words[j] + o.words[j] else g.words[j]
    {
      words := words[i := words[i] + o.words[i]];
    }
    r := g.(words := words);
    assert r.words == UnionWith(g, o).words;
  }

  /** Marking a tile changes what is read at that tile and nowhere else. */
  lemma GetAfterSet(g: DirtyGrid, t: Tile, u: Tile)
    requires GridOk(g)
    ensures Get(Set(g, t), u) <==> Get(g, u) || (u == t && InRange(g, t))
  {
    assert BitIndex(Set(g, t), u) == BitIndex(g, u);
    hide BitIndex, GridOk;
    if InRange(g, t) && InRange(g, u) {
      IndexFits(g, t);
      IndexFits(g, u);
      var i, j := BitIndex(g, t), BitIndex(g, u);
      if t != u { IndexInjective(g, t, u); }
      assert i == 64 * (i / 64) + i % 64 && j == 64 * (j / 64) + j % 64;
    }
  }

  lemma GetAfterUnion(g: DirtyGrid, o: DirtyGrid, t: Tile)
    requires GridOk(g) && GridOk(o) && g.cols == o.cols && g.rows == o.rows
    ensures Get(UnionWith(g, o), t) <==> Get(g, t) || Get(o, t)
  {
    if InRange(g, t) { IndexFits(g, t); }
  }

  lemma GetOfNew(cols: nat, rows: nat, t: Tile)
    ensures GridOk(NewGrid(cols, rows)) && !Get(NewGrid(cols, rows), t)
  {
    if InRange(NewGrid(cols, rows), t) { IndexFits(NewGrid(cols, rows), t); }
  }

  // ----------------------------------------------------------- tile list

  /** A bit of the grid is the tile it is read back as. */
  lemma BitIsTile(g: DirtyGrid, i: nat)
    requires GridOk(g) && i < g.cols * g.rows
    ensures g.cols > 0 && InRange(g, (i % g.cols, i / g.cols)) && BitIndex(g, (i % g.cols, i / g.cols)) == i
  {
    if g.cols > 0 { QuotientBelow(i, g.cols, g.rows); }
  }

  lemma QuotientBelow(i: nat, c: nat, r: nat)
    requires c > 0 && i < c * r
    ensures i / c < r && (i / c) * c + i % c == i
  {
    var q := i / c;
    assert q * c + i % c == i;
    assert q >= r ==> q * c >= r * c;
  }

  /** Bit `i` of the grid. */
  predicate HasBit(g: DirtyGrid, i: nat)
    requires GridOk(g)
  {
    i / 64 < |g.words| && i % 64 in g.words[i / 64]
  }

  lemma GetIsBit(g: DirtyGrid, t: Tile)
    requires GridOk(g)
    ensures Get(g, t) <==> InRange(g, t) && HasBit(g, BitIndex(g, t))
  {
    if InRange(g, t) { IndexFits(g, t); }
  }

  lemma BitBelow(g: DirtyGrid, i: nat)
    requires GridOk(g) && HasBit(g, i)
    ensures i < g.cols * g.rows
  {
  }

  /** `tiles` are the marked tiles whose bits come before `i`, in the order of their bits. */
  ghost predicate MarkedBefore(g: DirtyGrid, tiles: seq<Tile>, i: nat)
    requires GridOk(g)
  {
    && (forall t: Tile :: t in tiles <==> Get(g, t) && BitIndex(g, t) < i)
    && forall a, b :: 0 <= a < b < |tiles| ==> BitIndex(g, tiles[a]) < BitIndex(g, tiles[b])
  }

  predicate TileBefore(a: Tile, b: Tile) { a.1 < b.1 || (a.1 == b.1 && a.0 < b.0) }

  lemma BitsAreRowMajor(g: DirtyGrid, a: Tile, b: Tile)
    requires InRange(g, a) && InRange(g, b) && BitIndex(g, a) < BitIndex(g, b)
    ensures TileBefore(a, b)
  {
    if a.1 != b.1 && !(a.1 < b.1) { RowsApart(g, b, a); }
  }

  /** The tile of bit `i`. */
  function TileOfBit(g: DirtyGrid, i: nat): Tile
    requires g.cols > 0
  {
    (i % g.cols, i / g.cols)
  }

  lemma NoBit(g: DirtyGrid, tiles: seq<Tile>, i: nat)
    requires GridOk(g) && MarkedBefore(g, tiles, i) && !HasBit(g, i)
    ensures MarkedBefore(g, tiles, i + 1)
  {
    hide Get, BitIndex, HasBit;
    forall t: Tile ensures t in tiles <==> Get(g, t) && BitIndex(g, t) < i + 1 { GetIsBit(g, t); }
  }

  lemma OneMoreBit(g: DirtyGrid, tiles: seq<Tile>, i: nat)
    requires GridOk(g) && MarkedBefore(g, tiles, i) && HasBit(g, i)
    ensures g.cols > 0 && MarkedBefore(g, tiles + [TileOfBit(g, i)], i + 1)
  {
    BitBelow(g, i);
    BitIsTile(g, i);
    var u := TileOfBit(g, i);
    hide Get, BitIndex, HasBit;
    GetIsBit(g, u);
    forall t: Tile
      ensures t in tiles + [u] <==> Get(g, t) && BitIndex(g, t) < i + 1
    {
      GetIsBit(g, t);
      if InRange(g, t) && t != u { IndexInjective(g, t, u); }
    }
  }

  lemma NoneMarked(g: DirtyGrid)
    requires GridOk(g)
    ensures MarkedBefore(g, [], 0)
  {
    hide Get;
  }

  lemma BitOfWord(g: DirtyGrid, wi: nat, bit: nat)
    requires GridOk(g) && wi < |g.words| && bit < 64
    ensures HasBit(g, wi * 64 + bit) <==> bit in g.words[wi]
  {
    assert (wi * 64 + bit) / 64 == wi && (wi * 64 + bit) % 64 == bit;
  }

  lemma AllMarked(g: DirtyGrid, tiles: seq<Tile>)
    requires GridOk(g) && MarkedBefore(g, tiles, |g.words| * 64)
    ensures forall t: Tile :: t in tiles <==> Get(g, t)
    ensures forall i, j :: 0 <= i < j < |tiles| ==> TileBefore(tiles[i], tiles[j])
  {
    hide Get, BitIndex;
    forall t: Tile | Get(g, t)
      ensures BitIndex(g, t) < |g.words| * 64
    {
      GetIsBit(g, t);
      IndexFits(g, t);
    }
    forall i, j | 0 <= i < j < |tiles|
      ensures TileBefore(tiles[i], tiles[j])
    {
      assert tiles[i] in tiles && tiles[j] in tiles;
      GetIsBit(g, tiles[i]);
      GetIsBit(g, tiles[j]);
      BitsAreRowMajor(g, tiles[i], tiles[j]);
    }
  }

  /** The marked tiles, each once, row by row and left to right. */
  method IterSet(g: DirtyGrid) returns (tiles: seq<Tile>)
    requires GridOk(g)
    ensures forall t: Tile :: t in tiles <==> Get(g, t)
    ensures forall i, j :: 0 <= i < j < |tiles| ==> TileBefore(tiles[i], tiles[j])
  {
    hide Get, BitIndex, MarkedBefore, HasBit, GridOk, TileOfBit;
    tiles := [];
    NoneMarked(g);
    for wi := 0 to |g.words|
      invariant MarkedBefore(g, tiles, wi * 64)
    {
      for bit := 0 to 64
        invariant MarkedBefore(g, tiles, wi * 64 + bit)
      {
        var i := wi * 64 + bit;
        BitOfWord(g, wi, bit);
        if bit in g.words[wi] {
          OneMoreBit(g, tiles, i);
          tiles := tiles + [TileOfBit(g, i)];
        } else {
          NoBit(g, tiles, i);
        }
      }
    }
    AllMarked(g, tiles);
  }

  // -------------------------------------------------------------- history

  /** Tile `t` changed in one of the generations `from .. to`. */
  ghost predicate ChangedIn(all: seq<DirtyGrid>, from: nat, to: nat, t: Tile)
    requires forall i :: 0 <= i < |all| ==> GridOk(all[i])
  {
    exists g :: from <= g < to && g < |all| && Get(all[g], t)
  }

  /** `g` marks exactly the tiles that changed in generations `from .. to`. */
  ghost predicate IsUnion(g: DirtyGrid, all: seq<DirtyGrid>, from: nat, to: nat)
    requires forall i :: 0 <= i < |all| ==> GridOk(all[i])
  {
    GridOk(g) && forall t :: Get(g, t) <==> ChangedIn(all, from, to, t)
  }

  lemma UnionGrows(g: DirtyGrid, all: seq<DirtyGrid>, from: nat, to: nat)
    requires forall i :: 0 <= i < |all| ==> GridOk(all[i])
    requires IsUnion(g, all, from, to) && from <= to < |all| && all[to].cols == g.cols && all[to].rows == g.rows
    ensures IsUnion(UnionWith(g, all[to]), all, from, to + 1)
  {
    hide Get, UnionWith;
    forall t: Tile
      ensures Get(UnionWith(g, all[to]), t) <==> ChangedIn(all, from, to + 1, t)
    {
      GetAfterUnion(g, all[to], t);
    }
  }

  class DirtyHistory {
    var cols: nat
    var rows: nat
    const capacity: nat
    var current: DirtyGrid
    var nextGen: nat
    /** Sealed generations with their numbers, oldest first. */
    var sealed: seq<(nat, DirtyGrid)>

    /** Every generation ever sealed since the last reset. */
    ghost var all: seq<DirtyGrid>

    ghost predicate Valid()
      reads this
    {
      && capacity >= 1
      && GridOk(current) && current.cols == cols && current.rows == rows
      && |all| == nextGen
      && (forall i :: 0 <= i < |all| ==> GridOk(all[i]) && all[i].cols == cols && all[i].rows == rows)
      && |sealed| == (if nextGen < capacity then nextGen else capacity)
      && forall i :: 0 <= i < |sealed| ==> sealed[i] == (nextGen - |sealed| + i, all[nextGen - |sealed| + i])
    }

    constructor (c: nat, r: nat, cap: nat)
      ensures Valid() && all == [] && cols == c && rows == r && capacity == if cap > 1 then cap else 1
      ensures current == NewGrid(c, r)
    {
      cols, rows, capacity := c, r, if cap > 1 then cap else 1;
      current, nextGen, sealed, all := NewGrid(c, r), 0, [], [];
    }

    method Mark(t: Tile)
      requires Valid()
      modifies this`current
      ensures Valid() && current == Set(old(current), t)
    {
      current := Set(current, t);
    }

    /** Seal the generation being accumulated and start a new one. */
    method Advance() returns (gen: nat)
      requires Valid()
      modifies this
      ensures Valid() && gen == old(nextGen) && all == old(all) + [old(current)]
      ensures cols == old(cols) && rows == old(rows) && current == NewGrid(cols, rows)
    {
      gen := nextGen;
      sealed := sealed + [(gen, current)];
      if |sealed| > capacity { sealed := sealed[1..]; }
      nextGen := nextGen + 1;
      all := all + [current];
      current := NewGrid(cols, rows);
    }

    /**
     * The damage since a watermark: exactly the union of every generation after
     * it, or nothing at all when it cannot be known from what is retained.
     */
    method UnionSince(since: Option<nat>) returns (r: Option<DirtyGrid>)
      requires Valid()
      ensures r.None? <==>
        since.None? || nextGen == 0 || (since.value + 1 < nextGen && since.value + 1 < nextGen - |sealed|)
      ensures r.Some? ==> GridOk(r.value) && r.value.cols == cols && r.value.rows == rows
      ensures r.Some? ==> IsUnion(r.value, all, since.value + 1, nextGen)
    {
      hide Get, UnionWith, NewGrid;
      if since.None? || nextGen == 0 { return None; }
      var newestSealed := nextGen - 1;
      var grid := NewGrid(cols, rows);
      EmptyUnion(cols, rows, all, since.value + 1);
      if since.value >= newestSealed {
        NothingAfter(grid, all, since.value + 1, nextGen);
        return Some(grid);
      }
      var oldest := sealed[0].0;
      if since.value + 1 < oldest { return None; }
      for i := 0 to |sealed|
        invariant GridOk(grid) && grid.cols == cols && grid.rows == rows
        invariant IsUnion(grid, all, since.value + 1, Max(since.value + 1, oldest + i))
      {
        if sealed[i].0 > since.value {
          UnionGrows(grid, all, since.value + 1, oldest + i);
          grid := UnionWords(grid, sealed[i].1);
        }
      }
      return Some(grid);
    }

    /** Drop all history on a resize. */
    method Reset(c: nat, r: nat)
      requires Valid()
      modifies this
      ensures Valid() && all == [] && cols == c && rows == r && current == NewGrid(c, r)
    {
      cols, rows, current, nextGen, sealed, all := c, r, NewGrid(c, r), 0, [], [];
    }
  }

  function Max(a: nat, b: nat): nat { if a > b then a else b }

  lemma EmptyUnion(cols: nat, rows: nat, all: seq<DirtyGrid>, from: nat)
    requires forall i :: 0 <= i < |all| ==> GridOk(all[i])
    ensures IsUnion(NewGrid(cols, rows), all, from, from)
    ensures NewGrid(cols, rows).cols == cols && NewGrid(cols, rows).rows == rows
  {
    forall t: Tile ensures GridOk(NewGrid(cols, rows)) && !Get(NewGrid(cols, rows), t) { GetOfNew(cols, rows, t); }
  }

  lemma NothingAfter(g: DirtyGrid, all: seq<DirtyGrid>, from: nat, to: nat)
    requires forall i :: 0 <= i < |all| ==> GridOk(all[i])
    requires IsUnion(g, all, from, from) && from >= to
    ensures IsUnion(g, all, from, to)
  {
    hide Get;
    forall t: Tile ensures ChangedIn(all, from, to, t) <==> ChangedIn(all, from, from, t) {}
  }

}
