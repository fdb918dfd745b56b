/**
 * Which draws may still be painted: a ledger of the newest frame number seen per
 * tile, for the whole screen, and for full-screen video pictures.
 *
 * The ledger keeps wrapped 31-bit numbers. Beside them the model keeps the true
 * numbers noted since the last clear, in the order they were noted.
 */
module PaintOrder {
  import opened Serial
  import opened SerialMax

  const TABLE: nat := 65536

  type Tile = (nat, nat)

  /** Tile coordinates are bytes on the wire. */
  predicate OnWire(t: Tile) { t.0 < 256 && t.1 < 256 }

  /** Where the table keeps a tile. */
  function Slot(t: Tile): nat { t.1 * 256 + t.0 }

  /** Every tile has a place in the table, and a place of its own. */
  lemma SlotsApart(t: Tile, u: Tile)
    requires OnWire(t) && OnWire(u)
    ensures Slot(t) < TABLE && (Slot(t) == Slot(u) <==> t == u)
  {
  }

  /** The numbers noted for one tile. */
  function NotesOf(notes: seq<(Tile, int)>, t: Tile): seq<int> {
    if notes == [] then [] else
      var rest := NotesOf(notes[..|notes| - 1], t);
      var last := notes[|notes| - 1];
      if last.0 == t then rest + [last.1] else rest
  }

  lemma NotesOfAppend(notes: seq<(Tile, int)>, t: Tile, e: (Tile, int))
    ensures NotesOf(notes + [e], t) == NotesOf(notes, t) + (if e.0 == t then [e.1] else [])
  {
    assert (notes + [e])[..|notes|] == notes;
  }

  /** The numbers of a tile are those noted for it. */
  lemma {:induction false} NotedForTile(notes: seq<(Tile, int)>, t: Tile, n: int)
    ensures n in NotesOf(notes, t) <==> (t, n) in notes
  {
    if notes == [] {
    } else {
      var front, last := notes[..|notes| - 1], notes[|notes| - 1];
      assert notes == front + [last];
      NotedForTile(front, t, n);
    }
  }

  class SeqLedger {
    /** Empty until the first note. */
    var newest: seq<Option<u32>>
    var maxTile: Option<u32>
    var h264: Option<u32>

    /** Notes by tile, every tile number including pending ones, and pictures. */
    ghost var tileNotes: seq<(Tile, int)>
    ghost var screenNotes: seq<int>
    ghost var pictureNotes: seq<int>
    /** All numbers noted since the last clear lie in the half-turn from here. */
    ghost var base: int

    /** The table holds the tile's own maximum. */
    ghost predicate TileOk(t: Tile)
      reads this`newest, this`tileNotes, this`base
    {
      && Slot(t) < |newest|
      && IsNewest(NotesOf(tileNotes, t), newest[Slot(t)]) && InWindow(NotesOf(tileNotes, t), base)
    }

    ghost predicate Valid()
      reads this
    {
      && (newest == [] ==> tileNotes == [])
      && (newest != [] ==> |newest| == TABLE && forall t: Tile :: OnWire(t) ==> TileOk(t))
      && IsNewest(screenNotes, maxTile) && InWindow(screenNotes, base)
      && IsNewest(pictureNotes, h264) && InWindow(pictureNotes, base)
    }

    constructor (ghost start: int)
      ensures Valid() && base == start && tileNotes == [] && screenNotes == [] && pictureNotes == []
    {
      newest, maxTile, h264 := [], None, None;
      tileNotes, screenNotes, pictureNotes, base := [], [], [], start;
    }

    /** A tile entry of frame `n` was queued for painting. */
    method Note(tx: nat, ty: nat, wire: u32, ghost n: int)
      requires Valid() && tx < 256 && ty < 256 && base <= n < base + HALF31 && wire == Wrap31(n)
      modifies this`newest, this`maxTile, this`tileNotes, this`screenNotes
      ensures Valid() && base == old(base)
      ensures tileNotes == old(tileNotes) + [((tx, ty), n)] && screenNotes == old(screenNotes) + [n]
    {
      hide IsNewer, IsNewest, NewestOf, InWindow, NotesOf, Slot;
      if newest == [] {
        newest := seq(TABLE, _ => None);
        forall t: Tile | OnWire(t) ensures TileOk(t) { NoNotes(t, base); SlotsApart(t, t); }
      }
      var slot := ty * 256 + tx;
      assert slot == Slot((tx, ty)) < TABLE by { PlaceOf(tx, ty); }
      ghost var was, table, b := tileNotes, newest, base;
      assert forall t: Tile :: OnWire(t) ==> TileOk(t);
      forall t: Tile | OnWire(t)
        ensures Slot(t) < TABLE && IsNewest(NotesOf(was, t), table[Slot(t)]) && InWindow(NotesOf(was, t), b)
      {
        assert TileOk(t);
      }
      NewestKept(NotesOf(tileNotes, (tx, ty)), newest[slot], n, base);
      NewestKept(screenNotes, maxTile, n, base);
      newest := newest[slot := NewestOf(newest[slot], wire)];
      maxTile := NewestOf(maxTile, wire);
      tileNotes, screenNotes := tileNotes + [((tx, ty), n)], screenNotes + [n];
      forall t: Tile | OnWire(t) ensures TileOk(t) {
        SlotsApart(t, (tx, ty));
        NotesOfAppend(was, t, ((tx, ty), n));
        assert NotesOf(was, t) + [] == NotesOf(was, t);
      }
    }

    /** A refinement pass of frame `n` waits to be drawn. */
    method NotePending(wire: u32, ghost n: int)
      requires Valid() && base <= n < base + HALF31 && wire == Wrap31(n)
      modifies this`maxTile, this`screenNotes
      ensures Valid() && screenNotes == old(screenNotes) + [n]
    {
      hide IsNewer, IsNewest, NewestOf, InWindow, NotesOf;
      NewestKept(screenNotes, maxTile, n, base);
      maxTile, screenNotes := NewestOf(maxTile, wire), screenNotes + [n];
    }

    /** A full-screen video picture of frame `n` was drawn. */
    method NoteH264(wire: u32, ghost n: int)
      requires Valid() && base <= n < base + HALF31 && wire == Wrap31(n)
      modifies this`h264, this`pictureNotes
      ensures Valid() && pictureNotes == old(pictureNotes) + [n]
    {
      hide IsNewer, IsNewest, NewestOf, InWindow, NotesOf;
      NewestKept(pictureNotes, h264, n, base);
      h264, pictureNotes := NewestOf(h264, wire), pictureNotes + [n];
    }

    /** A tile draw is dropped exactly when a greater number was noted for that very tile, or for a picture. */
    method Superseded(tx: nat, ty: nat, wire: u32, ghost n: int) returns (r: bool)
      requires Valid() && tx < 256 && ty < 256 && base <= n < base + HALF31 && wire == Wrap31(n)
      ensures r <==> NoteAbove(pictureNotes, n) || exists m :: ((tx, ty), m) in tileNotes && m > n
    {
      hide IsNewer, IsNewest, InWindow, NoteAbove, NotesOf, Slot;
      NewerThanNewest(pictureNotes, h264, n, base);
      var slot := ty * 256 + tx;
      assert slot == Slot((tx, ty)) < TABLE by { PlaceOf(tx, ty); }
      if newest != [] {
        assert TileOk((tx, ty));
        NewerThanNewest(NotesOf(tileNotes, (tx, ty)), newest[slot], n, base);
      } else {
        NoNotes((tx, ty), base);
        NewerThanNewest([], None, n, base);
      }
      AboveForTile(tileNotes, (tx, ty), n);
      r := (h264.Some? && IsNewer(h264.value, wire))
        || (newest != [] && newest[slot].Some? && IsNewer(newest[slot].value, wire));
    }

    /** A picture is stale exactly when any tile or picture of a greater number was noted. */
    method H264Stale(wire: u32, ghost n: int) returns (r: bool)
      requires Valid() && base <= n < base + HALF31 && wire == Wrap31(n)
      ensures r <==> NoteAbove(pictureNotes, n) || NoteAbove(screenNotes, n)
    {
      hide IsNewer, IsNewest, InWindow, NoteAbove, NotesOf;
      NewerThanNewest(pictureNotes, h264, n, base);
      NewerThanNewest(screenNotes, maxTile, n, base);
      r := (h264.Some? && IsNewer(h264.value, wire)) || (maxTile.Some? && IsNewer(maxTile.value, wire));
    }

    /** The framebuffer was resized. */
    method Clear(ghost start: int)
      requires Valid()
      modifies this
      ensures Valid() && base == start && tileNotes == [] && screenNotes == [] && pictureNotes == []
    {
      newest := seq(|newest|, _ => None);
      maxTile, h264 := None, None;
      tileNotes, screenNotes, pictureNotes, base := [], [], [], start;
    }
  }

  lemma NoNotes(t: Tile, base: int)
    ensures NotesOf([], t) == [] && IsNewest([], None) && InWindow([], base)
  {
  }

  lemma PlaceOf(tx: nat, ty: nat)
    requires tx < 256 && ty < 256
    ensures ty * 256 + tx == Slot((tx, ty)) < TABLE
  {
  }

  /** A greater number among a tile's is a greater number noted for that tile. */
  lemma AboveForTile(notes: seq<(Tile, int)>, t: Tile, n: int)
    ensures NoteAbove(NotesOf(notes, t), n) <==> exists m :: (t, m) in notes && m > n
  {
    hide NotesOf;
    var s := NotesOf(notes, t);
    forall m ensures m in s <==> (t, m) in notes { NotedForTile(notes, t, m); }
    if NoteAbove(s, n) {
      var k :| 0 <= k < |s| && s[k] > n;
      assert s[k] in s;
    }
    if m :| (t, m) in notes && m > n {
      var k :| 0 <= k < |s| && s[k] == m;
      assert s[k] > n;
    }
  }

  /**
   * Draws of one tile that survive a flush all carry one frame number, the
   * greatest noted for the tile, so the codec order they are drawn in cannot put
   * an older frame on top; and a draw that carries it survives.
   */
  lemma SurvivorsAreNewest(notes: seq<(Tile, int)>, pictures: seq<int>, t: Tile, a: int, b: int)
    requires (t, a) in notes && (t, b) in notes
    requires !NoteAbove(NotesOf(notes, t), a) && !NoteAbove(pictures, a)
    ensures !NoteAbove(NotesOf(notes, t), b) && !NoteAbove(pictures, b) <==> a == b
  {
    NotedForTile(notes, t, a);
    NotedForTile(notes, t, b);
    var s := NotesOf(notes, t);
    var i :| 0 <= i < |s| && s[i] == a;
    var j :| 0 <= j < |s| && s[j] == b;
    assert s[i] == a && s[j] == b;
  }
}
