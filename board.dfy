/** The board of src/board.rs: a (width + 2) x (height + 2) grid of cells
    whose outer ring is a sentinel border. Only interior cells are wired to
    their neighbours and visited by a generation. */
module Boards {
  import opened Cells
  import opened Grid

  /* ---------------- `set_ref` as a relation ---------------- */

  /** Interior cell (x, y) of `cs` after its 3x3 block is registered. */
  function Registered(cs: seq<Cell>, w: nat, h: nat, x: int, y: int): (c: Cell)
    requires |cs| == w * h && IsInterior(w, h, x, y)
    ensures c.survive == cs[Idx(w, h, x, y)].survive && c.count == cs[Idx(w, h, x, y)].count
  {
    var k := Idx(w, h, x, y);
    cs[k].(around := PushAll(cs[k].around, Wiring(w, h, x, y)))
  }

  /** `r` is `cs` once every interior cell before (x, y) in row-major
      order has registered its block; every other cell is unchanged. */
  ghost predicate RegisteredBefore(cs: seq<Cell>, r: seq<Cell>, w: nat, h: nat, x: int, y: int)
  {
    |cs| == w * h && |r| == w * h &&
    forall a, b {:trigger r[Idx(w, h, a, b)]} :: InGrid(w, h, a, b) ==>
      r[Idx(w, h, a, b)] ==
        if IsInterior(w, h, a, b) && (b < y || (b == y && a < x)) then Registered(cs, w, h, a, b)
        else cs[Idx(w, h, a, b)]
  }

  /** `r` is `cs` after a whole `set_ref`. */
  ghost predicate RefsSet(cs: seq<Cell>, r: seq<Cell>, w: nat, h: nat)
  {
    RegisteredBefore(cs, r, w, h, 1, h - 1)
  }

  lemma RegisteredStep(cs: seq<Cell>, r: seq<Cell>, w: nat, h: nat, x: int, y: int)
    requires RegisteredBefore(cs, r, w, h, x, y) && IsInterior(w, h, x, y)
    ensures RegisteredBefore(cs, r[Idx(w, h, x, y) := Registered(cs, w, h, x, y)], w, h, x + 1, y)
  {
    var k := Idx(w, h, x, y);
    var r' := r[k := Registered(cs, w, h, x, y)];
    forall a, b | InGrid(w, h, a, b)
      ensures r'[Idx(w, h, a, b)] ==
        if IsInterior(w, h, a, b) && (b < y || (b == y && a < x + 1)) then Registered(cs, w, h, a, b)
        else cs[Idx(w, h, a, b)]
    {
      if Idx(w, h, a, b) == k {
        IdxInjective(w, h, a, b, x, y);
      }
    }
  }

  lemma RegisteredRow(cs: seq<Cell>, r: seq<Cell>, w: nat, h: nat, y: int)
    requires RegisteredBefore(cs, r, w, h, w - 1, y)
    ensures RegisteredBefore(cs, r, w, h, 1, y + 1)
  {
  }

  /** Wiring cells that have no relations yet gives the wired board. */
  lemma RefsSetFromBlank(cs: seq<Cell>, r: seq<Cell>, w: nat, h: nat)
    requires RefsSet(cs, r, w, h)
    requires forall k :: 0 <= k < |cs| ==> cs[k].around == []
    ensures Wired(r, w, h)
    ensures forall k :: 0 <= k < |r| ==> r[k].survive == cs[k].survive && r[k].count == cs[k].count
  {
    forall x, y | InGrid(w, h, x, y)
      ensures r[Idx(w, h, x, y)].around == if IsInterior(w, h, x, y) then Wiring(w, h, x, y) else []
    {
      if IsInterior(w, h, x, y) {
        PushAllCapped([], Wiring(w, h, x, y));
        assert Wiring(w, h, x, y)[..Slots] == Wiring(w, h, x, y);
      }
    }
    forall k | 0 <= k < |r|
      ensures r[k].survive == cs[k].survive && r[k].count == cs[k].count
    {
      var x, y := IdxOnto(w, h, k);
      assert r[Idx(w, h, x, y)] == r[k];
    }
  }

  /** A second `set_ref` adds nothing: every list of a wired board is
      already full. */
  lemma RefsSetWired(cs: seq<Cell>, r: seq<Cell>, w: nat, h: nat)
    requires Wired(cs, w, h) && RefsSet(cs, r, w, h)
    ensures r == cs
  {
    forall k | 0 <= k < |r|
      ensures r[k] == cs[k]
    {
      var x, y := IdxOnto(w, h, k);
      assert r[Idx(w, h, x, y)] == r[k];
      if IsInterior(w, h, x, y) {
        PushAllCapped(Wiring(w, h, x, y), Wiring(w, h, x, y));
      }
    }
  }

  /** Clones whose relations were dropped and then rebuilt by `set_ref`
      are the original cells again. */
  lemma RefsSetRestores(orig: seq<Cell>, cl: seq<Cell>, r: seq<Cell>, w: nat, h: nat)
    requires Wired(orig, w, h) && RefsSet(cl, r, w, h) && |cl| == |orig|
    requires forall k :: 0 <= k < |cl| ==> cl[k] == orig[k].(around := [])
    ensures r == orig
  {
    RefsSetFromBlank(cl, r, w, h);
    forall k | 0 <= k < |r|
      ensures r[k] == orig[k]
    {
      var x, y := IdxOnto(w, h, k);
      assert r[Idx(w, h, x, y)] == r[k];
      assert orig[Idx(w, h, x, y)] == orig[k];
    }
  }

  /** `eq`: equal sizes, and cells pairwise equal up to the shorter arena
      (the cells are compared through `zip`). */
  predicate SameBoard(w1: nat, h1: nat, cs1: seq<Cell>, w2: nat, h2: nat, cs2: seq<Cell>)
    ensures w1 == w2 && h1 == h2 && cs1 == cs2 ==> SameBoard(w1, h1, cs1, w2, h2, cs2)
    ensures SameBoard(w1, h1, cs1, w2, h2, cs2) ==> w1 == w2 && h1 == h2
  {
    w1 == w2 && h1 == h2 &&
    forall k :: 0 <= k < |cs1| && k < |cs2| ==> CellEq(cs1[k], cs2[k])
  }

  class Board {
    /** Sizes including the border ring. */
    const width: nat
    const height: nat
    const inner: Arena

    /** An initialised board: every interior cell wired to its block and
        every count up to date. */
    ghost predicate Valid()
      reads this, inner
    {
      inner.Valid() && 2 <= width && 2 <= height && Inv(inner.cells, width, height)
    }

    /** `new`: room for a border ring, no cells yet. */
    constructor (w: nat, h: nat)
      ensures width == w + 2 && height == h + 2
      ensures fresh(inner) && inner.Valid() && inner.cells == []
    {
      width := w + 2;
      height := h + 2;
      inner := new Arena();
    }

    /** `init`: one dead cell per position, row by row, then the wiring. */
    method Init()
      requires inner.Valid() && inner.cells == [] && 2 <= width && 2 <= height
      modifies inner
      ensures Valid()
      ensures forall k :: 0 <= k < |inner.cells| ==> !inner.cells[k].survive && inner.cells[k].count == 0
    {
      var y := 0;
      while y < height
        invariant 0 <= y <= height
        invariant inner.Valid() && |inner.cells| == y * width
        invariant forall k :: 0 <= k < |inner.cells| ==> inner.cells[k] == NewCell()
      {
        var x := 0;
        while x < width
          invariant 0 <= x <= width
          invariant inner.Valid() && |inner.cells| == x + y * width
          invariant forall k :: 0 <= k < |inner.cells| ==> inner.cells[k] == NewCell()
        {
          inner.Push(NewCell());
          x := x + 1;
        }
        assert (y + 1) * width == y * width + width;
        y := y + 1;
      }
      ghost var blank := inner.cells;
      SetRef();
      RefsSetFromBlank(blank, inner.cells, width, height);
      BlankInv(inner.cells, width, height);
      InvWellFormed(inner.cells, width, height);
    }

    /** `set_ref`: every interior cell registers the 3x3 block around it,
        in row-major order. */
    method SetRef()
      requires inner.Valid() && |inner.cells| == width * height && 2 <= width && 2 <= height
      modifies inner
      ensures inner.Valid() && RefsSet(old(inner.cells), inner.cells, width, height)
    {
      ghost var cs0 := inner.cells;
      var y := 1;
      while y < height - 1
        invariant 1 <= y <= height - 1
        invariant inner.Valid() && RegisteredBefore(cs0, inner.cells, width, height, 1, y)
      {
        var x := 1;
        while x < width - 1
          invariant 1 <= x <= width - 1
          invariant inner.Valid() && RegisteredBefore(cs0, inner.cells, width, height, x, y)
        {
          ghost var before := inner.cells;
          assert before[Idx(width, height, x, y)] == cs0[Idx(width, height, x, y)];
          RegisterAround(x, y);
          RegisteredStep(cs0, before, width, height, x, y);
          x := x + 1;
        }
        RegisteredRow(cs0, inner.cells, width, height, y);
        y := y + 1;
      }
    }

    /** The two inner loops of `set_ref` for interior cell (x, y): slot
        j + 3 * i registers the cell at (x - 1 + j, y + 1 - i). */
    method RegisterAround(x: nat, y: nat)
      requires inner.Valid() && |inner.cells| == width * height && IsInterior(width, height, x, y)
      modifies inner
      ensures inner.Valid()
      ensures var k := Idx(width, height, x, y);
        inner.cells == old(inner.cells)[k := old(inner.cells)[k].(around :=
          PushAll(old(inner.cells)[k].around, Wiring(width, height, x, y)))]
    {
      ghost var cs0 := inner.cells;
      ghost var k := Idx(width, height, x, y);
      ghost var a0 := cs0[k].around;
      ghost var ws := Wiring(width, height, x, y);
      var i := 0;
      while i < 3
        invariant 0 <= i <= 3
        invariant inner.Valid() && inner.cells == cs0[k := cs0[k].(around := PushAll(a0, ws[..3 * i]))]
      {
        var j := 0;
        while j < 3
          invariant 0 <= j <= 3
          invariant inner.Valid() && inner.cells == cs0[k := cs0[k].(around := PushAll(a0, ws[..j + 3 * i]))]
        {
          RegisterSlot(cs0, x, y, i, j);
          j := j + 1;
        }
        i := i + 1;
      }
      assert ws[..Slots] == ws;
    }

    /** One pass of the two inner loops of `set_ref`. */
    method RegisterSlot(ghost cs0: seq<Cell>, x: nat, y: nat, i: nat, j: nat)
      requires |cs0| == width * height && IsInterior(width, height, x, y) && i < 3 && j < 3
      requires var k := Idx(width, height, x, y);
        inner.Valid() &&
        inner.cells == cs0[k := cs0[k].(around := PushAll(cs0[k].around, Wiring(width, height, x, y)[..j + 3 * i]))]
      modifies inner
      ensures var k := Idx(width, height, x, y);
        inner.Valid() &&
        inner.cells == cs0[k := cs0[k].(around := PushAll(cs0[k].around, Wiring(width, height, x, y)[..j + 3 * i + 1]))]
    {
      WiringSlot(width, height, x, y, i, j);
      PushAllNext(cs0[Idx(width, height, x, y)].around, Wiring(width, height, x, y), j + 3 * i);
      inner.SetAroundCells(Idx(width, height, x, y), Idx(width, height, x - 1 + j, y + 1 - i));
    }

    /** `set_boardstate`: (x, y) counts from the first interior cell; a
        position off the interior is ignored, otherwise the cell is born
        or killed. */
    method SetBoardstate(x: nat, y: nat, alive: bool)
      requires Valid()
      modifies inner
      ensures Valid()
      ensures x + 1 >= width - 1 || y + 1 >= height - 1 ==> inner.cells == old(inner.cells)
      ensures x + 1 < width - 1 && y + 1 < height - 1 ==>
        Flip(old(inner.cells), Idx(width, height, x + 1, y + 1), alive) == Ok(inner.cells)
    {
      var px := x + 1;
      var py := y + 1;
      if px >= width - 1 || py >= height - 1 {
        return;
      }
      ghost var cs := inner.cells;
      InvWellFormed(cs, width, height);
      InvNoOverflow(cs, width, height, px, py, alive);
      if cs[Idx(width, height, px, py)].survive != alive {
        NotifiedInv(cs, width, height, px, py, alive);
      }
      var ok;
      if alive {
        ok := inner.Born(px + py * width);
      } else {
        ok := inner.Kill(px + py * width);
      }
    }

    /** `refresh`: one generation, visiting the interior row by row. */
    method Refresh()
      requires Valid()
      modifies inner
      ensures Valid()
      ensures Generation(old(inner.cells), width, height) == Ok(inner.cells)
      ensures BorderKept(old(inner.cells), inner.cells, width, height)
    {
      ghost var target := Generation(inner.cells, width, height);
      GenerationInv(inner.cells, width, height);
      var y := 1;
      while y < height - 1
        invariant 1 <= y <= height - 1
        invariant Valid() && AllRefer(inner.cells)
        invariant RowsFrom(inner.cells, width, height, y) == target
      {
        RowFromInv(inner.cells, width, height, 1, y);
        var x := 1;
        while x < width - 1
          invariant 1 <= x <= width - 1
          invariant Valid() && AllRefer(inner.cells)
          invariant RowFrom(inner.cells, width, height, x, y).Ok?
          invariant RowsFrom(RowFrom(inner.cells, width, height, x, y).value, width, height, y + 1) == target
        {
          ghost var before := inner.cells;
          RuleStep(x, y);
          assert RowFrom(before, width, height, x, y) == RowFrom(inner.cells, width, height, x + 1, y);
          x := x + 1;
        }
        y := y + 1;
      }
    }

    /** The body of `refresh` for interior cell (x, y): the B3/S23 rule on
        its cached count. */
    method RuleStep(x: nat, y: nat)
      requires Valid() && IsInterior(width, height, x, y)
      modifies inner
      ensures Valid() && AllRefer(old(inner.cells))
      ensures Rule(old(inner.cells), width, height, x, y) == Ok(inner.cells)
    {
      ghost var cs := inner.cells;
      RuleInv(cs, width, height, x, y);
      InvWellFormed(cs, width, height);
      InvNoOverflow(cs, width, height, x, y, false);
      InvNoOverflow(cs, width, height, x, y, true);
      var i := x + y * width;
      var n := inner.Count(i);
      var ok;
      if 0 <= n <= 1 || 4 <= n <= 8 {
        ok := inner.Kill(i);
      } else if n == 3 {
        ok := inner.Born(i);
      } else if n == 2 {
      } else {
        assert false;
      }
      InvWellFormed(inner.cells, width, height);
    }

    /** `clone`: a board of the same size whose cells copy state and
        count, rewired by `set_ref`. */
    method Clone() returns (c: Board)
      requires Valid()
      ensures fresh(c) && fresh(c.inner)
      ensures c.width == width && c.height == height && c.inner.cells == inner.cells
      ensures c.Valid()
      ensures SameBoard(c.width, c.height, c.inner.cells, width, height, inner.cells)
    {
      c := new Board(width - 2, height - 2);
      var i := 0;
      while i < |inner.cells|
        invariant 0 <= i <= |inner.cells|
        invariant c.inner.Valid() && |c.inner.cells| == i
        invariant forall k :: 0 <= k < i ==> c.inner.cells[k] == inner.cells[k].(around := [])
      {
        InvWellFormed(inner.cells, width, height);
        c.inner.Push(CloneCell(inner.cells[i]));
        i := i + 1;
      }
      ghost var cl := c.inner.cells;
      c.SetRef();
      RefsSetRestores(inner.cells, cl, c.inner.cells, width, height);
    }

    /** `eq`. */
    method Equals(rhs: Board) returns (r: bool)
      ensures r == SameBoard(width, height, inner.cells, rhs.width, rhs.height, rhs.inner.cells)
    {
      if width != rhs.width || height != rhs.height {
        return false;
      }
      var k := 0;
      while k < |inner.cells| && k < |rhs.inner.cells|
        invariant 0 <= k
        invariant forall j :: 0 <= j < k && j < |inner.cells| && j < |rhs.inner.cells| ==>
          CellEq(inner.cells[j], rhs.inner.cells[j])
      {
        if inner.cells[k].survive != rhs.inner.cells[k].survive {
          return false;
        }
        k := k + 1;
      }
      return true;
    }
  }
}
