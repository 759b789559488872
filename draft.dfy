/** The single-file version of the simulator (src/main.rs). Its cells
    update their neighbours through one search routine that applies a
    count operation, the board wires every interior cell without a cap,
    and `set_boardstate` takes a raw position and only ever gives birth. */
module Draft {
  import opened Cells
  import opened Grid

  /** The two count operations handed to `cell_search`. */
  function Inc(v: int): (r: int)
    ensures r > v && Dec(r) == v
  {
    v + 1
  }

  function Dec(v: int): (r: int)
    ensures r < v
  {
    v - 1
  }

  /** The cells after the first `t` slots of `a` had `op` applied to their
      counts; the self slot is passed over. */
  function Searched(cs: seq<Cell>, a: seq<nat>, op: int -> int, t: nat): (r: seq<Cell>)
    requires t <= |a| && Refers(a, |cs|)
    ensures |r| == |cs|
  {
    if t == 0 then cs
    else
      var r := Searched(cs, a, op, t - 1);
      if t - 1 == SelfSlot then r
      else r[a[t - 1] := r[a[t - 1]].(count := op(r[a[t - 1]].count))]
  }

  /** Searching touches counts only. */
  lemma {:induction false} SearchedFrame(cs: seq<Cell>, a: seq<nat>, op: int -> int, t: nat, k: nat)
    requires t <= |a| && Refers(a, |cs|) && k < |cs|
    ensures Searched(cs, a, op, t)[k].around == cs[k].around
    ensures Searched(cs, a, op, t)[k].survive == cs[k].survive
  {
    if t > 0 {
      SearchedFrame(cs, a, op, t - 1, k);
    }
  }

  /** `cell_search(op, switch)` on cell `i` as a value. */
  function SearchedAll(cs: seq<Cell>, i: nat, op: int -> int, s: bool): (r: seq<Cell>)
    requires i < |cs| && |cs[i].around| >= Slots && Refers(cs[i].around, |cs|)
    ensures |r| == |cs| && r[i].survive == s
    ensures forall k :: 0 <= k < |cs| ==> r[k].around == cs[k].around
  {
    var r := Searched(cs, cs[i].around, op, Slots);
    forall k | 0 <= k < |cs|
      ensures r[k].around == cs[k].around
    {
      SearchedFrame(cs, cs[i].around, op, Slots, k);
    }
    r[i := r[i].(survive := s)]
  }

  /** Searching with `Inc` (`Dec`) is notifying of a birth (a death). */
  lemma {:induction false} SearchedIsAdjusted(cs: seq<Cell>, a: seq<nat>, t: nat)
    requires t <= |a| && Refers(a, |cs|)
    ensures Searched(cs, a, Inc, t) == Adjusted(cs, a, true, t)
    ensures Searched(cs, a, Dec, t) == Adjusted(cs, a, false, t)
  {
    if t > 0 {
      SearchedIsAdjusted(cs, a, t - 1);
    }
  }

  /** So the draft's `born` and `kill` change the cells exactly as those
      of src/cell.rs do. */
  lemma SearchedNotified(cs: seq<Cell>, i: nat, s: bool)
    requires i < |cs| && |cs[i].around| >= Slots && Refers(cs[i].around, |cs|)
    ensures SearchedAll(cs, i, if s then Inc else Dec, s) == Notified(cs, i, s)
  {
    SearchedIsAdjusted(cs, cs[i].around, Slots);
  }

  /** The interior cells before (x, y) in row-major order are wired, the
      others have no relations yet, and every cell is dead with count 0. */
  ghost predicate WiredBefore(cs: seq<Cell>, w: nat, h: nat, x: int, y: int)
  {
    |cs| == w * h &&
    (forall k :: 0 <= k < |cs| ==> !cs[k].survive && cs[k].count == 0) &&
    forall a, b {:trigger cs[Idx(w, h, a, b)]} :: InGrid(w, h, a, b) ==>
      cs[Idx(w, h, a, b)].around ==
        if IsInterior(w, h, a, b) && (b < y || (b == y && a < x)) then Wiring(w, h, a, b) else []
  }

  lemma WiredBeforeStep(cs: seq<Cell>, w: nat, h: nat, x: int, y: int)
    requires WiredBefore(cs, w, h, x, y) && IsInterior(w, h, x, y)
    ensures var k := Idx(w, h, x, y);
      WiredBefore(cs[k := cs[k].(around := cs[k].around + Wiring(w, h, x, y))], w, h, x + 1, y)
  {
    var k := Idx(w, h, x, y);
    assert cs[k].around == [];
    assert cs[k].around + Wiring(w, h, x, y) == Wiring(w, h, x, y);
    var r := cs[k := cs[k].(around := cs[k].around + Wiring(w, h, x, y))];
    forall a, b | InGrid(w, h, a, b)
      ensures r[Idx(w, h, a, b)].around ==
        if IsInterior(w, h, a, b) && (b < y || (b == y && a < x + 1)) then Wiring(w, h, a, b) else []
    {
      if Idx(w, h, a, b) == k {
        IdxInjective(w, h, a, b, x, y);
      }
    }
  }

  lemma WiredBeforeRow(cs: seq<Cell>, w: nat, h: nat, x: int, y: int)
    requires WiredBefore(cs, w, h, x, y) && w - 1 <= x
    ensures WiredBefore(cs, w, h, 1, y + 1)
  {
  }

  /** Once every interior row is done the board is wired and keeps the
      invariant. */
  lemma WiredBeforeDone(cs: seq<Cell>, w: nat, h: nat, y: int)
    requires WiredBefore(cs, w, h, 1, y) && h - 1 <= y
    ensures Inv(cs, w, h)
  {
    BlankInv(cs, w, h);
  }

  /** The draft's cells, with counts as unbounded integers. */
  class Heap {
    var cells: seq<Cell>

    ghost predicate Valid()
      reads this
    {
      AllRefer(cells)
    }

    constructor ()
      ensures Valid() && cells == []
    {
      cells := [];
    }

    method Push(c: Cell)
      requires Valid() && c.around == []
      modifies this
      ensures Valid() && cells == old(cells) + [c]
    {
      cells := cells + [c];
    }

    function Count(i: nat): int
      reads this
      requires i < |cells|
    {
      cells[i].count
    }

    /** `around_cells.push`, without the cap of src/cell.rs. */
    method Append(i: nat, r: nat)
      requires Valid() && i < |cells| && r < |cells|
      modifies this
      ensures Valid()
      ensures cells == old(cells)[i := old(cells)[i].(around := old(cells)[i].around + [r])]
    {
      cells := cells[i := cells[i].(around := cells[i].around + [r])];
    }

    /** `cell_search`: apply `op` to the count of the cell in every slot
        but the self slot, then take state `switch`. */
    method CellSearch(i: nat, op: int -> int, switch: bool)
      requires Valid() && i < |cells| && |cells[i].around| >= Slots
      modifies this
      ensures Valid() && cells == SearchedAll(old(cells), i, op, switch)
    {
      ghost var cs0 := cells;
      ghost var a := cells[i].around;
      var y := 0;
      while y < 3
        invariant 0 <= y <= 3
        invariant cells == Searched(cs0, a, op, y * 3)
      {
        var x := 0;
        while x < 3
          invariant 0 <= x <= 3
          invariant cells == Searched(cs0, a, op, x + y * 3)
        {
          var t := x + y * 3;
          if !(x == y && x == 1) {
            SearchSlot(cs0, i, op, t);
          } else {
            assert Searched(cs0, a, op, t + 1) == Searched(cs0, a, op, t);
          }
          assert t + 1 == (x + 1) + y * 3;
          x := x + 1;
        }
        assert x + y * 3 == (y + 1) * 3;
        y := y + 1;
      }
      cells := cells[i := cells[i].(survive := switch)];
      assert cells == SearchedAll(cs0, i, op, switch);
      assert forall k :: 0 <= k < |cells| ==> cells[k].around == cs0[k].around;
    }

    /** One pass of the 3x3 loop that is not the self slot: read the
        count, then store `op` of it. */
    method SearchSlot(ghost cs0: seq<Cell>, i: nat, op: int -> int, t: nat)
      requires AllRefer(cs0) && i < |cs0| && |cs0[i].around| >= Slots
      requires t < Slots && t != SelfSlot
      requires cells == Searched(cs0, cs0[i].around, op, t)
      modifies this
      ensures cells == Searched(cs0, cs0[i].around, op, t + 1)
    {
      SearchedFrame(cs0, cs0[i].around, op, t, i);
      var k := cells[i].around[t];
      var v := cells[k].count;
      cells := cells[k := cells[k].(count := op(v))];
    }

    /** `kill`, with the count operation `v - 1`. */
    method Kill(i: nat) returns (ok: bool)
      requires Valid() && i < |cells|
      modifies this
      ensures Valid()
      ensures Flip(old(cells), i, false) == if ok then Ok(cells) else Fatal
      ensures !ok ==> cells == old(cells)
    {
      if |cells[i].around| == 0 {
        return false;
      }
      if !cells[i].survive {
        return true;
      }
      if |cells[i].around| < Slots {
        return false;
      }
      SearchedNotified(cells, i, false);
      CellSearch(i, Dec, false);
      return true;
    }

    /** `born`, with the count operation `v + 1`. */
    method Born(i: nat) returns (ok: bool)
      requires Valid() && i < |cells|
      modifies this
      ensures Valid()
      ensures Flip(old(cells), i, true) == if ok then Ok(cells) else Fatal
      ensures !ok ==> cells == old(cells)
    {
      if |cells[i].around| == 0 {
        return false;
      }
      if cells[i].survive {
        return true;
      }
      if |cells[i].around| < Slots {
        return false;
      }
      SearchedNotified(cells, i, true);
      CellSearch(i, Inc, true);
      return true;
    }
  }

  class Board {
    /** Sizes including the border ring: `new` adds none. */
    const width: nat
    const height: nat
    const heap: Heap

    ghost predicate Valid()
      reads this, heap
    {
      heap.Valid() && Inv(heap.cells, width, height)
    }

    /** `new`: one dead cell per position, then every interior cell
        registers its 3x3 block. `height - 1` underflows for an empty
        board, and `width - 1` once an interior row is visited. */
    constructor (w: nat, h: nat)
      requires 1 <= h && (3 <= h ==> 1 <= w)
      ensures width == w && height == h && fresh(heap)
      ensures Valid()
      ensures forall k :: 0 <= k < |heap.cells| ==> !heap.cells[k].survive && heap.cells[k].count == 0
    {
      width := w;
      height := h;
      heap := new Heap();
      new;
      Allocate();
      Wire();
    }

    /** The first loops of `new`: one dead cell per position, row by row. */
    method Allocate()
      requires heap.Valid() && heap.cells == []
      modifies heap
      ensures WiredBefore(heap.cells, width, height, 1, 1) && heap.Valid()
    {
      var y := 0;
      while y < height
        invariant 0 <= y <= height
        invariant heap.Valid() && |heap.cells| == y * width
        invariant forall k :: 0 <= k < |heap.cells| ==> heap.cells[k] == NewCell()
      {
        var x := 0;
        while x < width
          invariant 0 <= x <= width
          invariant heap.Valid() && |heap.cells| == x + y * width
          invariant forall k :: 0 <= k < |heap.cells| ==> heap.cells[k] == NewCell()
        {
          heap.Push(NewCell());
          x := x + 1;
        }
        assert (y + 1) * width == y * width + width;
        y := y + 1;
      }
    }

    /** The wiring loops of `new`: every interior cell, row by row. */
    method Wire()
      requires 1 <= height && (3 <= height ==> 1 <= width)
      requires heap.Valid() && WiredBefore(heap.cells, width, height, 1, 1)
      modifies heap
      ensures Valid()
      ensures forall k :: 0 <= k < |heap.cells| ==> !heap.cells[k].survive && heap.cells[k].count == 0
    {
      var y := 1;
      while y < height - 1
        invariant 1 <= y && (3 <= height ==> y <= height - 1)
        invariant heap.Valid() && WiredBefore(heap.cells, width, height, 1, y)
      {
        var x := 1;
        while x < width - 1
          invariant 1 <= x && (2 <= width ==> x <= width - 1)
          invariant heap.Valid() && WiredBefore(heap.cells, width, height, x, y)
        {
          WiredBeforeStep(heap.cells, width, height, x, y);
          AppendAround(x, y);
          x := x + 1;
        }
        WiredBeforeRow(heap.cells, width, height, x, y);
        y := y + 1;
      }
      WiredBeforeDone(heap.cells, width, height, y);
    }

    /** The two inner loops of `new` for interior cell (x, y). */
    method AppendAround(x: nat, y: nat)
      requires heap.Valid() && |heap.cells| == width * height && IsInterior(width, height, x, y)
      modifies heap
      ensures heap.Valid()
      ensures var k := Idx(width, height, x, y);
        heap.cells == old(heap.cells)[k := old(heap.cells)[k].(around :=
          old(heap.cells)[k].around + Wiring(width, height, x, y))]
    {
      ghost var cs0 := heap.cells;
      ghost var k := Idx(width, height, x, y);
      ghost var a0 := cs0[k].around;
      ghost var ws := Wiring(width, height, x, y);
      assert a0 + ws[..0] == a0;
      assert cs0[k := cs0[k].(around := a0 + ws[..0])] == cs0;
      var i := 0;
      while i < 3
        invariant 0 <= i <= 3
        invariant heap.Valid() && heap.cells == cs0[k := cs0[k].(around := a0 + ws[..3 * i])]
      {
        var j := 0;
        while j < 3
          invariant 0 <= j <= 3
          invariant heap.Valid() && heap.cells == cs0[k := cs0[k].(around := a0 + ws[..j + 3 * i])]
        {
          WiringSlot(width, height, x, y, i, j);
          assert a0 + ws[..j + 3 * i + 1] == (a0 + ws[..j + 3 * i]) + [ws[j + 3 * i]];
          heap.Append(Idx(width, height, x, y), Idx(width, height, x - 1 + j, y + 1 - i));
          j := j + 1;
        }
        i := i + 1;
      }
      assert ws[..Slots] == ws;
    }

    /** `set_boardstate`: birth at the raw index x + y * width; an index
        past the board or a border cell is a panic. */
    method SetBoardstate(x: nat, y: nat) returns (ok: bool)
      requires Valid()
      modifies heap
      ensures Valid()
      ensures x + y * width >= |old(heap.cells)| ==> !ok && heap.cells == old(heap.cells)
      ensures x + y * width < |old(heap.cells)| ==>
        Flip(old(heap.cells), x + y * width, true) == if ok then Ok(heap.cells) else Fatal
    {
      var i := x + y * width;
      if i >= |heap.cells| {
        return false;
      }
      ghost var cs := heap.cells;
      var a, b := IdxOnto(width, height, i);
      assert cs[Idx(width, height, a, b)].around == if IsInterior(width, height, a, b) then Wiring(width, height, a, b) else [];
      if IsInterior(width, height, a, b) && !cs[i].survive {
        NotifiedInv(cs, width, height, a, b, true);
      }
      ok := heap.Born(i);
    }

    /** `refresh`: the same generation as src/board.rs. */
    method Refresh()
      requires Valid()
      modifies heap
      ensures Valid()
      ensures Generation(old(heap.cells), width, height) == Ok(heap.cells)
      ensures BorderKept(old(heap.cells), heap.cells, width, height)
    {
      ghost var target := Generation(heap.cells, width, height);
      GenerationInv(heap.cells, width, height);
      var y := 1;
      while y < height - 1
        invariant 1 <= y && (2 <= height ==> y <= height - 1)
        invariant Valid() && AllRefer(heap.cells)
        invariant RowsFrom(heap.cells, width, height, y) == target
      {
        RowFromInv(heap.cells, width, height, 1, y);
        var x := 1;
        while x < width - 1
          invariant 1 <= x && (2 <= width ==> x <= width - 1)
          invariant Valid() && AllRefer(heap.cells)
          invariant RowFrom(heap.cells, width, height, x, y).Ok?
          invariant RowsFrom(RowFrom(heap.cells, width, height, x, y).value, width, height, y + 1) == target
        {
          ghost var before := heap.cells;
          RuleStep(x, y);
          assert RowFrom(before, width, height, x, y) == RowFrom(heap.cells, width, height, x + 1, y);
          x := x + 1;
        }
        y := y + 1;
      }
    }

    /** The body of `refresh` for interior cell (x, y). */
    method RuleStep(x: nat, y: nat)
      requires Valid() && IsInterior(width, height, x, y)
      modifies heap
      ensures Valid() && AllRefer(old(heap.cells))
      ensures Rule(old(heap.cells), width, height, x, y) == Ok(heap.cells)
    {
      ghost var cs := heap.cells;
      RuleInv(cs, width, height, x, y);
      InvWellFormed(cs, width, height);
      var i := x + y * width;
      var n := heap.Count(i);
      var ok;
      if 0 <= n <= 1 || 4 <= n <= 8 {
        ok := heap.Kill(i);
      } else if n == 3 {
        ok := heap.Born(i);
      } else if n == 2 {
      } else {
        assert false;
      }
      InvWellFormed(heap.cells, width, height);
    }
  }
}
