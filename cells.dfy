/** A single Game of Life cell and the arena of cells it lives in (src/cell.rs).

    The source links every cell to the cells around it through shared,
    mutable references. Here all cells of one board live in one `Arena`,
    addressed by their flat index, and a relation is the index of the cell
    it refers to. */
module Cells {

  /** The cap checked before a relation is registered (`AROUND_CELLS`).
      The check is `len <= AroundCells`, so a list reaches 9 entries. */
  const AroundCells: nat := 8
  /** The 3x3 block of relations has this many slots ... */
  const Slots: nat := 9
  /** ... and this one is the cell itself, which is never notified. */
  const SelfSlot: nat := 4
  /** Largest value of the `u8` neighbour count. */
  const U8Max: int := 255

  /** `survive` is the alive flag, `count` the cached number of live
      neighbours, `around` the relation list (indices into the arena). */
  datatype Cell = Cell(survive: bool, count: int, around: seq<nat>)

  /** The result of an operation that may hit one of the source's panics. */
  datatype Outcome<T> = Ok(value: T) | Fatal

  function NewCell(): (c: Cell)
    ensures !c.survive && c.count == 0 && c.around == []
  {
    Cell(false, 0, [])
  }

  /** Cloning keeps state and count but drops the relations; they are
      rebuilt by whoever owns the clone. */
  function CloneCell(c: Cell): (r: Cell)
    ensures r.survive == c.survive && r.count == c.count && r.around == []
    ensures CellEq(r, c)
  {
    NewCell().(survive := c.survive, count := c.count)
  }

  /** Two cells are equal when they are both alive or both dead. */
  predicate CellEq(a: Cell, b: Cell)
    ensures CellEq(a, b) <==> a.(count := b.count, around := b.around) == b
  {
    a.survive == b.survive
  }

  /* ---------------- relation lists ---------------- */

  /** `set_arround_cells`: append while the list holds at most 8 entries. */
  function PushCapped(a: seq<nat>, r: nat): (p: seq<nat>)
    ensures |a| <= |p| <= |a| + 1 && p[..|a|] == a
    ensures |a| <= Slots ==> |p| <= Slots
    ensures |p| == |a| + 1 <==> |a| <= AroundCells
    ensures |p| == |a| + 1 ==> p[|a|] == r
  {
    if |a| <= AroundCells then a + [r] else a
  }

  /** Registering the relations `rs` one after another. */
  function PushAll(a: seq<nat>, rs: seq<nat>): seq<nat>
  {
    if rs == [] then a else PushCapped(PushAll(a, rs[..|rs| - 1]), rs[|rs| - 1])
  }

  function Room(a: seq<nat>, rs: seq<nat>): nat
  {
    if |a| > AroundCells then 0
    else if |rs| <= Slots - |a| then |rs| else Slots - |a|
  }

  /** Registering one more relation is one more capped push. */
  lemma PushAllNext(a: seq<nat>, rs: seq<nat>, t: nat)
    requires t < |rs|
    ensures PushAll(a, rs[..t + 1]) == PushCapped(PushAll(a, rs[..t]), rs[t])
  {
    assert rs[..t + 1][..t] == rs[..t];
  }

  /** A list only ever grows to 9 entries: relations beyond that are
      dropped, and a full list takes no more. */
  lemma {:induction false} PushAllCapped(a: seq<nat>, rs: seq<nat>)
    ensures PushAll(a, rs) == a + rs[..Room(a, rs)]
    ensures |a| <= Slots ==> |PushAll(a, rs)| <= Slots
    ensures |a| > AroundCells ==> PushAll(a, rs) == a
  {
    if rs != [] {
      var init := rs[..|rs| - 1];
      PushAllCapped(a, init);
      assert init[..Room(a, init)] == rs[..Room(a, init)];
      if |a| <= AroundCells && |init| < Slots - |a| {
        assert rs[..Room(a, rs)] == rs[..Room(a, init)] + [rs[|rs| - 1]];
      }
    }
  }

  /* ---------------- notification ---------------- */

  /** `n` notifications of a birth (s = true) or of a death (s = false)
      move a count by this much. */
  function Shift(s: bool, n: int): int
  {
    if s then n else -n
  }

  /** How many of the first `t` slots, the self slot excepted, refer to `k`. */
  function HitsBelow(a: seq<nat>, k: nat, t: nat): nat
    requires t <= |a|
  {
    if t == 0 then 0
    else HitsBelow(a, k, t - 1) + (if t - 1 != SelfSlot && a[t - 1] == k then 1 else 0)
  }

  /** How often a cell with relation list `a` notifies cell `k`. */
  function Hits(a: seq<nat>, k: nat): nat
    requires |a| >= Slots
  {
    HitsBelow(a, k, Slots)
  }

  function Hit(a: seq<nat>, k: nat, s: nat): nat
    requires s < |a|
  {
    if a[s] == k then 1 else 0
  }

  /** Hits is the sum over the eight slots other than the self slot. */
  lemma HitsEight(a: seq<nat>, k: nat)
    requires |a| >= Slots
    ensures Hits(a, k) == Hit(a, k, 0) + Hit(a, k, 1) + Hit(a, k, 2) + Hit(a, k, 3)
                        + Hit(a, k, 5) + Hit(a, k, 6) + Hit(a, k, 7) + Hit(a, k, 8)
  {
    assert HitsBelow(a, k, 1) == Hit(a, k, 0);
    assert HitsBelow(a, k, 2) == HitsBelow(a, k, 1) + Hit(a, k, 1);
    assert HitsBelow(a, k, 3) == HitsBelow(a, k, 2) + Hit(a, k, 2);
    assert HitsBelow(a, k, 4) == HitsBelow(a, k, 3) + Hit(a, k, 3);
    assert HitsBelow(a, k, 5) == HitsBelow(a, k, 4);
    assert HitsBelow(a, k, 6) == HitsBelow(a, k, 5) + Hit(a, k, 5);
    assert HitsBelow(a, k, 7) == HitsBelow(a, k, 6) + Hit(a, k, 6);
    assert HitsBelow(a, k, 8) == HitsBelow(a, k, 7) + Hit(a, k, 7);
  }

  lemma {:induction false} HitsBelowMono(a: seq<nat>, k: nat, t: nat, u: nat)
    requires t <= u <= |a|
    ensures HitsBelow(a, k, t) <= HitsBelow(a, k, u)
    decreases u
  {
    if t < u {
      HitsBelowMono(a, k, t, u - 1);
    }
  }

  /** Every relation of list `a` refers to one of `n` cells. */
  predicate Refers(a: seq<nat>, n: nat)
  {
    forall s :: 0 <= s < |a| ==> a[s] < n
  }

  /** The cells after the first `t` slots of `a` have been notified of a
      birth (s = true) or a death (s = false); the self slot is passed over. */
  function Adjusted(cs: seq<Cell>, a: seq<nat>, s: bool, t: nat): (r: seq<Cell>)
    requires t <= |a| && Refers(a, |cs|)
    ensures |r| == |cs|
  {
    if t == 0 then cs
    else
      var r := Adjusted(cs, a, s, t - 1);
      if t - 1 == SelfSlot then r
      else r[a[t - 1] := r[a[t - 1]].(count := r[a[t - 1]].count + Shift(s, 1))]
  }

  lemma AdjustedStep(cs: seq<Cell>, a: seq<nat>, s: bool, t: nat)
    requires t < |a| && Refers(a, |cs|)
    ensures t == SelfSlot ==> Adjusted(cs, a, s, t + 1) == Adjusted(cs, a, s, t)
    ensures t != SelfSlot ==>
      var r := Adjusted(cs, a, s, t);
      Adjusted(cs, a, s, t + 1) == r[a[t] := r[a[t]].(count := r[a[t]].count + Shift(s, 1))]
  {
  }

  /** After `t` slots, each count has moved by one per slot referring to it. */
  lemma {:induction false} AdjustedAt(cs: seq<Cell>, a: seq<nat>, s: bool, t: nat, k: nat)
    requires t <= |a| && Refers(a, |cs|) && k < |cs|
    ensures Adjusted(cs, a, s, t)[k] == cs[k].(count := cs[k].count + Shift(s, HitsBelow(a, k, t)))
  {
    if t > 0 {
      AdjustedAt(cs, a, s, t - 1, k);
    }
  }

  /** `around_cells_notify(s)` as a value: every cell that a slot other than
      the self slot refers to gains one per such slot (loses one for a death), then the cell
      takes the state `s`. */
  function Notified(cs: seq<Cell>, i: nat, s: bool): (r: seq<Cell>)
    requires i < |cs| && |cs[i].around| >= Slots && Refers(cs[i].around, |cs|)
    ensures |r| == |cs| && r[i].survive == s
    ensures forall k :: 0 <= k < |cs| ==>
      r[k].around == cs[k].around &&
      r[k].count == cs[k].count + Shift(s, Hits(cs[i].around, k)) &&
      (k != i ==> r[k].survive == cs[k].survive)
  {
    var r := Adjusted(cs, cs[i].around, s, Slots);
    assert forall k :: 0 <= k < |cs| ==>
      r[k] == cs[k].(count := cs[k].count + Shift(s, Hits(cs[i].around, k))) by {
      forall k | 0 <= k < |cs| {
        AdjustedAt(cs, cs[i].around, s, Slots, k);
      }
    }
    r[i := r[i].(survive := s)]
  }

  /** `born` (s = true) and `kill` (s = false) on cell `i`:
      fatal on an empty relation list (checked before anything else),
      nothing when the cell is already in state `s`,
      fatal when the list is too short for the 3x3 loop,
      otherwise the notification. */
  function Flip(cs: seq<Cell>, i: nat, s: bool): (r: Outcome<seq<Cell>>)
    requires i < |cs| && Refers(cs[i].around, |cs|)
    ensures r.Fatal? <==> |cs[i].around| == 0 || (cs[i].survive != s && |cs[i].around| < Slots)
    ensures r.Ok? ==> |r.value| == |cs| && r.value[i].survive == s
    ensures r.Ok? && cs[i].survive == s ==> r.value == cs
    ensures r.Ok? ==> forall k :: 0 <= k < |cs| ==> r.value[k].around == cs[k].around
  {
    if |cs[i].around| == 0 then Fatal
    else if cs[i].survive == s then Ok(cs)
    else if |cs[i].around| < Slots then Fatal
    else Ok(Notified(cs, i, s))
  }

  /** Every count stays within the `u8` range when cell `i` flips to `s`. */
  ghost predicate NoOverflow(cs: seq<Cell>, i: nat, s: bool)
    requires i < |cs| && |cs[i].around| >= Slots
  {
    forall k :: 0 <= k < |cs| ==> 0 <= cs[k].count + Shift(s, Hits(cs[i].around, k)) <= U8Max
  }

  /** Counts are `u8` values and every relation refers to a cell of the arena. */
  ghost predicate WellFormed(cs: seq<Cell>)
  {
    forall k :: 0 <= k < |cs| ==> 0 <= cs[k].count <= U8Max && Refers(cs[k].around, |cs|)
  }

  /** One slot of the 3x3 loop: the cell it names can take one more
      notification without leaving the `u8` range, and taking it is the
      next step of `Adjusted`. */
  lemma AdjustedNext(cs: seq<Cell>, i: nat, s: bool, t: nat)
    requires WellFormed(cs) && i < |cs| && |cs[i].around| >= Slots
    requires t < Slots && t != SelfSlot && NoOverflow(cs, i, s)
    ensures var a := cs[i].around;
      var r := Adjusted(cs, a, s, t);
      var k := a[t];
      WellFormed(r) && r[i].around == a && k < |r| &&
      (s ==> r[k].count < U8Max) && (!s ==> r[k].count > 0) &&
      Adjusted(cs, a, s, t + 1) == r[k := r[k].(count := r[k].count + Shift(s, 1))]
  {
    var a := cs[i].around;
    var k := a[t];
    AdjustedWellFormed(cs, i, s, t);
    AdjustedAt(cs, a, s, t, i);
    AdjustedAt(cs, a, s, t, k);
    HitsBelowMono(a, k, t + 1, Slots);
  }

  lemma AdjustedWellFormed(cs: seq<Cell>, i: nat, s: bool, t: nat)
    requires WellFormed(cs) && i < |cs| && |cs[i].around| >= Slots && t <= Slots
    requires NoOverflow(cs, i, s)
    ensures WellFormed(Adjusted(cs, cs[i].around, s, t))
  {
    var a := cs[i].around;
    var r := Adjusted(cs, a, s, t);
    forall k | 0 <= k < |cs|
      ensures 0 <= r[k].count <= U8Max && r[k].around == cs[k].around
    {
      AdjustedAt(cs, a, s, t, k);
      HitsBelowMono(a, k, t, Slots);
    }
  }

  /** The cells of one board; the index of a cell replaces the shared
      reference to it. */
  class Arena {
    var cells: seq<Cell>

    ghost predicate Valid()
      reads this
    {
      WellFormed(cells)
    }

    constructor ()
      ensures Valid() && cells == []
    {
      cells := [];
    }

    /** Adds a cell that has no relations yet (the board's `inner.push`). */
    method Push(c: Cell)
      requires Valid() && c.around == [] && 0 <= c.count <= U8Max
      modifies this
      ensures Valid() && cells == old(cells) + [c]
    {
      cells := cells + [c];
    }

    function Survive(i: nat): bool
      reads this
      requires i < |cells|
    {
      cells[i].survive
    }

    function Count(i: nat): int
      reads this
      requires i < |cells|
    {
      cells[i].count
    }

    function RefCount(i: nat): nat
      reads this
      requires i < |cells|
    {
      |cells[i].around|
    }

    /** A neighbour of cell `i` was born. */
    method NotifyBorn(i: nat)
      requires Valid() && i < |cells| && cells[i].count < U8Max
      modifies this
      ensures Valid()
      ensures cells == old(cells)[i := old(cells)[i].(count := old(cells)[i].count + 1)]
    {
      cells := cells[i := cells[i].(count := cells[i].count + 1)];
    }

    /** A neighbour of cell `i` died. */
    method NotifyKill(i: nat)
      requires Valid() && i < |cells| && cells[i].count > 0
      modifies this
      ensures Valid()
      ensures cells == old(cells)[i := old(cells)[i].(count := old(cells)[i].count - 1)]
    {
      cells := cells[i := cells[i].(count := cells[i].count - 1)];
    }

    /** Walks the 3x3 relation block, passing over the self slot, and
        notifies each related cell; then sets the cell's own state. */
    method AroundCellsNotify(i: nat, survive: bool)
      requires Valid() && i < |cells| && |cells[i].around| >= Slots
      requires NoOverflow(cells, i, survive)
      modifies this
      ensures Valid() && cells == Notified(old(cells), i, survive)
    {
      ghost var cs0 := cells;
      ghost var a := cells[i].around;
      var y := 0;
      while y < 3
        invariant 0 <= y <= 3
        invariant cells == Adjusted(cs0, a, survive, y * 3)
      {
        var x := 0;
        while x < 3
          invariant 0 <= x <= 3
          invariant cells == Adjusted(cs0, a, survive, x + y * 3)
        {
          var t := x + y * 3;
          if t != SelfSlot {
            NotifySlot(cs0, i, survive, t);
          } else {
            AdjustedStep(cs0, a, survive, t);
          }
          assert t + 1 == (x + 1) + y * 3;
          x := x + 1;
        }
        assert x + y * 3 == (y + 1) * 3;
        y := y + 1;
      }
      AdjustedWellFormed(cs0, i, survive, Slots);
      AdjustedAt(cs0, a, survive, Slots, i);
      cells := cells[i := cells[i].(survive := survive)];
    }

    /** One pass of the 3x3 loop that is not the self slot: the cell the
        slot names is told of the birth or the death. */
    method NotifySlot(ghost cs0: seq<Cell>, i: nat, survive: bool, t: nat)
      requires WellFormed(cs0) && i < |cs0| && |cs0[i].around| >= Slots
      requires t < Slots && t != SelfSlot && NoOverflow(cs0, i, survive)
      requires cells == Adjusted(cs0, cs0[i].around, survive, t)
      modifies this
      ensures cells == Adjusted(cs0, cs0[i].around, survive, t + 1)
    {
      AdjustedNext(cs0, i, survive, t);
      var k := cells[i].around[t];
      if survive {
        NotifyBorn(k);
      } else {
        NotifyKill(k);
      }
    }

    /** `kill`: the assertion on an empty relation list comes first; a dead
        cell is left alone; otherwise the neighbours are told. `ok` is false
        where the source panics. */
    method Kill(i: nat) returns (ok: bool)
      requires Valid() && i < |cells|
      requires |cells[i].around| >= Slots && cells[i].survive ==> NoOverflow(cells, i, false)
      modifies this
      ensures Valid()
      ensures Flip(old(cells), i, false) == if ok then Ok(cells) else Fatal
    {
      if |cells[i].around| == 0 {
        return false;
      }
      if !cells[i].survive {
        return true;
      }
      if |cells[i].around| < Slots {
        // the 3x3 loop would index past the end of the list
        return false;
      }
      AroundCellsNotify(i, false);
      return true;
    }

    /** `born`: symmetric to `Kill`. */
    method Born(i: nat) returns (ok: bool)
      requires Valid() && i < |cells|
      requires |cells[i].around| >= Slots && !cells[i].survive ==> NoOverflow(cells, i, true)
      modifies this
      ensures Valid()
      ensures Flip(old(cells), i, true) == if ok then Ok(cells) else Fatal
    {
      if |cells[i].around| == 0 {
        return false;
      }
      if cells[i].survive {
        return true;
      }
      if |cells[i].around| < Slots {
        // the 3x3 loop would index past the end of the list
        return false;
      }
      AroundCellsNotify(i, true);
      return true;
    }

    /** `set_arround_cells`: register relation `r` on cell `i`, unless the
        list already holds more than `AroundCells` entries. */
    method SetAroundCells(i: nat, r: nat)
      requires Valid() && i < |cells| && r < |cells|
      modifies this
      ensures Valid()
      ensures cells == old(cells)[i := old(cells)[i].(around := PushCapped(old(cells)[i].around, r))]
    {
      if |cells[i].around| <= AroundCells {
        cells := cells[i := cells[i].(around := cells[i].around + [r])];
      }
    }
  }
}
