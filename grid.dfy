/** The geometry of a padded board and the generation rule, shared by the
    board of src/board.rs and the earlier board of src/main.rs.

    A board of `w` by `h` cells (border included) stores cell (x, y) at
    flat index x + y * w, row by row. */
module Grid {
  import opened Cells

  predicate InGrid(w: int, h: int, x: int, y: int)
  {
    0 <= x < w && 0 <= y < h
  }

  /** Not on the one-cell border. */
  predicate IsInterior(w: int, h: int, x: int, y: int)
  {
    1 <= x <= w - 2 && 1 <= y <= h - 2
  }

  /** (a, b) is one of the eight cells around (x, y). */
  predicate Adjacent(x: int, y: int, a: int, b: int)
  {
    -1 <= a - x <= 1 && -1 <= b - y <= 1 && (a != x || b != y)
  }

  lemma {:induction false} MulLe(a: int, b: int, w: nat)
    requires a <= b
    ensures a * w <= b * w
  {
    if w > 0 {
      MulLe(a, b, w - 1);
      assert a * w == a * (w - 1) + a;
      assert b * w == b * (w - 1) + b;
    }
  }

  /** The flat index of (x, y). */
  function Idx(w: nat, h: nat, x: int, y: int): (k: nat)
    requires InGrid(w, h, x, y)
    ensures k < w * h
  {
    MulLe(y + 1, h, w);
    MulLe(0, y, w);
    assert (y + 1) * w == y * w + w;
    x + y * w
  }

  /** Distinct cells have distinct indices. */
  lemma IdxInjective(w: nat, h: nat, x1: int, y1: int, x2: int, y2: int)
    requires InGrid(w, h, x1, y1) && InGrid(w, h, x2, y2)
    requires Idx(w, h, x1, y1) == Idx(w, h, x2, y2)
    ensures x1 == x2 && y1 == y2
  {
    if y1 < y2 {
      MulLe(1, y2 - y1, w);
    } else if y2 < y1 {
      MulLe(1, y1 - y2, w);
    }
  }

  /** Every index of the board is the index of some cell. */
  lemma IdxOnto(w: nat, h: nat, k: int) returns (x: int, y: int)
    requires 0 <= k < w * h
    ensures InGrid(w, h, x, y) && Idx(w, h, x, y) == k
  {
    x, y := k % w, k / w;
    assert k == x + y * w;
    if y >= h {
      MulLe(h, y, w);
      MulLe(0, y, w);
    }
  }

  /* ---------------- wiring ---------------- */

  /** The relations registered for interior cell (x, y): the 3x3 block
      around it, the row below (y + 1) first, the cell itself in the
      self slot. */
  function Wiring(w: nat, h: nat, x: int, y: int): (a: seq<nat>)
    requires IsInterior(w, h, x, y)
    ensures |a| == Slots && a[SelfSlot] == Idx(w, h, x, y) && Refers(a, w * h)
  {
    [Idx(w, h, x - 1, y + 1), Idx(w, h, x, y + 1), Idx(w, h, x + 1, y + 1),
     Idx(w, h, x - 1, y),     Idx(w, h, x, y),     Idx(w, h, x + 1, y),
     Idx(w, h, x - 1, y - 1), Idx(w, h, x, y - 1), Idx(w, h, x + 1, y - 1)]
  }

  /** Slot j + 3 * i refers to the cell at (x - 1 + j, y + 1 - i). */
  lemma WiringSlot(w: nat, h: nat, x: int, y: int, i: int, j: int)
    requires IsInterior(w, h, x, y) && 0 <= i < 3 && 0 <= j < 3
    ensures Wiring(w, h, x, y)[j + 3 * i] == Idx(w, h, x - 1 + j, y + 1 - i)
  {
    var a := Wiring(w, h, x, y);
    if i == 0 {
      assert a[j] == Idx(w, h, x - 1 + j, y + 1);
    } else if i == 1 {
      assert a[j + 3] == Idx(w, h, x - 1 + j, y);
    } else {
      assert a[j + 6] == Idx(w, h, x - 1 + j, y - 1);
    }
  }

  /** A wired cell notifies exactly the eight cells around it, once each,
      and never itself. */
  lemma WiringHits(w: nat, h: nat, x: int, y: int, a: int, b: int)
    requires IsInterior(w, h, x, y) && InGrid(w, h, a, b)
    ensures Hits(Wiring(w, h, x, y), Idx(w, h, a, b)) == if Adjacent(x, y, a, b) then 1 else 0
  {
    var ws := Wiring(w, h, x, y);
    var k := Idx(w, h, a, b);
    HitsEight(ws, k);
    forall p, q | InGrid(w, h, p, q) && Idx(w, h, p, q) == k
      ensures p == a && q == b
    {
      IdxInjective(w, h, p, q, a, b);
    }
  }

  /** Every board cell has this relation list once the board is wired. */
  ghost predicate Wired(cs: seq<Cell>, w: nat, h: nat)
  {
    |cs| == w * h &&
    forall x, y {:trigger cs[Idx(w, h, x, y)]} :: InGrid(w, h, x, y) ==>
      cs[Idx(w, h, x, y)].around == if IsInterior(w, h, x, y) then Wiring(w, h, x, y) else []
  }

  /* ---------------- the neighbour-count invariant ---------------- */

  function AliveAt(cs: seq<Cell>, w: nat, h: nat, x: int, y: int): (n: nat)
    requires |cs| == w * h
  {
    if InGrid(w, h, x, y) && cs[Idx(w, h, x, y)].survive then 1 else 0
  }

  /** The number of live cells among the eight around (x, y). */
  function AliveAround(cs: seq<Cell>, w: nat, h: nat, x: int, y: int): (n: int)
    requires |cs| == w * h
    ensures 0 <= n <= 8
  {
    AliveAt(cs, w, h, x - 1, y - 1) + AliveAt(cs, w, h, x, y - 1) + AliveAt(cs, w, h, x + 1, y - 1) +
    AliveAt(cs, w, h, x - 1, y) + AliveAt(cs, w, h, x + 1, y) +
    AliveAt(cs, w, h, x - 1, y + 1) + AliveAt(cs, w, h, x, y + 1) + AliveAt(cs, w, h, x + 1, y + 1)
  }

  /** Every cached count, border cells' included, is the number of live
      cells around. */
  ghost predicate Counted(cs: seq<Cell>, w: nat, h: nat)
    requires |cs| == w * h
  {
    forall x, y {:trigger AliveAround(cs, w, h, x, y)} :: InGrid(w, h, x, y) ==>
      cs[Idx(w, h, x, y)].count == AliveAround(cs, w, h, x, y)
  }

  /** The board invariant: wired, and every count up to date. */
  ghost predicate Inv(cs: seq<Cell>, w: nat, h: nat)
  {
    Wired(cs, w, h) && Counted(cs, w, h)
  }

  /** A wired board whose cells are all dead with count 0 keeps the
      invariant. */
  lemma BlankInv(cs: seq<Cell>, w: nat, h: nat)
    requires Wired(cs, w, h)
    requires forall k :: 0 <= k < |cs| ==> !cs[k].survive && cs[k].count == 0
    ensures Inv(cs, w, h)
  {
    forall x, y | InGrid(w, h, x, y)
      ensures cs[Idx(w, h, x, y)].count == AliveAround(cs, w, h, x, y)
    {
    }
  }

  /** Every relation of every cell refers to a cell of the board. */
  predicate AllRefer(cs: seq<Cell>)
  {
    forall k :: 0 <= k < |cs| ==> Refers(cs[k].around, |cs|)
  }

  /** A board that keeps the invariant is a well-formed arena: its counts
      are in 0..8, so within `u8`, and its relations stay on the board. */
  lemma InvWellFormed(cs: seq<Cell>, w: nat, h: nat)
    requires Inv(cs, w, h)
    ensures WellFormed(cs) && AllRefer(cs)
    ensures forall k :: 0 <= k < |cs| ==> 0 <= cs[k].count <= 8
  {
    forall k | 0 <= k < |cs|
      ensures 0 <= cs[k].count <= 8 && Refers(cs[k].around, |cs|)
    {
      var x, y := IdxOnto(w, h, k);
      assert cs[k].count == AliveAround(cs, w, h, x, y);
    }
  }

  /** Flipping cell (x, y) changes the live-cell tally of (a, b) exactly
      when (x, y) is one of the eight cells around (a, b). */
  lemma AliveAroundFlip(cs: seq<Cell>, r: seq<Cell>, w: nat, h: nat, x: int, y: int, s: bool, a: int, b: int)
    requires |cs| == w * h && |r| == w * h && InGrid(w, h, x, y)
    requires cs[Idx(w, h, x, y)].survive == !s && r[Idx(w, h, x, y)].survive == s
    requires forall k :: 0 <= k < |cs| && k != Idx(w, h, x, y) ==> r[k].survive == cs[k].survive
    ensures AliveAround(r, w, h, a, b) == AliveAround(cs, w, h, a, b) + if Adjacent(x, y, a, b) then Shift(s, 1) else 0
  {
    forall p, q
      ensures AliveAt(r, w, h, p, q) == AliveAt(cs, w, h, p, q) + if p == x && q == y then Shift(s, 1) else 0
    {
      if InGrid(w, h, p, q) && Idx(w, h, p, q) == Idx(w, h, x, y) {
        IdxInjective(w, h, p, q, x, y);
      }
    }
  }

  /** A live cell adds one to the tally of each cell around it. */
  lemma AliveAroundCounts(cs: seq<Cell>, w: nat, h: nat, x: int, y: int, a: int, b: int)
    requires |cs| == w * h && Adjacent(x, y, a, b)
    ensures AliveAround(cs, w, h, a, b) >= AliveAt(cs, w, h, x, y)
  {
  }

  /** The invariant keeps every count of a flip within `u8`: a birth adds
      to counts of at most 8, a death takes from counts that include it. */
  lemma InvNoOverflow(cs: seq<Cell>, w: nat, h: nat, x: int, y: int, s: bool)
    requires Inv(cs, w, h) && IsInterior(w, h, x, y)
    ensures |cs[Idx(w, h, x, y)].around| == Slots
    ensures cs[Idx(w, h, x, y)].survive != s ==> NoOverflow(cs, Idx(w, h, x, y), s)
  {
    var i := Idx(w, h, x, y);
    if cs[i].survive != s {
      forall k | 0 <= k < |cs|
        ensures 0 <= cs[k].count + Shift(s, Hits(cs[i].around, k)) <= U8Max
      {
        var a, b := IdxOnto(w, h, k);
        assert cs[k].count == AliveAround(cs, w, h, a, b);
        WiringHits(w, h, x, y, a, b);
        if Adjacent(x, y, a, b) {
          AliveAroundCounts(cs, w, h, x, y, a, b);
        }
      }
    }
  }

  /** A cell's flip leaves its own count alone: the self slot is skipped
      and no other slot refers to it. */
  lemma NotifiedOwnCount(cs: seq<Cell>, w: nat, h: nat, x: int, y: int, s: bool)
    requires Wired(cs, w, h) && IsInterior(w, h, x, y)
    ensures Notified(cs, Idx(w, h, x, y), s)[Idx(w, h, x, y)].count == cs[Idx(w, h, x, y)].count
  {
    WiringHits(w, h, x, y, x, y);
  }

  /** Born or killed interior cells keep the invariant: each count moves by
      one exactly where the live-cell tally does. */
  lemma NotifiedInv(cs: seq<Cell>, w: nat, h: nat, x: int, y: int, s: bool)
    requires Inv(cs, w, h) && IsInterior(w, h, x, y) && cs[Idx(w, h, x, y)].survive != s
    ensures Inv(Notified(cs, Idx(w, h, x, y), s), w, h)
  {
    var i := Idx(w, h, x, y);
    var r := Notified(cs, i, s);
    forall a, b | InGrid(w, h, a, b)
      ensures r[Idx(w, h, a, b)].count == AliveAround(r, w, h, a, b)
    {
      WiringHits(w, h, x, y, a, b);
      AliveAroundFlip(cs, r, w, h, x, y, s, a, b);
    }
  }

  /* ---------------- one generation ---------------- */

  /** The rule applied to interior cell (x, y) during `refresh`, reading
      the cell's count as it stands at that point of the scan:
      0, 1 and 4..8 kill, 3 gives birth, 2 keeps the state, any other
      count is the fatal "outside 0..8" arm. */
  function Rule(cs: seq<Cell>, w: nat, h: nat, x: int, y: int): (r: Outcome<seq<Cell>>)
    requires |cs| == w * h && AllRefer(cs) && IsInterior(w, h, x, y)
    ensures r.Ok? ==> |r.value| == |cs| && AllRefer(r.value)
  {
    var i := Idx(w, h, x, y);
    var n := cs[i].count;
    if 0 <= n <= 1 || 4 <= n <= 8 then Flip(cs, i, false)
    else if n == 3 then Flip(cs, i, true)
    else if n == 2 then Ok(cs)
    else Fatal
  }

  /** The rest of row y, from column x up to the last interior column. */
  function RowFrom(cs: seq<Cell>, w: nat, h: nat, x: int, y: int): (r: Outcome<seq<Cell>>)
    requires |cs| == w * h && AllRefer(cs) && 1 <= x && 1 <= y <= h - 2
    ensures r.Ok? ==> |r.value| == |cs| && AllRefer(r.value)
    decreases w - x
  {
    if x > w - 2 then Ok(cs)
    else
      match Rule(cs, w, h, x, y)
      case Fatal => Fatal
      case Ok(next) => RowFrom(next, w, h, x + 1, y)
  }

  /** The interior rows from row y on, each in turn. */
  function RowsFrom(cs: seq<Cell>, w: nat, h: nat, y: int): (r: Outcome<seq<Cell>>)
    requires |cs| == w * h && AllRefer(cs) && 1 <= y
    ensures r.Ok? ==> |r.value| == |cs| && AllRefer(r.value)
    decreases h - y
  {
    if y > h - 2 then Ok(cs)
    else
      match RowFrom(cs, w, h, 1, y)
      case Fatal => Fatal
      case Ok(next) => RowsFrom(next, w, h, y + 1)
  }

  /** One `refresh`: every interior cell in row-major order, in place, so
      a cell reads counts already changed by the cells visited before it. */
  function Generation(cs: seq<Cell>, w: nat, h: nat): (r: Outcome<seq<Cell>>)
    requires |cs| == w * h && AllRefer(cs)
    ensures r.Ok? ==> |r.value| == |cs| && AllRefer(r.value)
  {
    RowsFrom(cs, w, h, 1)
  }

  /** Only interior cells change state. */
  ghost predicate BorderKept(cs: seq<Cell>, r: seq<Cell>, w: nat, h: nat)
    requires |cs| == w * h && |r| == w * h
  {
    forall x, y {:trigger r[Idx(w, h, x, y)]} :: InGrid(w, h, x, y) && !IsInterior(w, h, x, y) ==>
      r[Idx(w, h, x, y)].survive == cs[Idx(w, h, x, y)].survive
  }

  lemma BorderKeptTrans(a: seq<Cell>, b: seq<Cell>, c: seq<Cell>, w: nat, h: nat)
    requires |a| == w * h && |b| == w * h && |c| == w * h
    requires BorderKept(a, b, w, h) && BorderKept(b, c, w, h)
    ensures BorderKept(a, c, w, h)
  {
  }

  /** On a board that keeps the invariant the rule never fails, follows
      B3/S23 at the visited cell, changes no other cell's state, and keeps
      the invariant. */
  lemma RuleInv(cs: seq<Cell>, w: nat, h: nat, x: int, y: int)
    requires Inv(cs, w, h) && IsInterior(w, h, x, y)
    ensures AllRefer(cs)
    ensures Rule(cs, w, h, x, y).Ok?
    ensures var r := Rule(cs, w, h, x, y).value;
      var i := Idx(w, h, x, y);
      Inv(r, w, h) &&
      r[i].survive == (cs[i].count == 3 || (cs[i].count == 2 && cs[i].survive)) &&
      (forall k :: 0 <= k < |cs| && k != i ==> r[k].survive == cs[k].survive) &&
      BorderKept(cs, r, w, h)
  {
    InvWellFormed(cs, w, h);
    var i := Idx(w, h, x, y);
    var n := cs[i].count;
    if (0 <= n <= 1 || 4 <= n <= 8) && cs[i].survive {
      NotifiedInv(cs, w, h, x, y, false);
    } else if n == 3 && !cs[i].survive {
      NotifiedInv(cs, w, h, x, y, true);
    }
    forall a, b | InGrid(w, h, a, b) && Idx(w, h, a, b) == i
      ensures IsInterior(w, h, a, b)
    {
      IdxInjective(w, h, a, b, x, y);
    }
  }

  /** The part of RuleInv that a whole row needs. */
  lemma RuleKeeps(cs: seq<Cell>, w: nat, h: nat, x: int, y: int)
    requires Inv(cs, w, h) && IsInterior(w, h, x, y)
    ensures AllRefer(cs) && Rule(cs, w, h, x, y).Ok?
    ensures Inv(Rule(cs, w, h, x, y).value, w, h)
    ensures BorderKept(cs, Rule(cs, w, h, x, y).value, w, h)
  {
    RuleInv(cs, w, h, x, y);
  }

  lemma {:induction false} RowFromInv(cs: seq<Cell>, w: nat, h: nat, x: int, y: int)
    requires Inv(cs, w, h) && AllRefer(cs) && 1 <= x && 1 <= y <= h - 2
    ensures var r := RowFrom(cs, w, h, x, y);
      r.Ok? && Inv(r.value, w, h) && BorderKept(cs, r.value, w, h)
    decreases w - x
  {
    if x <= w - 2 {
      RuleKeeps(cs, w, h, x, y);
      var next := Rule(cs, w, h, x, y).value;
      assert Rule(cs, w, h, x, y) == Ok(next);
      RowFromInv(next, w, h, x + 1, y);
      var r := RowFrom(next, w, h, x + 1, y);
      assert RowFrom(cs, w, h, x, y) == r;
      BorderKeptTrans(cs, next, r.value, w, h);
    }
  }

  lemma {:induction false} RowsFromInv(cs: seq<Cell>, w: nat, h: nat, y: int)
    requires Inv(cs, w, h) && AllRefer(cs) && 1 <= y
    ensures var r := RowsFrom(cs, w, h, y);
      r.Ok? && Inv(r.value, w, h) && BorderKept(cs, r.value, w, h)
    decreases h - y
  {
    if y <= h - 2 {
      RowFromInv(cs, w, h, 1, y);
      var next := RowFrom(cs, w, h, 1, y).value;
      assert RowFrom(cs, w, h, 1, y) == Ok(next);
      RowsFromInv(next, w, h, y + 1);
      var r := RowsFrom(next, w, h, y + 1);
      assert RowsFrom(cs, w, h, y) == r;
      BorderKeptTrans(cs, next, r.value, w, h);
    }
  }

  /** A generation on a board that keeps the invariant never reaches a
      panic, keeps the invariant (so every count stays in 0..8), and
      leaves the border cells' states alone. */
  lemma GenerationInv(cs: seq<Cell>, w: nat, h: nat)
    requires Inv(cs, w, h)
    ensures AllRefer(cs)
    ensures Generation(cs, w, h).Ok?
    ensures Inv(Generation(cs, w, h).value, w, h)
    ensures BorderKept(cs, Generation(cs, w, h).value, w, h)
  {
    InvWellFormed(cs, w, h);
    RowsFromInv(cs, w, h, 1);
  }
}
