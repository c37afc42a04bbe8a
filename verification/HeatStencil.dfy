/**
  The heat equation on an NX by NY plate: the value every cell has after each step, and
  the program that computes it with two buffers on one processor
  (omp2mpiExamples/students/heat2DOriginal.c).
 */
module HeatStencil {

  /** A cell holds the bit pattern of a double; the arithmetic on it is a parameter, so rounding plays no part. */
  type Cell = int

  type Row = seq<Cell>

  /**
    `five` is the expression of one update, applied to a cell and its neighbours below,
    above, right and left; `start` is the initial value of an interior cell.
   */
  datatype Plate = Plate(nx: nat, ny: nat, start: (int, int) -> Cell, five: (Cell, Cell, Cell, Cell, Cell) -> Cell)
  {
    ghost predicate Valid() { nx >= 2 && ny >= 2 }

    ghost predicate Border(i: int) { i == 0 || i == nx - 1 }

    ghost function Zero(): (r: Row)
      ensures |r| == ny
    {
      seq(ny, _ => 0)
    }

    ghost function StartRow(i: int): (r: Row)
      ensures |r| == ny
    {
      if Border(i) then Zero() else seq(ny, j => if 0 < j < ny - 1 then start(i, j) else 0)
    }

    /** The new contents of a row between two others; its first and last cell stay at zero. */
    ghost function RowStep(above: Row, mid: Row, below: Row): (r: Row)
      requires |above| == |mid| == |below| == ny
      ensures |r| == ny
    {
      seq(ny, j requires 0 <= j < ny => if 0 < j < ny - 1 then five(mid[j], below[j], above[j], mid[j + 1], mid[j - 1])
        else 0)
    }

    /** Row i of the plate after t steps. */
    ghost function At(t: nat, i: int): (r: Row)
      requires 0 <= i < nx
      ensures |r| == ny
    {
      if t == 0 then StartRow(i)
      else if Border(i) then Zero()
      else RowStep(At(t - 1, i - 1), At(t - 1, i), At(t - 1, i + 1))
    }
  }

  /** A row whose first and last cell are zero. */
  ghost predicate ZeroEnds(r: Row) { |r| > 0 ==> r[0] == 0 && r[|r| - 1] == 0 }

  lemma AtEnds(pl: Plate, t: nat, i: int)
    requires 0 <= i < pl.nx
    ensures ZeroEnds(pl.At(t, i))
    ensures pl.Border(i) ==> pl.At(t, i) == pl.Zero()
  {
  }

  // ---------- the sequential program ----------

  ghost function RowOf(a: array2<Cell>, i: int): (r: Row)
    requires 0 <= i < a.Length0
    reads a
    ensures |r| == a.Length1
  {
    seq(a.Length1, j requires 0 <= j < a.Length1 reads a => a[i, j])
  }

  /** The update expression at an inner cell. */
  ghost function FiveAt(pl: Plate, a: array2<Cell>, i: int, j: int): Cell
    requires 0 < i < a.Length0 - 1 && 0 < j < a.Length1 - 1
    reads a
  {
    pl.five(a[i, j], a[i + 1, j], a[i - 1, j], a[i, j + 1], a[i, j - 1])
  }

  /** One buffer computed from the other: rows 1 to nxprob - 1, columns 1 to nyprob - 1. */
  method Update(pl: Plate, nxprob: nat, nyprob: nat, x1: array2<Cell>, x2: array2<Cell>)
    requires x1 != x2 && x1.Length0 == x2.Length0 && x1.Length1 == x2.Length1
    requires nxprob < x1.Length0 && nyprob < x1.Length1
    modifies x2
    ensures forall i, j :: 0 < i < nxprob && 0 < j < nyprob ==> x2[i, j] == FiveAt(pl, x1, i, j)
    ensures forall i, j :: 0 <= i < x2.Length0 && 0 <= j < x2.Length1 && !(0 < i < nxprob && 0 < j < nyprob) ==>
      x2[i, j] == old(x2[i, j])
  {
    var i := 1;
    while i < nxprob
      invariant 1 <= i
      invariant forall x, y :: 0 < x < i && x < nxprob && 0 < y < nyprob ==> x2[x, y] == FiveAt(pl, x1, x, y)
      invariant forall x, y :: 0 <= x < x2.Length0 && 0 <= y < x2.Length1 && !(0 < x < nxprob && 0 < y < nyprob) ==>
        x2[x, y] == old(x2[x, y])
    {
      var j := 1;
      while j < nyprob
        invariant 1 <= j
        invariant forall x, y :: 0 < x < i && 0 < y < nyprob ==> x2[x, y] == FiveAt(pl, x1, x, y)
        invariant forall y :: 0 < y < j && y < nyprob ==> x2[i, y] == FiveAt(pl, x1, i, y)
        invariant forall x, y :: 0 <= x < x2.Length0 && 0 <= y < x2.Length1 && !(0 < x < nxprob && 0 < y < nyprob) ==>
          x2[x, y] == old(x2[x, y])
      {
        x2[i, j] := pl.five(x1[i, j], x1[i + 1, j], x1[i - 1, j], x1[i, j + 1], x1[i, j - 1]);
        j := j + 1;
      }
      i := i + 1;
    }
  }

  /** A buffer holding the plate after t steps. */
  ghost predicate HoldsStep(pl: Plate, a: array2<Cell>, t: nat)
    requires a.Length0 == pl.nx && a.Length1 == pl.ny
    reads a
  {
    forall i, j :: 0 <= i < pl.nx && 0 <= j < pl.ny ==> a[i, j] == pl.At(t, i)[j]
  }

  /** Cell (i, j) is on one of the four sides of a buffer. */
  predicate OnSide(a: array2<Cell>, i: int, j: int) { i == 0 || i == a.Length0 - 1 || j == 0 || j == a.Length1 - 1 }

  /** All four sides of a buffer are zero. */
  ghost predicate ZeroSides(a: array2<Cell>)
    reads a
  {
    forall i, j :: 0 <= i < a.Length0 && 0 <= j < a.Length1 && OnSide(a, i, j) ==> a[i, j] == 0
  }

  method ZeroTheSides(a: array2<Cell>)
    requires a.Length0 >= 1 && a.Length1 >= 1
    modifies a
    ensures ZeroSides(a)
    ensures forall i, j :: 0 < i < a.Length0 - 1 && 0 < j < a.Length1 - 1 ==> a[i, j] == old(a[i, j])
  {
    var i := 0;
    while i < a.Length0
      invariant 0 <= i <= a.Length0
      invariant forall x, y :: 0 <= x < a.Length0 && 0 <= y < a.Length1 ==>
        a[x, y] == if x < i && (y == 0 || y == a.Length1 - 1) then 0 else old(a[x, y])
    {
      a[i, 0] := 0;
      a[i, a.Length1 - 1] := 0;
      i := i + 1;
    }
    var j := 0;
    while j < a.Length1
      invariant 0 <= j <= a.Length1
      invariant forall x, y :: 0 <= x < a.Length0 && 0 <= y < a.Length1 ==>
        a[x, y] == if y == 0 || y == a.Length1 - 1 || (y < j && (x == 0 || x == a.Length0 - 1)) then 0 else old(a[x, y])
    {
      a[0, j] := 0;
      a[a.Length0 - 1, j] := 0;
      j := j + 1;
    }
  }

  method InitializeArray(pl: Plate, a: array2<Cell>)
    requires pl.Valid() && a.Length0 == pl.nx && a.Length1 == pl.ny
    modifies a
    ensures HoldsStep(pl, a, 0)
  {
    var i := 1;
    while i < pl.nx
      invariant 1 <= i <= pl.nx
      invariant forall x, y :: 0 < x < i && 0 < y < pl.ny ==> a[x, y] == pl.start(x, y)
    {
      var j := 1;
      while j < pl.ny
        invariant 1 <= j <= pl.ny
        invariant forall x, y :: 0 < x < i && 0 < y < pl.ny ==> a[x, y] == pl.start(x, y)
        invariant forall y :: 0 < y < j ==> a[i, y] == pl.start(i, y)
      {
        a[i, j] := pl.start(i, j);
        j := j + 1;
      }
      i := i + 1;
    }
    ZeroTheSides(a);
  }

  /** At first the inner cells have their initial values and the sides are zero. */
  lemma StartHolds(pl: Plate, i: int, j: int)
    requires pl.Valid() && 0 <= i < pl.nx && 0 <= j < pl.ny
    ensures pl.At(0, i)[j] == if 0 < i < pl.nx - 1 && 0 < j < pl.ny - 1 then pl.start(i, j) else 0
  {
  }

  /** Each step gives every inner cell the update of the five cells around it, and the sides stay zero. */
  lemma StepHolds(pl: Plate, t: nat, i: int, j: int)
    requires pl.Valid() && 0 <= i < pl.nx && 0 <= j < pl.ny
    ensures pl.At(t + 1, i)[j] == if 0 < i < pl.nx - 1 && 0 < j < pl.ny - 1
      then pl.five(pl.At(t, i)[j], pl.At(t, i + 1)[j], pl.At(t, i - 1)[j], pl.At(t, i)[j + 1], pl.At(t, i)[j - 1])
        else 0
  {
  }

  lemma UpdateSteps(pl: Plate, x: array2<Cell>, other: array2<Cell>, t: nat)
    requires pl.Valid() && x.Length0 == other.Length0 == pl.nx && x.Length1 == other.Length1 == pl.ny
    requires HoldsStep(pl, x, t) && ZeroSides(other)
    requires forall i, j :: 0 < i < pl.nx - 1 && 0 < j < pl.ny - 1 ==> other[i, j] == FiveAt(pl, x, i, j)
    ensures HoldsStep(pl, other, t + 1)
  {
    forall i, j | 0 <= i < pl.nx && 0 <= j < pl.ny
      ensures other[i, j] == pl.At(t + 1, i)[j]
    {
      StepHolds(pl, t, i, j);
    }
  }

  /** The whole sequential program: after `steps` updates the current buffer holds the plate after `steps` steps. */
  method Heat(pl: Plate, steps: nat) returns (x: array2<Cell>)
    requires pl.Valid()
    ensures x.Length0 == pl.nx && x.Length1 == pl.ny && HoldsStep(pl, x, steps)
  {
    x := new Cell[pl.nx, pl.ny];
    var other := new Cell[pl.nx, pl.ny];
    InitializeArray(pl, x);
    ZeroTheSides(other);
    var it := 0;
    while it < steps
      invariant 0 <= it <= steps && x != other && fresh(x) && fresh(other)
      invariant x.Length0 == other.Length0 == pl.nx && x.Length1 == other.Length1 == pl.ny
      invariant HoldsStep(pl, x, it) && ZeroSides(other)
    {
      Update(pl, pl.nx - 1, pl.ny - 1, x, other);
      assert ZeroSides(other);
      UpdateSteps(pl, x, other, it);
      SidesOfStep(pl, x, it);
      x, other := other, x;
      it := it + 1;
    }
  }

  lemma SidesOfStep(pl: Plate, a: array2<Cell>, t: nat)
    requires pl.Valid() && a.Length0 == pl.nx && a.Length1 == pl.ny && HoldsStep(pl, a, t)
    ensures ZeroSides(a)
  {
    forall i, j | 0 <= i < a.Length0 && 0 <= j < a.Length1 && OnSide(a, i, j)
      ensures a[i, j] == 0
    {
      AtEnds(pl, t, i);
    }
  }
}
