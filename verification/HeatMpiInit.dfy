/**
  The start of the distributed heat program: each rank fills its own buffer from its
  offset in the plate (omp2mpiExamples/students/heat2D-mpi.c, initializeArray).
 */
module HeatMpiInit {
  import opened HeatStencil
  import opened HeatMpi
  import opened HeatMpiInv

  /** The initial value of an inner cell of a rank's buffer. */
  function StartCell(cfg: Config, r: nat, i: int, j: int): Cell
    requires cfg.np > 0
  {
    cfg.pl.start(i + Offset(cfg, r), j)
  }

  /** A row from its second cell on is set to zero. */
  method ZeroRow(x: array2<Cell>, i: int)
    requires 0 <= i < x.Length0 && x.Length1 >= 1
    modifies x
    ensures forall a, b :: 0 <= a < x.Length0 && 0 <= b < x.Length1 ==>
      x[a, b] == if a == i && b > 0 then 0 else old(x[a, b])
  {
    var j := 1;
    while j < x.Length1
      invariant 1 <= j <= x.Length1
      invariant forall a, b :: 0 <= a < x.Length0 && 0 <= b < x.Length1 ==>
        x[a, b] == if a == i && 0 < b < j then 0 else old(x[a, b])
    {
      x[i, j] := 0;
      j := j + 1;
    }
  }

  /** The first and the last column are set to zero. */
  method ZeroColumns(x: array2<Cell>)
    requires x.Length1 >= 1
    modifies x
    ensures forall a, b :: 0 <= a < x.Length0 && 0 <= b < x.Length1 ==>
      x[a, b] == if b == 0 || b == x.Length1 - 1 then 0 else old(x[a, b])
  {
    var i := 0;
    while i < x.Length0
      invariant 0 <= i <= x.Length0
      invariant forall a, b :: 0 <= a < x.Length0 && 0 <= b < x.Length1 ==>
        x[a, b] == if a < i && (b == 0 || b == x.Length1 - 1) then 0 else old(x[a, b])
    {
      x[i, 0] := 0;
      x[i, x.Length1 - 1] := 0;
      i := i + 1;
    }
  }

  /** The inner cells of the rows from `first` on get their initial values. */
  method FillInner(cfg: Config, r: nat, x: array2<Cell>, first: nat)
    requires cfg.np > 0 && first <= x.Length0 && x.Length1 >= 1
    modifies x
    ensures forall a, b :: 0 <= a < x.Length0 && 0 <= b < x.Length1 ==>
      x[a, b] == if first <= a && 0 < b < x.Length1 - 1 then StartCell(cfg, r, a, b) else old(x[a, b])
  {
    var i := first;
    while i < x.Length0
      invariant first <= i <= x.Length0
      invariant forall a, b :: 0 <= a < x.Length0 && 0 <= b < x.Length1 ==>
        x[a, b] == if first <= a < i && 0 < b < x.Length1 - 1 then StartCell(cfg, r, a, b) else old(x[a, b])
    {
      var j := 1;
      while j < x.Length1 - 1
        invariant 1 <= j
        invariant forall a, b :: 0 <= a < x.Length0 && 0 <= b < x.Length1 ==>
          x[a, b] == if (first <= a < i || (a == i && b < j)) && 0 < b < x.Length1 - 1
                     then StartCell(cfg, r, a, b) else old(x[a, b])
      {
        x[i, j] := StartCell(cfg, r, i, j);
        j := j + 1;
      }
      i := i + 1;
    }
  }

  /** A buffer of rank r starts as the rank's part of the initial plate, copied rows included. */
  method InitializeArray(cfg: Config, r: nat, x: array2<Cell>)
    requires cfg.Valid() && r < cfg.np && x.Length0 == Height(cfg, r) && x.Length1 == cfg.pl.ny
    modifies x
    ensures RowsOf(x) == StartGrid(cfg, r)
  {
    Sizes(cfg, r);
    if r == 0 {
      ZeroRow(x, 0);
    }
    FillInner(cfg, r, x, if r == 0 then 1 else 0);
    ZeroColumns(x);
    if r == cfg.np - 1 {
      ZeroRow(x, x.Length0 - 1);
    }
    forall a | 0 <= a < x.Length0
      ensures RowsOf(x)[a] == StartGrid(cfg, r)[a]
    {
      InPlate(cfg, r, a);
      StartsAs(cfg.pl, x, a, Offset(cfg, r) + a);
    }
  }

  lemma StartsAs(pl: Plate, x: array2<Cell>, a: int, g: int)
    requires 0 <= a < x.Length0 && x.Length1 == pl.ny >= 2 && x[a, 0] == 0 && x[a, pl.ny - 1] == 0
    requires forall j :: 0 < j < pl.ny - 1 ==> x[a, j] == if pl.Border(g) then 0 else pl.start(g, j)
    ensures RowOf(x, a) == pl.StartRow(g)
  {
    forall j | 0 <= j < pl.ny
      ensures RowOf(x, a)[j] == pl.StartRow(g)[j]
    {
    }
  }
}
