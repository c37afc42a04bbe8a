/**
  What the nest computes: which rows of U go into which row of Uout, and with which
  weights. `MasterWorkerResult.ResultIsSequential` carries this over to every run.
 */
module MasterWorkerFilter {
  import opened CArith
  import opened Multiples
  import opened MasterWorker
  import opened MasterWorkerProc
  import opened MasterWorkerResult
  import opened MasterWorkerSchedule

  lemma PointHolds(cfg: Config, i: int, j: int)
    requires Point(cfg, i, j)
    ensures var a := 2 * i * (cfg.width / 2) + j;
      a in RowsFrom(cfg, cfg.Rows()) && RowsFrom(cfg, cfg.Rows())[a] == Value(cfg, i, j)
  {
    hide Value, RowsFrom;
    RowsApplied(cfg, cfg.Rows());
    assert Applied(cfg, RowsFrom(cfg, cfg.Rows()), i, j);
  }

  /** Two places of the plane have the same address only if they are the same place. */
  lemma SamePlace(cols: int, row: int, j: int, t: int, c: int)
    requires 0 <= j < cols && 0 <= c < cols
    ensures row * cols + j == t * cols + c <==> row == t && j == c
  {
    if row * cols + j == t * cols + c {
      SmallMultiple(row - t, cols, c - j);
    }
  }

  /** A constant plane within the bounds gives that constant at every address the nest writes. */
  lemma ConstantPlane(cfg: Config, v: int, i: int, j: int)
    requires cfg.Rows() >= 2 && cfg.minval <= v <= cfg.maxval && 0 <= v < 256
    requires forall a :: 0 <= a < cfg.Rows() * cfg.Cols() ==> cfg.U(a) == v
    requires 0 <= i < cfg.height / 2 && 0 <= j < cfg.width / 2
    ensures var out, a := RowsFrom(cfg, cfg.Rows()), 2 * i * (cfg.width / 2) + j; a in out && out[a] == v
  {
    hide RowsFrom, Reads, Filter;
    PointHolds(cfg, i, j);
    ConstantReads(cfg, v, i, j);
    FlatFilter(cfg.minval, cfg.maxval, v);
  }

  lemma ConstantReads(cfg: Config, v: int, i: int, j: int)
    requires cfg.Rows() >= 2 && Point(cfg, i, j) && forall a :: 0 <= a < cfg.Rows() * cfg.Cols() ==> cfg.U(a) == v
    ensures Reads(cfg, i, j) == [v, v, v, v]
  {
    hide ReadAt;
    ReadsInPlane(cfg);
  }

  /** The weights add up to 1024. */
  lemma FlatFilter(minval: int, maxval: int, v: int)
    requires minval <= v <= maxval && 0 <= v < 256
    ensures Filter(minval, maxval, [v, v, v, v]) == v
  {
    assert (1024 * v + 512) / 1024 == v;
  }

  /** The four rows that row i is computed from. */
  ghost function Taps(cfg: Config, i: int, r: nat): int {
    if r == 0 then if i < 4 then 0 else i - 4
    else if r == 1 then if i < 2 then 0 else i - 2
    else if r == 2 then i
    else if i + 2 > cfg.height / 2 - 2 then cfg.height / 2 - 2 else i + 2
  }

  ghost function Weight(cfg: Config, t: int, c: int, i: int, j: int): int {
    Sum(Taps(cfg, i, 0) == t && j == c, Taps(cfg, i, 1) == t && j == c, Taps(cfg, i, 2) == t && j == c,
      Taps(cfg, i, 3) == t && j == c)
  }

  ghost function Sum(p: bool, q: bool, r: bool, s: bool): int {
    (if p then 24 else 0) + (if q then -41 else 0) + (if r then 1169 else 0) + (if s then -128 else 0)
  }

  lemma Weighed(p: bool, q: bool, r: bool, s: bool, u: int)
    ensures Sum(p, q, r, s) * u == 24 * (if p then u else 0) - 41 * (if q then u else 0)
      + 1169 * (if r then u else 0) - 128 * (if s then u else 0)
  {
  }

  lemma OneRead(cfg: Config, u: int, t: int, c: int, i: int, j: int, r: nat)
    requires cfg.Rows() >= 2 && 0 <= t < cfg.Rows() && 0 <= c < cfg.Cols() && r < 4 && Point(cfg, i, j)
    requires forall a :: 0 <= a < cfg.Rows() * cfg.Cols() ==> cfg.U(a) == if a == t * cfg.Cols() + c then u else 0
    requires 0 <= ReadAt(cfg.height, cfg.width, i, j, r) < cfg.Rows() * cfg.Cols()
    ensures cfg.U(ReadAt(cfg.height, cfg.width, i, j, r)) == if Taps(cfg, i, r) == t && j == c then u else 0
  {
    SamePlace(cfg.Cols(), Taps(cfg, i, r), j, t, c);
  }

  lemma CellValue(cfg: Config, u: int, t: int, c: int, i: int, j: int)
    requires cfg.Rows() >= 2 && 0 <= t < cfg.Rows() && 0 <= c < cfg.Cols() && Point(cfg, i, j)
    requires forall a :: 0 <= a < cfg.Rows() * cfg.Cols() ==> cfg.U(a) == if a == t * cfg.Cols() + c then u else 0
    ensures Value(cfg, i, j) == Clip(CDiv(Weight(cfg, t, c, i, j) * u + 512, 1024), cfg.minval, cfg.maxval) % 256
  {
    hide ReadAt, CDiv, Clip;
    ReadsInPlane(cfg);
    OneRead(cfg, u, t, c, i, j, 0);
    OneRead(cfg, u, t, c, i, j, 1);
    OneRead(cfg, u, t, c, i, j, 2);
    OneRead(cfg, u, t, c, i, j, 3);
    Weighed(Taps(cfg, i, 0) == t && j == c, Taps(cfg, i, 1) == t && j == c, Taps(cfg, i, 2) == t && j == c,
      Taps(cfg, i, 3) == t && j == c, u);
    hide Taps;
  }

  /**
    A plane that is zero but for one cell (t, c): every point in column c gets the weights
    of those of its four rows that are row t, the rows before the first counting as row 0
    and those past the last but one as that one.
   */
  lemma OneCell(cfg: Config, u: int, t: int, c: int, i: int, j: int)
    requires cfg.Rows() >= 2 && 0 <= t < cfg.Rows() && 0 <= c < cfg.Cols()
    requires forall a :: 0 <= a < cfg.Rows() * cfg.Cols() ==> cfg.U(a) == if a == t * cfg.Cols() + c then u else 0
    requires 0 <= i < cfg.height / 2 && 0 <= j < cfg.width / 2
    ensures var out, a := RowsFrom(cfg, cfg.Rows()), 2 * i * (cfg.width / 2) + j;
      var w :=
        if j != c then 0
        else
          (if t == (if i < 4 then 0 else i - 4) then 24 else 0)
          + (if t == (if i < 2 then 0 else i - 2) then -41 else 0)
          + (if t == i then 1169 else 0)
          + (if t == (if i + 2 > cfg.height / 2 - 2 then cfg.height / 2 - 2 else i + 2) then -128 else 0);
      a in out && out[a] == Clip(CDiv(w * u + 512, 1024), cfg.minval, cfg.maxval) % 256
  {
    hide RowsFrom, Value, CDiv, Clip, ReadAt;
    PointHolds(cfg, i, j);
    CellValue(cfg, u, t, c, i, j);
  }
}
