/**
  HARP/ADDTRACES/420i.c, lines 145-258: interlaced chroma conversion from 4:2:0 to 4:2:2.
  Each of the four passes over a plane fills every fourth row of the output from rows of
  one field of the input.
 */
module Chroma {
  import opened CArith
  import opened Multiples

  /** Pass 0 and 1 run over the even rows of the input, pass 2 and 3 over the odd ones. */
  function First(pass: nat): nat { if pass < 2 then 0 else 1 }

  /** The output row that a pass fills from input row i. */
  function OutRow(pass: nat, i: int): int {
    if pass == 0 then 2 * i else if pass == 1 then 2 * i + 2 else if pass == 2 then 2 * i - 1 else 2 * i + 1
  }

  /** How far from row i the n-th of the four input rows of a pass is. */
  function Step(pass: nat, n: nat): int { (if pass % 2 == 0 then -4 else -2) + 2 * n }

  /** The four input rows of a pass at row i of rows, held back at the first and the last row of the field. */
  function Tap(rows: nat, pass: nat, i: int, n: nat): int {
    var o := Step(pass, n);
    if o < 0 then Max(First(pass), i + o) else if o == 0 then i else Min(rows - 2 + First(pass), i + o)
  }

  function Weight(pass: nat, n: nat): int {
    var w := if pass == 0 then [24, -41, 1169, -128] else if pass == 1 then [-76, 783, 330, -13]
             else if pass == 2 then [-13, 330, 783, -76] else [-128, 1169, -41, 24];
    if n < 4 then w[n] else 0
  }

  /** The interpolated and clipped value from four input values. */
  function Blend(pass: nat, a: int, b: int, c: int, d: int, minval: int, maxval: int): int {
    Clip(CDiv(Weight(pass, 0) * a + Weight(pass, 1) * b + Weight(pass, 2) * c + Weight(pass, 3) * d + 512, 1024),
      minval, maxval)
  }

  /** A plane with an even number of rows, and a range of values. */
  datatype Format = Format(rows: nat, cols: nat, minval: int, maxval: int)
  {
    ghost predicate Valid() { rows % 2 == 0 }
  }

  /** What a pass makes of input row i, in column j. */
  ghost function Value(f: Format, u: seq<int>, pass: nat, i: int, j: int): int
    requires f.Valid() && |u| == f.rows * f.cols && pass < 4 && 0 <= i < f.rows && i % 2 == First(pass)
    requires 0 <= j < f.cols
  {
    TapsInField(f, pass, i);
    Address(f.rows, f.cols, Tap(f.rows, pass, i, 0), j);
    Address(f.rows, f.cols, Tap(f.rows, pass, i, 1), j);
    Address(f.rows, f.cols, Tap(f.rows, pass, i, 2), j);
    Address(f.rows, f.cols, Tap(f.rows, pass, i, 3), j);
    Blend(pass, u[Tap(f.rows, pass, i, 0) * f.cols + j], u[Tap(f.rows, pass, i, 1) * f.cols + j],
      u[Tap(f.rows, pass, i, 2) * f.cols + j],
      u[Tap(f.rows, pass, i, 3) * f.cols + j], f.minval, f.maxval)
  }

  /** All rows read are rows of the plane, and of the field of row i. */
  lemma TapsInField(f: Format, pass: nat, i: int)
    requires f.Valid() && pass < 4 && 0 <= i < f.rows && i % 2 == First(pass)
    ensures forall n: nat :: n < 4 ==>
      0 <= Tap(f.rows, pass, i, n) < f.rows && Tap(f.rows, pass, i, n) % 2 == First(pass)
  {
  }

  lemma Address(rows: nat, cols: nat, i: int, j: int)
    requires 0 <= i < rows && 0 <= j < cols
    ensures 0 <= i * cols + j < rows * cols
  {
    assert i * cols >= 0;
    assert (i + 1) * cols <= rows * cols;
  }

  /** Different cells have different addresses. */
  lemma AddressDistinct(cols: int, i: int, j: int, x: int, y: int)
    requires 0 <= j < cols && 0 <= y < cols && i * cols + j == x * cols + y
    ensures i == x && j == y
  {
    SmallMultiple(i - x, cols, y - j);
  }

  // ---------- which rows are written ----------

  /** The pass that fills output row k, and the input row it does so from. */
  ghost function PassOf(k: nat): nat { if k % 4 == 0 then 0 else if k % 4 == 2 then 1 else if k % 4 == 1 then 2 else 3 }

  ghost function InRow(k: nat): int {
    if k % 4 == 0 then k / 2 else if k % 4 == 2 then k / 2 - 1 else if k % 4 == 1 then (k + 1) / 2 else (k - 1) / 2
  }

  /** Output row k is filled by this pass at this input row. */
  ghost predicate Fills(rows: nat, k: int, pass: nat, i: int) {
    pass < 4 && 0 <= i < rows && i % 2 == First(pass) && OutRow(pass, i) == k
  }

  lemma FilledOnce(rows: nat, k: nat)
    requires rows % 2 == 0 && k < 2 * rows
    ensures Fills(rows, k, PassOf(k), InRow(k))
    ensures forall pass: nat, i :: Fills(rows, k, pass, i) ==> pass == PassOf(k) && i == InRow(k)
  {
  }

  /** All writes stay inside the output plane. */
  ghost predicate InOutput(rows: nat) {
    forall k, pass: nat, i :: Fills(rows, k, pass, i) ==> 0 <= k < 2 * rows
  }

  /** The passes fill rows of the output plane only, exactly when the input has an even number of rows. */
  lemma InOutputIff(rows: nat)
    ensures InOutput(rows) <==> rows % 2 == 0
  {
    if rows % 2 == 1 {
      assert Fills(rows, 2 * rows, 1, rows - 1);
    }
  }

  // ---------- the passes ----------

  /** Output row k holds what its pass computes. */
  ghost predicate RowDone(f: Format, u: seq<int>, out: seq<int>, k: nat)
    requires f.Valid() && |u| == f.rows * f.cols && |out| == 2 * f.rows * f.cols && k < 2 * f.rows
  {
    FilledOnce(f.rows, k);
    forall j :: 0 <= j < f.cols ==>
      (Address(2 * f.rows, f.cols, k, j); out[k * f.cols + j] == Value(f, u, PassOf(k), InRow(k), j))
  }

  /** The rows of the first passes, and of this pass up to input row i, are done. */
  ghost predicate Done(f: Format, u: seq<int>, out: seq<int>, pass: nat, i: int) {
    && f.Valid() && |u| == f.rows * f.cols && |out| == 2 * f.rows * f.cols
    && forall k: nat :: k < 2 * f.rows && (PassOf(k) < pass || (PassOf(k) == pass && InRow(k) < i)) ==>
      RowDone(f, u, out, k)
  }

  /** One cell: the value of a pass at (i, j), written in place. */
  method Cell(f: Format, u: array<int>, out: array<int>, pass: nat, i: int, j: int)
    requires f.Valid() && u != out && u.Length == f.rows * f.cols && out.Length == 2 * f.rows * f.cols
    requires pass < 4 && 0 <= i < f.rows && i % 2 == First(pass) && 0 <= j < f.cols
    modifies out
    ensures 0 <= OutRow(pass, i) * f.cols + j < out.Length
    ensures out[..] == old(out[..])[OutRow(pass, i) * f.cols + j := Value(f, u[..], pass, i, j)]
  {
    TapsInField(f, pass, i);
    Address(f.rows, f.cols, Tap(f.rows, pass, i, 0), j);
    Address(f.rows, f.cols, Tap(f.rows, pass, i, 1), j);
    Address(f.rows, f.cols, Tap(f.rows, pass, i, 2), j);
    Address(f.rows, f.cols, Tap(f.rows, pass, i, 3), j);
    InOutputIff(f.rows);
    assert Fills(f.rows, OutRow(pass, i), pass, i);
    Address(2 * f.rows, f.cols, OutRow(pass, i), j);
    hide Blend, Tap, OutRow;
    var aux := Blend(pass, u[Tap(f.rows, pass, i, 0) * f.cols + j], u[Tap(f.rows, pass, i, 1) * f.cols + j],
      u[Tap(f.rows, pass, i, 2) * f.cols + j], u[Tap(f.rows, pass, i, 3) * f.cols + j], f.minval, f.maxval);
    out[OutRow(pass, i) * f.cols + j] := aux;
  }

  /** A row already done is not touched by writing to another row. */
  lemma RowKept(f: Format, u: seq<int>, out: seq<int>, k: nat, x: int, j: int, v: int)
    requires f.Valid() && |u| == f.rows * f.cols && |out| == 2 * f.rows * f.cols && k < 2 * f.rows
    requires RowDone(f, u, out, k)
    requires x != k && 0 <= j < f.cols && 0 <= x * f.cols + j < |out|
    ensures RowDone(f, u, out[x * f.cols + j := v], k)
  {
    hide Value, PassOf, InRow;
    FilledOnce(f.rows, k);
    var out' := out[x * f.cols + j := v];
    forall y | 0 <= y < f.cols
      ensures (Address(2 * f.rows, f.cols, k, y); out'[k * f.cols + y] == Value(f, u, PassOf(k), InRow(k), y))
    {
      Address(2 * f.rows, f.cols, k, y);
      if k * f.cols + y == x * f.cols + j {
        AddressDistinct(f.cols, k, y, x, j);
      }
    }
  }

  /** The first n cells of the row that a pass fills at input row i. */
  ghost predicate RowBegun(f: Format, u: seq<int>, out: seq<int>, pass: nat, i: int, n: int)
    requires f.Valid() && |u| == f.rows * f.cols && |out| == 2 * f.rows * f.cols
    requires pass < 4 && 0 <= i < f.rows && i % 2 == First(pass) && n <= f.cols
  {
    InOutputIff(f.rows);
    assert Fills(f.rows, OutRow(pass, i), pass, i);
    forall j :: 0 <= j < n ==>
      (Address(2 * f.rows, f.cols, OutRow(pass, i), j); out[OutRow(pass, i) * f.cols + j] == Value(f, u, pass, i, j))
  }

  lemma CellKeeps(f: Format, u: seq<int>, out: seq<int>, pass: nat, i: int, j: int, out': seq<int>)
    requires Done(f, u, out, pass, i) && pass < 4 && 0 <= i < f.rows && i % 2 == First(pass) && 0 <= j < f.cols
    requires RowBegun(f, u, out, pass, i, j)
    requires 0 <= OutRow(pass, i) * f.cols + j < |out|
    requires out' == out[OutRow(pass, i) * f.cols + j := Value(f, u, pass, i, j)]
    ensures Done(f, u, out', pass, i) && RowBegun(f, u, out', pass, i, j + 1)
  {
    var x := OutRow(pass, i);
    InOutputIff(f.rows);
    assert Fills(f.rows, x, pass, i);
    FilledOnce(f.rows, x);
    hide Value, RowDone;
    forall k: nat | k < 2 * f.rows && (PassOf(k) < pass || (PassOf(k) == pass && InRow(k) < i))
      ensures RowDone(f, u, out', k)
    {
      RowKept(f, u, out, k, x, j, Value(f, u, pass, i, j));
    }
    hide PassOf, InRow, OutRow, Done;
    forall y | 0 <= y < j + 1
      ensures (Address(2 * f.rows, f.cols, x, y); out'[x * f.cols + y] == Value(f, u, pass, i, y))
    {
      Address(2 * f.rows, f.cols, x, y);
      if x * f.cols + y == x * f.cols + j {
        AddressDistinct(f.cols, x, y, x, j);
      }
    }
  }

  /** A full row is done, and the pass can go on two rows further. */
  lemma RowFinished(f: Format, u: seq<int>, out: seq<int>, pass: nat, i: int)
    requires Done(f, u, out, pass, i) && pass < 4 && 0 <= i < f.rows && i % 2 == First(pass)
    requires RowBegun(f, u, out, pass, i, f.cols)
    ensures Done(f, u, out, pass, i + 2)
  {
    hide Value, OutRow, PassOf, InRow;
    var x := OutRow(pass, i);
    RowOfPass(f.rows, pass, i);
    assert RowDone(f, u, out, x);
    hide RowDone, RowBegun;
    forall k: nat | k < 2 * f.rows && PassOf(k) == pass && i <= InRow(k) < i + 2
      ensures k == x
    {
      PassOfRow(f.rows, k);
    }
  }

  lemma RowOfPass(rows: nat, pass: nat, i: int)
    requires rows % 2 == 0 && pass < 4 && 0 <= i < rows && i % 2 == First(pass)
    ensures var x := OutRow(pass, i); 0 <= x < 2 * rows && PassOf(x) == pass && InRow(x) == i
  {
    assert Fills(rows, OutRow(pass, i), pass, i);
    InOutputIff(rows);
    FilledOnce(rows, OutRow(pass, i));
  }

  lemma PassOfRow(rows: nat, k: nat)
    requires rows % 2 == 0 && k < 2 * rows
    ensures InRow(k) % 2 == First(PassOf(k)) && OutRow(PassOf(k), InRow(k)) == k
  {
    FilledOnce(rows, k);
  }

  /** One of the four loops over a plane. */
  method Pass(f: Format, u: array<int>, out: array<int>, pass: nat)
    requires pass < 4 && u != out && Done(f, u[..], out[..], pass, 0)
    modifies out
    ensures Done(f, u[..], out[..], pass + 1, 0)
  {
    hide Value, RowDone, Done, RowBegun;
    assert f.Valid() && u.Length == f.rows * f.cols && out.Length == 2 * f.rows * f.cols by {
      DoneSizes(f, u[..], out[..], pass, 0);
    }
    StartPass(f, u[..], out[..], pass);
    var i := First(pass);
    while i < f.rows
      invariant First(pass) <= i <= f.rows + 1 && i % 2 == First(pass) && Done(f, u[..], out[..], pass, i)
    {
      var j := 0;
      RowEmpty(f, u[..], out[..], pass, i);
      while j < f.cols
        invariant 0 <= j <= f.cols && Done(f, u[..], out[..], pass, i) && RowBegun(f, u[..], out[..], pass, i, j)
      {
        ghost var before := out[..];
        Cell(f, u, out, pass, i, j);
        CellKeeps(f, u[..], before, pass, i, j, out[..]);
        j := j + 1;
      }
      RowFinished(f, u[..], out[..], pass, i);
      i := i + 2;
    }
    EndPass(f, u[..], out[..], pass, i);
  }

  lemma DoneSizes(f: Format, u: seq<int>, out: seq<int>, pass: nat, i: int)
    requires Done(f, u, out, pass, i)
    ensures f.Valid() && |u| == f.rows * f.cols && |out| == 2 * f.rows * f.cols
  {
  }

  lemma RowEmpty(f: Format, u: seq<int>, out: seq<int>, pass: nat, i: int)
    requires f.Valid() && |u| == f.rows * f.cols && |out| == 2 * f.rows * f.cols
    requires pass < 4 && 0 <= i < f.rows && i % 2 == First(pass)
    ensures RowBegun(f, u, out, pass, i, 0)
  {
  }

  lemma StartPass(f: Format, u: seq<int>, out: seq<int>, pass: nat)
    requires pass < 4 && Done(f, u, out, pass, 0)
    ensures Done(f, u, out, pass, First(pass))
  {
    hide RowDone;
    forall k: nat | k < 2 * f.rows && PassOf(k) == pass && InRow(k) < First(pass)
      ensures false
    {
      FilledOnce(f.rows, k);
    }
  }

  lemma EndPass(f: Format, u: seq<int>, out: seq<int>, pass: nat, i: int)
    requires pass < 4 && Done(f, u, out, pass, i) && i >= f.rows
    ensures Done(f, u, out, pass + 1, 0)
  {
    hide RowDone;
    forall k: nat | k < 2 * f.rows && (PassOf(k) < pass + 1 || (PassOf(k) == pass + 1 && InRow(k) < 0))
      ensures RowDone(f, u, out, k)
    {
      FilledOnce(f.rows, k);
    }
  }

  // ---------- the values ----------

  /** Every value is within the clipping bounds. */
  lemma Clipped(f: Format, u: seq<int>, pass: nat, i: int, j: int)
    requires f.Valid() && |u| == f.rows * f.cols && pass < 4 && 0 <= i < f.rows && i % 2 == First(pass)
    requires 0 <= j < f.cols && f.minval <= f.maxval
    ensures f.minval <= Value(f, u, pass, i, j) <= f.maxval
  {
  }

  /** The weights of every pass add up to 1024, so a constant plane within the bounds stays what it is. */
  lemma ConstantKept(f: Format, u: seq<int>, v: nat, pass: nat, i: int, j: int)
    requires f.Valid() && |u| == f.rows * f.cols && pass < 4 && 0 <= i < f.rows && i % 2 == First(pass)
    requires 0 <= j < f.cols
    requires f.minval <= v <= f.maxval && forall m :: 0 <= m < |u| ==> u[m] == v
    ensures Value(f, u, pass, i, j) == v
  {
    TapsInField(f, pass, i);
    Address(f.rows, f.cols, Tap(f.rows, pass, i, 0), j);
    Address(f.rows, f.cols, Tap(f.rows, pass, i, 1), j);
    Address(f.rows, f.cols, Tap(f.rows, pass, i, 2), j);
    Address(f.rows, f.cols, Tap(f.rows, pass, i, 3), j);
    hide Tap;
    assert Weight(pass, 0) * v + Weight(pass, 1) * v + Weight(pass, 2) * v + Weight(pass, 3) * v == 1024 * v;
    assert (1024 * v + 512) / 1024 == v;
  }

  /** Every element of the output is a cell of a row. */
  lemma CellOf(f: Format, m: nat) returns (k: nat, j: nat)
    requires m < 2 * f.rows * f.cols
    ensures k < 2 * f.rows && j < f.cols && m == k * f.cols + j
  {
    k, j := m / f.cols, m % f.cols;
    if k >= 2 * f.rows {
      Monotone(f.cols, 2 * f.rows, k);
    }
  }

  /** Every cell of the converted plane is within the bounds. */
  lemma AllClipped(f: Format, u: seq<int>, out: seq<int>)
    requires f.Valid() && |u| == f.rows * f.cols && |out| == 2 * f.rows * f.cols && f.minval <= f.maxval
    requires forall k: nat :: k < 2 * f.rows ==> RowDone(f, u, out, k)
    ensures forall m :: 0 <= m < |out| ==> f.minval <= out[m] <= f.maxval
  {
    forall m | 0 <= m < |out|
      ensures f.minval <= out[m] <= f.maxval
    {
      var k, j := CellOf(f, m);
      FilledOnce(f.rows, k);
      CellDone(f, u, out, k, j);
      Clipped(f, u, PassOf(k), InRow(k), j);
    }
  }

  lemma CellDone(f: Format, u: seq<int>, out: seq<int>, k: nat, j: nat)
    requires f.Valid() && |u| == f.rows * f.cols && |out| == 2 * f.rows * f.cols && k < 2 * f.rows && j < f.cols
    requires RowDone(f, u, out, k) && Fills(f.rows, k, PassOf(k), InRow(k))
    ensures 0 <= k * f.cols + j < |out| && out[k * f.cols + j] == Value(f, u, PassOf(k), InRow(k), j)
  {
    hide Value;
    Address(2 * f.rows, f.cols, k, j);
  }

  /** A constant plane within the bounds is converted to a constant plane of the same value. */
  lemma AllConstant(f: Format, u: seq<int>, out: seq<int>, v: nat)
    requires f.Valid() && |u| == f.rows * f.cols && |out| == 2 * f.rows * f.cols
    requires forall k: nat :: k < 2 * f.rows ==> RowDone(f, u, out, k)
    requires f.minval <= v <= f.maxval && forall m :: 0 <= m < |u| ==> u[m] == v
    ensures forall m :: 0 <= m < |out| ==> out[m] == v
  {
    forall m | 0 <= m < |out|
      ensures out[m] == v
    {
      var k, j := CellOf(f, m);
      FilledOnce(f.rows, k);
      CellDone(f, u, out, k, j);
      ConstantKept(f, u, v, PassOf(k), InRow(k), j);
    }
  }

  // ---------- the filter ----------

  /**
    How much an input row weighs in output row k, by the distance of the two in rows of the
    output, of which input row t is row 2 * t.
   */
  ghost function Kernel(k: nat, d: int): int {
    if k % 4 == 0 then
      if d == -8 then 24 else if d == -4 then -41 else if d == 0 then 1169 else if d == 4 then -128 else 0
    else if k % 4 == 2 then
      if d == -6 then -76 else if d == -2 then 783 else if d == 2 then 330 else if d == 6 then -13 else 0
    else if k % 4 == 1 then
      if d == -7 then -13 else if d == -3 then 330 else if d == 1 then 783 else if d == 5 then -76 else 0
    else if d == -5 then -128 else if d == -1 then 1169 else if d == 3 then -41 else if d == 7 then 24 else 0
  }

  /** The first and the last row of a field also stand for the rows that would lie before and after them. */
  ghost function Response(rows: nat, k: nat, t: int): int {
    Kernel(k, 2 * t - k)
    + (if t < 2 then Kernel(k, 2 * t - k - 4) + Kernel(k, 2 * t - k - 8) else 0)
    + (if t >= rows - 2 then Kernel(k, 2 * t - k + 4) + Kernel(k, 2 * t - k + 8) else 0)
  }

  /** Column j of the first n input rows, each with its weight in output row k. */
  ghost function Total(f: Format, u: seq<int>, k: nat, j: nat, n: nat): int
    requires |u| == f.rows * f.cols && j < f.cols && n <= f.rows
  {
    if n == 0 then 0
    else
      Address(f.rows, f.cols, n - 1, j);
      Total(f, u, k, j, n - 1) + Response(f.rows, k, n - 1) * u[(n - 1) * f.cols + j]
  }

  /** Output row k is the input filtered: all its rows weighed, rounded, divided and clipped. */
  ghost predicate Filtered(f: Format, u: seq<int>, out: seq<int>)
    requires |u| == f.rows * f.cols && |out| == 2 * f.rows * f.cols
  {
    forall k: nat, j: nat :: k < 2 * f.rows && j < f.cols ==>
      (Address(2 * f.rows, f.cols, k, j);
       out[k * f.cols + j] == Clip(CDiv(Total(f, u, k, j, f.rows) + 512, 1024), f.minval, f.maxval))
  }

  /** What the n-th tap of output row k gives to input row t. */
  ghost function Share(rows: nat, k: nat, t: int, n: nat): int {
    if Tap(rows, PassOf(k), InRow(k), n) == t then Weight(PassOf(k), n) else 0
  }

  /** What the four taps of a pass at row i give to input row t. */
  ghost function Shares(rows: nat, pass: nat, i: int, t: int): int {
    (if Tap(rows, pass, i, 0) == t then Weight(pass, 0) else 0)
    + (if Tap(rows, pass, i, 1) == t then Weight(pass, 1) else 0)
    + (if Tap(rows, pass, i, 2) == t then Weight(pass, 2) else 0)
    + (if Tap(rows, pass, i, 3) == t then Weight(pass, 3) else 0)
  }

  lemma ResponseOfPass0(rows: nat, q: nat, t: nat)
    requires rows % 2 == 0 && 4 * q < 2 * rows && t < rows
    ensures Response(rows, 4 * q, t) == Shares(rows, 0, 2 * q, t)
  {
    assert (4 * q) % 4 == 0;
  }

  lemma ResponseOfPass1(rows: nat, q: nat, t: nat)
    requires rows % 2 == 0 && 4 * q + 2 < 2 * rows && t < rows
    ensures Response(rows, 4 * q + 2, t) == Shares(rows, 1, 2 * q, t)
  {
    assert (4 * q + 2) % 4 == 2;
  }

  lemma ResponseOfPass2(rows: nat, q: nat, t: nat)
    requires rows % 2 == 0 && 4 * q + 1 < 2 * rows && t < rows
    ensures Response(rows, 4 * q + 1, t) == Shares(rows, 2, 2 * q + 1, t)
  {
    assert (4 * q + 1) % 4 == 1;
  }

  lemma ResponseOfPass3(rows: nat, q: nat, t: nat)
    requires rows % 2 == 0 && 4 * q + 3 < 2 * rows && t < rows
    ensures Response(rows, 4 * q + 3, t) == Shares(rows, 3, 2 * q + 1, t)
  {
    assert (4 * q + 3) % 4 == 3;
  }

  lemma Quarter(k: nat)
    ensures var q := k / 4;
      && (k % 4 == 0 ==> k == 4 * q && PassOf(k) == 0 && InRow(k) == 2 * q)
      && (k % 4 == 1 ==> k == 4 * q + 1 && PassOf(k) == 2 && InRow(k) == 2 * q + 1)
      && (k % 4 == 2 ==> k == 4 * q + 2 && PassOf(k) == 1 && InRow(k) == 2 * q)
      && (k % 4 == 3 ==> k == 4 * q + 3 && PassOf(k) == 3 && InRow(k) == 2 * q + 1)
  {
  }

  lemma ResponseIsTaps(rows: nat, k: nat, t: nat)
    requires rows % 2 == 0 && k < 2 * rows && t < rows
    ensures Response(rows, k, t) ==
      Share(rows, k, t, 0) + Share(rows, k, t, 1) + Share(rows, k, t, 2) + Share(rows, k, t, 3)
  {
    hide Response, Tap, Weight, PassOf, InRow;
    var q := k / 4;
    Quarter(k);
    if k % 4 == 0 {
      ResponseOfPass0(rows, q, t);
    } else if k % 4 == 2 {
      ResponseOfPass1(rows, q, t);
    } else if k % 4 == 1 {
      ResponseOfPass2(rows, q, t);
    } else {
      ResponseOfPass3(rows, q, t);
    }
  }

  /** What the n-th tap of output row k adds when it is among the first m rows. */
  ghost function Given(f: Format, u: seq<int>, k: nat, j: nat, m: nat, n: nat): int
    requires |u| == f.rows * f.cols && j < f.cols && m <= f.rows
  {
    var t := Tap(f.rows, PassOf(k), InRow(k), n);
    if 0 <= t < m then
      Address(f.rows, f.cols, t, j);
      Weight(PassOf(k), n) * u[t * f.cols + j]
    else 0
  }

  lemma GivenStep(f: Format, u: seq<int>, k: nat, j: nat, m: nat, n: nat)
    requires |u| == f.rows * f.cols && j < f.cols && m < f.rows
    ensures 0 <= m * f.cols + j < |u|
    ensures Given(f, u, k, j, m + 1, n) == Given(f, u, k, j, m, n) + Share(f.rows, k, m, n) * u[m * f.cols + j]
  {
    Address(f.rows, f.cols, m, j);
  }

  lemma Distribute(a: int, b: int, c: int, d: int, x: int)
    ensures (a + b + c + d) * x == a * x + b * x + c * x + d * x
  {
  }

  lemma {:induction false} TotalIsTaps(f: Format, u: seq<int>, k: nat, j: nat, m: nat)
    requires f.Valid() && |u| == f.rows * f.cols && k < 2 * f.rows && j < f.cols && m <= f.rows
    ensures Total(f, u, k, j, m) ==
      Given(f, u, k, j, m, 0) + Given(f, u, k, j, m, 1) + Given(f, u, k, j, m, 2) + Given(f, u, k, j, m, 3)
  {
    hide Response, Share, Tap, Weight, PassOf, InRow;
    if m > 0 {
      TotalIsTaps(f, u, k, j, m - 1);
      ResponseIsTaps(f.rows, k, m - 1);
      GivenStep(f, u, k, j, m - 1, 0);
      GivenStep(f, u, k, j, m - 1, 1);
      GivenStep(f, u, k, j, m - 1, 2);
      GivenStep(f, u, k, j, m - 1, 3);
      hide Given;
      Distribute(Share(f.rows, k, m - 1, 0), Share(f.rows, k, m - 1, 1), Share(f.rows, k, m - 1, 2),
        Share(f.rows, k, m - 1, 3), u[(m - 1) * f.cols + j]);
    }
  }

  /** The four passes together are that filter. */
  lemma AllFiltered(f: Format, u: seq<int>, out: seq<int>)
    requires f.Valid() && |u| == f.rows * f.cols && |out| == 2 * f.rows * f.cols
    requires forall k: nat :: k < 2 * f.rows ==> RowDone(f, u, out, k)
    ensures Filtered(f, u, out)
  {
    hide RowDone, Total;
    forall k: nat, j: nat | k < 2 * f.rows && j < f.cols
      ensures 0 <= k * f.cols + j < |out|
      ensures out[k * f.cols + j] == Clip(CDiv(Total(f, u, k, j, f.rows) + 512, 1024), f.minval, f.maxval)
    {
      FilledOnce(f.rows, k);
      CellDone(f, u, out, k, j);
      ValueIsTotal(f, u, k, j);
    }
  }

  lemma ValueIsTotal(f: Format, u: seq<int>, k: nat, j: nat)
    requires f.Valid() && |u| == f.rows * f.cols && k < 2 * f.rows && j < f.cols
    requires Fills(f.rows, k, PassOf(k), InRow(k))
    ensures Value(f, u, PassOf(k), InRow(k), j) ==
      Clip(CDiv(Total(f, u, k, j, f.rows) + 512, 1024), f.minval, f.maxval)
  {
    TapsInField(f, PassOf(k), InRow(k));
    TotalIsTaps(f, u, k, j, f.rows);
    hide Total, Tap, Weight, PassOf, InRow, CDiv, Clip;
  }

  /** A plane that is zero but for one cell, away from the first and last rows. */
  lemma OneCell(f: Format, u: seq<int>, out: seq<int>, t: nat, c: nat, v: int, k: nat, j: nat)
    requires |u| == f.rows * f.cols && |out| == 2 * f.rows * f.cols && Filtered(f, u, out)
    requires 2 <= t < f.rows - 2 && c < f.cols && k < 2 * f.rows && j < f.cols
    requires forall m :: 0 <= m < |u| ==> u[m] == if m == t * f.cols + c then v else 0
    ensures 0 <= k * f.cols + j < |out|
    ensures var w :=
        if j != c then 0
        else if k % 4 == 0 then
          if k == 2 * t + 8 then 24 else if k == 2 * t + 4 then -41 else if k == 2 * t then 1169
          else if k == 2 * t - 4 then -128 else 0
        else if k % 4 == 2 then
          if k == 2 * t + 6 then -76 else if k == 2 * t + 2 then 783 else if k == 2 * t - 2 then 330
          else if k == 2 * t - 6 then -13 else 0
        else if k % 4 == 1 then
          if k == 2 * t + 7 then -13 else if k == 2 * t + 3 then 330 else if k == 2 * t - 1 then 783
          else if k == 2 * t - 5 then -76 else 0
        else
          if k == 2 * t + 5 then -128 else if k == 2 * t + 1 then 1169 else if k == 2 * t - 3 then -41
          else if k == 2 * t - 7 then 24 else 0;
      out[k * f.cols + j] == Clip(CDiv(w * v + 512, 1024), f.minval, f.maxval)
  {
    Address(2 * f.rows, f.cols, k, j);
    OnlyCell(f, u, t, c, v, k, j, f.rows);
    hide Total, CDiv, Clip;
  }

  lemma FirstResponse(rows: nat, k: nat, t: nat)
    requires rows >= 4 && k < 2 * rows && t < 2
    ensures Response(rows, k, t) ==
      if t == 0 then
        if k == 0 then 1152 else if k == 2 then 707 else if k == 4 then -17 else if k == 6 then -76
        else if k == 8 then 24 else 0
      else
        if k == 1 then 1100 else if k == 3 then 1041 else if k == 5 then 317 else if k == 7 then -128
        else if k == 9 then -13 else 0
  {
  }

  lemma LastResponse(rows: nat, k: nat, t: nat)
    requires rows % 2 == 0 && rows >= 4 && k < 2 * rows && rows - 2 <= t < rows
    ensures var r := 2 * rows - 1 - k;
      Response(rows, k, t) ==
        if t == rows - 2 then
          if r == 1 then 1100 else if r == 3 then 1041 else if r == 5 then 317 else if r == 7 then -128
          else if r == 9 then -13 else 0
        else
          if r == 0 then 1152 else if r == 2 then 707 else if r == 4 then -17 else if r == 6 then -76
          else if r == 8 then 24 else 0
  {
  }

  /** The same for a cell in the first or the last row of a field. */
  lemma EdgeCell(f: Format, u: seq<int>, out: seq<int>, t: nat, c: nat, v: int, k: nat, j: nat)
    requires |u| == f.rows * f.cols && |out| == 2 * f.rows * f.cols && Filtered(f, u, out) && f.Valid()
    requires f.rows >= 4 && t < f.rows && (t < 2 || t >= f.rows - 2) && c < f.cols && k < 2 * f.rows && j < f.cols
    requires forall m :: 0 <= m < |u| ==> u[m] == if m == t * f.cols + c then v else 0
    ensures 0 <= k * f.cols + j < |out|
    ensures var r := 2 * f.rows - 1 - k;
      var w :=
        if j != c then 0
        else if t == 0 then
          if k == 0 then 1152 else if k == 2 then 707 else if k == 4 then -17 else if k == 6 then -76
          else if k == 8 then 24 else 0
        else if t == 1 then
          if k == 1 then 1100 else if k == 3 then 1041 else if k == 5 then 317 else if k == 7 then -128
          else if k == 9 then -13 else 0
        else if t == f.rows - 2 then
          if r == 1 then 1100 else if r == 3 then 1041 else if r == 5 then 317 else if r == 7 then -128
          else if r == 9 then -13 else 0
        else
          if r == 0 then 1152 else if r == 2 then 707 else if r == 4 then -17 else if r == 6 then -76
          else if r == 8 then 24 else 0;
      out[k * f.cols + j] == Clip(CDiv(w * v + 512, 1024), f.minval, f.maxval)
  {
    Address(2 * f.rows, f.cols, k, j);
    OnlyCell(f, u, t, c, v, k, j, f.rows);
    hide Total, CDiv, Clip, Response;
    if t < 2 { FirstResponse(f.rows, k, t); } else { LastResponse(f.rows, k, t); }
  }

  lemma {:induction false} OnlyCell(f: Format, u: seq<int>, t: nat, c: nat, v: int, k: nat, j: nat, n: nat)
    requires |u| == f.rows * f.cols && j < f.cols && n <= f.rows && t < f.rows && c < f.cols
    requires forall m :: 0 <= m < |u| ==> u[m] == if m == t * f.cols + c then v else 0
    ensures Total(f, u, k, j, n) == if t < n && j == c then Response(f.rows, k, t) * v else 0
  {
    if n > 0 {
      hide Response;
      OnlyCell(f, u, t, c, v, k, j, n - 1);
      Address(f.rows, f.cols, n - 1, j);
      if (n - 1) * f.cols + j == t * f.cols + c {
        AddressDistinct(f.cols, n - 1, j, t, c);
      }
    }
  }

  // ---------- the conversion ----------

  /**
    The whole conversion of a plane: every output row is what its one pass computes, every
    cell is within the bounds, and a constant plane within them stays that constant.
   */
  method ConvertPlane(f: Format, u: array<int>, out: array<int>)
    requires f.Valid() && u != out && u.Length == f.rows * f.cols && out.Length == 2 * f.rows * f.cols
    modifies out
    ensures forall k: nat :: k < 2 * f.rows ==> RowDone(f, u[..], out[..], k)
    ensures Filtered(f, u[..], out[..])
    ensures f.minval <= f.maxval ==> forall m :: 0 <= m < out.Length ==> f.minval <= out[m] <= f.maxval
    ensures forall v: nat :: f.minval <= v <= f.maxval && Constant(u[..], v) ==> Constant(out[..], v)
  {
    hide RowDone;
    forall k: nat | k < 2 * f.rows ensures InRow(k) >= 0 { FilledOnce(f.rows, k); }
    Pass(f, u, out, 0);
    Pass(f, u, out, 1);
    Pass(f, u, out, 2);
    Pass(f, u, out, 3);
    AllFiltered(f, u[..], out[..]);
    if f.minval <= f.maxval {
      AllClipped(f, u[..], out[..]);
    }
    forall v: nat | f.minval <= v <= f.maxval && Constant(u[..], v)
      ensures Constant(out[..], v)
    {
      AllConstant(f, u[..], out[..], v);
    }
  }

  ghost predicate Constant(s: seq<int>, v: int) {
    forall m :: 0 <= m < |s| ==> s[m] == v
  }
}
