/**
  The end of the distributed heat program: every run ends, the blocks tile the plate, and
  the matrix gathered at rank 0 is the one the sequential program computes. The plan of
  rows a rank computes is right exactly when each rank has at least two rows.
 */
module HeatMpiResult {
  import opened Options
  import opened HeatStencil
  import opened HeatMpi
  import opened HeatMpiInv
  import opened HeatMpiRun
  import opened Multiples

  // ---------- every run ends ----------

  ghost function PerIteration(cfg: Config, r: nat): int
    requires cfg.np > 0
  {
    5 * Slots(cfg, r) + EndNX(cfg, r) - InitNX(cfg, r) + 1
  }

  /** The steps of its program that a rank has left in this iteration. */
  ghost function LeftHere(cfg: Config, r: nat, pc: Pc): int
    requires cfg.np > 0
  {
    var n := Slots(cfg, r);
    match pc
    case First(i) => Height(cfg, r) - i
    case Post(c) => PerIteration(cfg, r) - c
    case Inner(i) => 3 * n + EndNX(cfg, r) - i + 1
    case WaitRecv(k) => 3 * (n - k)
    case WaitSend(k) => 3 * (n - k) - 1
    case Edge(k) => 3 * (n - k) - 2
    case Ended => 0
  }

  /** The steps of the iterations after this one. */
  ghost function LeftLater(cfg: Config, r: nat, it: nat): int
    requires cfg.np > 0
  {
    if it < cfg.steps then PerIteration(cfg, r) * (cfg.steps - 1 - it) else 0
  }

  lemma LaterStep(cfg: Config, r: nat, it: nat)
    requires cfg.Valid() && r < cfg.np
    ensures LeftLater(cfg, r, it) >= 0 && PerIteration(cfg, r) >= 1
    ensures it + 1 < cfg.steps ==> LeftLater(cfg, r, it) == LeftLater(cfg, r, it + 1) + PerIteration(cfg, r)
  {
    Sizes(cfg, r);
    var m := PerIteration(cfg, r);
    if it < cfg.steps {
      var n := cfg.steps - 1 - it;
      assert m * n >= 0;
      assert n >= 1 ==> m * n == m * (n - 1) + m;
    }
  }

  /** Its program steps left, and the messages it has still to send and to receive. */
  ghost function Left(cfg: Config, r: nat, p: Rank): int
    requires cfg.np > 0 && |p.picked| == |p.got| == 2
  {
    LeftHere(cfg, r, p.pc) + LeftLater(cfg, r, p.it)
    + 4 * cfg.steps - p.picked[0] - p.got[0] - p.picked[1] - p.got[1]
  }

  lemma LeftNat(cfg: Config, r: nat, p: Rank)
    requires cfg.Valid() && RankInv(cfg, r, p) && (Slots(cfg, r) == 1 ==> p.picked[1] == p.got[1] == 0)
    ensures Left(cfg, r, p) >= 0
  {
    Sizes(cfg, r);
    LaterStep(cfg, r, p.it);
    hide LeftLater, Data;
    Counts(cfg, r, p, 0);
    if Slots(cfg, r) == 2 {
      Counts(cfg, r, p, 1);
    }
    hide Requests, Height, EndNX;
  }

  lemma Counts(cfg: Config, r: nat, p: Rank, k: nat)
    requires cfg.Valid() && RankInv(cfg, r, p) && k < Slots(cfg, r)
    ensures p.picked[k] <= p.it && p.got[k] <= p.it
  {
  }

  lemma StepDecreases(cfg: Config, r: nat, p: Rank, p': Rank)
    requires cfg.Valid() && RankInv(cfg, r, p) && RankStep(cfg, r, p) == Some(p')
    ensures Left(cfg, r, p') < Left(cfg, r, p)
  {
    hide Data, Requests, LeftLater;
    Sizes(cfg, r);
    StepKeeps(cfg, r, p, p');
    StepLeft(cfg, r, p, p');
    LaterStep(cfg, r, p.it);
    LaterStep(cfg, r, p.it + 1);
    hide RankStep, LeftHere, PerIteration;
    assert p.it + 1 < cfg.steps || LeftLater(cfg, r, p.it + 1) == 0 by { LastLater(cfg, r, p.it + 1); }
  }

  lemma LastLater(cfg: Config, r: nat, it: nat)
    requires cfg.np > 0
    ensures it >= cfg.steps ==> LeftLater(cfg, r, it) == 0
  {
  }

  lemma StepLeft(cfg: Config, r: nat, p: Rank, p': Rank)
    requires cfg.Valid() && Shaped(cfg, r, p) && RankStep(cfg, r, p) == Some(p')
    ensures p'.it == p.it ==> LeftHere(cfg, r, p'.pc) < LeftHere(cfg, r, p.pc)
    ensures p'.it != p.it ==> p'.it == p.it + 1 && LeftHere(cfg, r, p.pc) >= 1
    ensures p'.it != p.it ==> LeftHere(cfg, r, p'.pc) == (if p'.it < cfg.steps then PerIteration(cfg, r) else 0)
  {
    hide ComputeRow, Grid;
    Sizes(cfg, r);
    hide EdgeRow, SendRow, RecvRow, Height, EndNX;
  }

  ghost function LeftAll(cfg: Config, s: State): int
    requires cfg.np > 0 && forall r :: 0 <= r < |s| ==> |s[r].picked| == |s[r].got| == 2
  {
    if |s| == 0 then 0 else LeftAll(cfg, s[..|s| - 1]) + Left(cfg, |s| - 1, s[|s| - 1])
  }

  lemma LeftUpdate(cfg: Config, s: State, r: nat, p: Rank)
    requires cfg.np > 0 && (forall x :: 0 <= x < |s| ==> |s[x].picked| == |s[x].got| == 2) && r < |s|
    requires |p.picked| == |p.got| == 2
    ensures LeftAll(cfg, s[r := p]) == LeftAll(cfg, s) - Left(cfg, r, s[r]) + Left(cfg, r, p)
  {
    var t := s[r := p];
    if r < |s| - 1 {
      assert t[..|s| - 1] == s[..|s| - 1][r := p];
      LeftUpdate(cfg, s[..|s| - 1], r, p);
    } else {
      assert t[..r] == s[..r];
    }
  }

  /** Request 1 of a rank with one neighbour is never used. */
  ghost predicate Unused(cfg: Config, s: State)
    requires cfg.Valid() && AllShaped(cfg, s)
  {
    forall r :: 0 <= r < cfg.np && Slots(cfg, r) == 1 ==> s[r].picked[1] == s[r].got[1] == 0
  }

  lemma {:induction false} UnusedKept(cfg: Config, mvs: seq<Move>)
    requires cfg.Valid() && After(cfg, mvs).Some?
    ensures Unused(cfg, After(cfg, mvs).value)
  {
    if |mvs| > 0 {
      var n := |mvs| - 1;
      UnusedKept(cfg, mvs[..n]);
      UnusedStep(cfg, After(cfg, mvs[..n]).value, mvs[n]);
    }
  }

  lemma UnusedStep(cfg: Config, s: State, mv: Move)
    requires cfg.Valid() && Inv(cfg, s) && Unused(cfg, s) && Fire(cfg, s, mv).Some?
    requires AllShaped(cfg, Fire(cfg, s, mv).value)
    ensures Unused(cfg, Fire(cfg, s, mv).value)
  {
    hide RankInv, Links;
    match mv
    case Step(r) => StepKeeps(cfg, r, s[r], RankStep(cfg, r, s[r]).value);
    case PickUp(r, k) => PickupUnused(cfg, s, r, k);
    case PutDown(r, k) =>
  }

  lemma PickupUnused(cfg: Config, s: State, r: nat, k: nat)
    requires cfg.Valid() && AllShaped(cfg, s) && Unused(cfg, s) && Pickup(cfg, s, r, k).Some?
    requires AllShaped(cfg, Pickup(cfg, s, r, k).value)
    ensures Unused(cfg, Pickup(cfg, s, r, k).value)
  {
    hide Inside;
  }

  lemma FireDecreases(cfg: Config, s: State, mv: Move)
    requires cfg.Valid() && Inv(cfg, s) && Fire(cfg, s, mv).Some? && AllShaped(cfg, Fire(cfg, s, mv).value)
    ensures LeftAll(cfg, Fire(cfg, s, mv).value) < LeftAll(cfg, s)
  {
    hide RankInv, Links;
    match mv
    case Step(r) =>
      var p' := RankStep(cfg, r, s[r]).value;
      StepDecreases(cfg, r, s[r], p');
      hide Left, RankStep;
      LeftUpdate(cfg, s, r, p');
    case PickUp(r, k) => PickupDecreases(cfg, s, r, k);
    case PutDown(r, k) =>
      var p' := Fire(cfg, s, mv).value[r];
      assert Left(cfg, r, p') == Left(cfg, r, s[r]) - 1;
      hide Left;
      LeftUpdate(cfg, s, r, p');
  }

  lemma PickupDecreases(cfg: Config, s: State, r: nat, k: nat)
    requires cfg.Valid() && Inv(cfg, s) && Pickup(cfg, s, r, k).Some? && AllShaped(cfg, Pickup(cfg, s, r, k).value)
    ensures LeftAll(cfg, Pickup(cfg, s, r, k).value) < LeftAll(cfg, s)
  {
    hide RankInv, Links;
    Facing(cfg, r, k);
    var p := s[r];
    var p' := p.(send := p.send[k := Complete], picked := p.picked[k := p.picked[k] + 1]);
    assert Left(cfg, r, p') == Left(cfg, r, p) - 1;
    LeftUpdate(cfg, s, r, p');
    var s1 := s[r := p'];
    var s' := Pickup(cfg, s, r, k).value;
    var q := Peer(cfg, r, k);
    assert s' == s1[q := s'[q]];
    assert Left(cfg, q, s'[q]) == Left(cfg, q, s1[q]);
    LeftUpdate(cfg, s1, q, s'[q]);
  }

  lemma {:induction false} RunDecreases(cfg: Config, mvs: seq<Move>)
    requires cfg.Valid() && After(cfg, mvs).Some?
    ensures |mvs| + LeftAll(cfg, After(cfg, mvs).value) <= LeftAll(cfg, Init(cfg))
  {
    if |mvs| > 0 {
      hide LeftAll, Inv, Fire;
      var n := |mvs| - 1;
      RunDecreases(cfg, mvs[..n]);
      var s := After(cfg, mvs[..n]).value;
      ShapedRun(cfg, s);
      ShapedRun(cfg, After(cfg, mvs).value);
      FireDecreases(cfg, s, mvs[n]);
    }
  }

  lemma ShapedRun(cfg: Config, s: State)
    requires cfg.Valid() && Inv(cfg, s)
    ensures AllShaped(cfg, s)
  {
  }

  lemma LeftAllNat(cfg: Config, s: State)
    requires cfg.np > 0 && forall r :: 0 <= r < |s| ==> |s[r].picked| == |s[r].got| == 2 && Left(cfg, r, s[r]) >= 0
    ensures LeftAll(cfg, s) >= 0
  {
    if |s| > 0 {
      LeftAllNat(cfg, s[..|s| - 1]);
    }
  }

  /** No run is longer than what is left at the start. */
  lemma RunLength(cfg: Config, mvs: seq<Move>)
    requires cfg.Valid() && After(cfg, mvs).Some?
    ensures |mvs| <= LeftAll(cfg, Init(cfg))
  {
    hide Left, LeftAll, RankInv, Links, Fire;
    var s := After(cfg, mvs).value;
    RunDecreases(cfg, mvs);
    UnusedKept(cfg, mvs);
    forall r | 0 <= r < |s| ensures Left(cfg, r, s[r]) >= 0 {
      LeftNat(cfg, r, s[r]);
    }
    LeftAllNat(cfg, s);
  }

  /** Every run can be continued until every rank has ended. */
  lemma {:induction false} RunEnds(cfg: Config, mvs: seq<Move>) returns (more: seq<Move>)
    requires cfg.Valid() && After(cfg, mvs).Some?
    ensures After(cfg, mvs + more).Some? && AllEnded(After(cfg, mvs + more).value)
    decreases LeftAll(cfg, Init(cfg)) - |mvs|
  {
    hide LeftAll, Inv, Prompt, Fire, Init;
    if AllEnded(After(cfg, mvs).value) {
      more := [];
      assert mvs + [] == mvs;
    } else {
      var mv := NoDeadlock(cfg, mvs);
      RunLength(cfg, mvs + [mv]);
      var rest := RunEnds(cfg, mvs + [mv]);
      more := [mv] + rest;
      assert mvs + more == mvs + [mv] + rest;
    }
  }

  // ---------- the blocks tile the plate ----------

  /** Every row of the plate belongs to exactly one rank: blocks of nx / np rows, the last taking what is left. */
  lemma RowsTile(cfg: Config, g: int) returns (r: nat, i: int)
    requires cfg.Valid() && 0 <= g < cfg.pl.nx
    ensures Owned(cfg, r, i) && Offset(cfg, r) + i == g
    ensures var d := g / (cfg.pl.nx / cfg.np); r == if d < cfg.np then d else cfg.np - 1
    ensures forall r': nat, i' :: Owned(cfg, r', i') && Offset(cfg, r') + i' == g ==> r' == r && i' == i
  {
    hide Owned, Offset, Config.Part;
    r, i := Owner(cfg, g);
    PartIs(cfg);
    forall r': nat, i' | Owned(cfg, r', i') && Offset(cfg, r') + i' == g
      ensures r' == r && i' == i
    {
      OneOwner(cfg, r, i, r', i');
    }
  }

  lemma PartIs(cfg: Config)
    requires cfg.Valid()
    ensures cfg.Part() == cfg.pl.nx / cfg.np
  {
  }

  lemma Owner(cfg: Config, g: int) returns (r: nat, i: int)
    requires cfg.Valid() && 0 <= g < cfg.pl.nx
    ensures Owned(cfg, r, i) && Offset(cfg, r) + i == g
    ensures cfg.Part() > 0 && var d := g / cfg.Part(); r == if d < cfg.np then d else cfg.np - 1
  {
    var a := cfg.Part();
    Products(cfg, 0);
    var d := OwnerBlock(g, a);
    r := if d < cfg.np - 1 then d else cfg.np - 1;
    i := g - Offset(cfg, r);
    Products(cfg, r);
    if r == cfg.np - 1 {
      Monotone(a, r, d);
    }
    hide Config.Part, Config.Extra;
  }

  lemma OwnerBlock(g: nat, a: nat) returns (d: nat)
    requires a > 0
    ensures a * d <= g < a * d + a && d == g / a
  {
    d := g / a;
    assert g == a * d + g % a;
  }

  lemma OneOwner(cfg: Config, r: nat, i: int, r': nat, i': int)
    requires cfg.Valid() && Owned(cfg, r, i) && Owned(cfg, r', i') && Offset(cfg, r) + i == Offset(cfg, r') + i'
    ensures r' == r && i' == i
  {
    if r' < r {
      Apart(cfg, r', i', r, i);
    } else if r < r' {
      Apart(cfg, r, i, r', i');
    }
  }

  lemma Apart(cfg: Config, r: nat, i: int, r': nat, i': int)
    requires cfg.Valid() && Owned(cfg, r, i) && Owned(cfg, r', i') && r < r'
    ensures Offset(cfg, r) + i < Offset(cfg, r') + i'
  {
    Products(cfg, r);
    Products(cfg, r');
    Monotone(cfg.Part(), r + 1, r');
  }

  // ---------- the plan of rows ----------

  /** How often an iteration of rank r computes row i: before the waits, and after each. */
  ghost function Times(cfg: Config, r: nat, i: int): nat
    requires cfg.np > 0
  {
    (if InitNX(cfg, r) <= i < EndNX(cfg, r) then 1 else 0) + (if i == EdgeRow(cfg, r, 0) then 1 else 0)
    + (if Slots(cfg, r) == 2 && i == EdgeRow(cfg, r, 1) then 1 else 0)
  }

  /** Rank r computes each of its rows between the first and the last exactly once, and no other row. */
  ghost predicate PlanRight(cfg: Config, r: nat)
    requires cfg.np > 0
  {
    forall i :: Times(cfg, r, i) == if 0 < i < Height(cfg, r) - 1 then 1 else 0
  }

  /** The plan is right at every rank exactly when no rank has fewer than two rows of its own. */
  lemma PlanRightIff(cfg: Config)
    requires cfg.np >= 3
    ensures (forall r: nat :: r < cfg.np ==> PlanRight(cfg, r)) <==> cfg.pl.nx / cfg.np >= 2
  {
    assert cfg.pl.nx / cfg.np >= 0;
    if cfg.pl.nx / cfg.np < 2 {
      assert Times(cfg, 0, 1) == 1;
      assert !PlanRight(cfg, 0);
      assert 0 < cfg.np;
    } else {
      assert cfg.Part() * cfg.np <= cfg.pl.nx;
    }
  }

  // ---------- the gather ----------

  /** The matrix in one stretch of memory: element m of the plate after t steps. */
  ghost function Element(pl: Plate, t: nat, m: nat): Cell
    requires pl.ny > 0 && m < pl.nx * pl.ny
  {
    RowIndex(m, pl.nx, pl.ny);
    pl.At(t, m / pl.ny)[m % pl.ny]
  }

  lemma RowIndex(m: nat, nx: nat, ny: nat)
    requires ny > 0 && m < nx * ny
    ensures 0 <= m / ny < nx && 0 <= m % ny < ny
  {
    assert m == ny * (m / ny) + m % ny;
    if m / ny >= nx {
      Monotone(ny, nx, m / ny);
    }
  }

  ghost predicate Finished(cfg: Config, s: State)
    requires cfg.Valid()
  {
    AllShaped(cfg, s) && forall r, i :: 0 <= r && Owned(cfg, r, i) ==> s[r].x[s[r].iz][i] == Want(cfg, cfg.steps, r, i)
  }

  /** The first row a rank sends to the gather. */
  function FirstSent(r: nat): nat { if r == 0 then 0 else 1 }

  /** Rows a rank owns, and sends. */
  function Rows(cfg: Config, r: nat): nat
    requires cfg.Valid()
  {
    Sizes(cfg, 0);
    cfg.Part() + if r == cfg.np - 1 then cfg.Extra() else 0
  }

  /** Where the block of a rank starts in the gathered matrix. */
  function Displ(cfg: Config, r: nat): int
    requires cfg.np > 0
  {
    r * (cfg.pl.ny * cfg.Part())
  }

  /** Element e of what a rank sends belongs at this place of the plate. */
  lemma Position(cfg: Config, r: nat, e: nat)
    requires cfg.Valid() && r < cfg.np && e < cfg.pl.ny * Rows(cfg, r)
    ensures var m, g := Displ(cfg, r) + e, cfg.Part() * r + e / cfg.pl.ny;
      m < cfg.pl.nx * cfg.pl.ny && m / cfg.pl.ny == g < cfg.pl.nx && m % cfg.pl.ny == e % cfg.pl.ny
        && e / cfg.pl.ny < Rows(cfg, r)
  {
    Products(cfg, r);
    Place(r, cfg.pl.ny, cfg.Part(), Rows(cfg, r), cfg.pl.nx, e);
  }

  lemma Place(r: nat, ny: nat, a: nat, rows: nat, nx: nat, e: nat)
    requires ny > 0 && e < ny * rows && a * r + rows <= nx
    ensures var m, g := r * (ny * a) + e, a * r + e / ny;
      m < nx * ny && m / ny == g && m % ny == e % ny && e / ny < rows
  {
    var d, x := e / ny, e % ny;
    RowIndex(e, rows, ny);
    Scaled(r, ny, a, d, x);
    assert e == ny * d + x;
    DivUnique((a * r + d) * ny + x, ny, a * r + d, x);
    Monotone(ny, a * r + d + 1, nx);
  }

  lemma Scaled(r: nat, ny: nat, a: nat, d: nat, x: nat)
    ensures r * (ny * a) + (ny * d + x) == (a * r + d) * ny + x
    ensures ny * (a * r + d + 1) == (a * r + d) * ny + ny
  {
    assert r * (ny * a) == (a * r) * ny;
  }

  /** Element e of what a rank sends to the gather. */
  function Sent(cfg: Config, s: State, r: nat, e: nat): Cell
    requires cfg.Valid() && AllShaped(cfg, s) && r < cfg.np && e < cfg.pl.ny * Rows(cfg, r)
  {
    RowIndex(e, Rows(cfg, r), cfg.pl.ny);
    s[r].x[s[r].iz][FirstSent(r) + e / cfg.pl.ny][e % cfg.pl.ny]
  }

  /** The row that element e of what a rank sends is in. */
  lemma SentRow(cfg: Config, r: nat, e: nat)
    requires cfg.Valid() && r < cfg.np && e < cfg.pl.ny * Rows(cfg, r)
    ensures var i := FirstSent(r) + e / cfg.pl.ny;
      Local(cfg, r, i) && Owned(cfg, r, i) && Offset(cfg, r) + i == cfg.Part() * r + e / cfg.pl.ny
  {
    RowIndex(e, Rows(cfg, r), cfg.pl.ny);
    hide Config.Part, Config.Extra;
  }

  lemma ElementAt(pl: Plate, t: nat, m: nat, g: nat, j: nat)
    requires pl.ny > 0 && m < pl.nx * pl.ny && m / pl.ny == g < pl.nx && m % pl.ny == j
    ensures j < pl.ny && Element(pl, t, m) == pl.At(t, g)[j]
  {
    hide Plate.At;
  }

  lemma SentAt(cfg: Config, s: State, r: nat, e: nat, i: nat)
    requires cfg.Valid() && Finished(cfg, s) && r < cfg.np && e < cfg.pl.ny * Rows(cfg, r)
    requires i == FirstSent(r) + e / cfg.pl.ny && Owned(cfg, r, i)
    ensures e % cfg.pl.ny < cfg.pl.ny && Sent(cfg, s, r, e) == Want(cfg, cfg.steps, r, i)[e % cfg.pl.ny]
  {
    hide Want, Owned, Height;
  }

  /** What a rank sends to the gather lands where the plate has it. */
  lemma Lands(cfg: Config, s: State, r: nat, e: nat)
    requires cfg.Valid() && Finished(cfg, s) && r < cfg.np && e < cfg.pl.ny * Rows(cfg, r)
    ensures Displ(cfg, r) + e < cfg.pl.nx * cfg.pl.ny
    ensures Sent(cfg, s, r, e) == Element(cfg.pl, cfg.steps, Displ(cfg, r) + e)
  {
    hide Plate.At, Config.Part, Config.Extra, Rows, Owned, Height, Offset, Element, Sent, Finished, Displ;
    Position(cfg, r, e);
    SentRow(cfg, r, e);
    var i := FirstSent(r) + e / cfg.pl.ny;
    SentAt(cfg, s, r, e, i);
    InPlate(cfg, r, i);
    ElementAt(cfg.pl, cfg.steps, Displ(cfg, r) + e, Offset(cfg, r) + i, e % cfg.pl.ny);
  }

  /** How many elements rank 0 expects from each rank, and where it puts them. */
  method Layout(cfg: Config) returns (recvcounts: array<nat>, displs: array<nat>)
    requires cfg.Valid()
    ensures fresh(recvcounts) && fresh(displs) && recvcounts.Length == displs.Length == cfg.np
    ensures forall r :: 0 <= r < cfg.np ==>
      recvcounts[r] == cfg.pl.ny * Rows(cfg, r) && displs[r] == Displ(cfg, r)
  {
    var np, ny := cfg.np, cfg.pl.ny;
    var middle := cfg.pl.nx / np;
    Products(cfg, 0);
    var last := middle + (cfg.pl.nx - middle * np);
    recvcounts, displs := new nat[np], new nat[np];
    var i := 0;
    while i < np - 1
      invariant 0 <= i <= np - 1
      invariant forall r :: 0 <= r < i ==> recvcounts[r] == ny * middle && displs[r] == r * (ny * middle)
    {
      recvcounts[i], displs[i] := ny * middle, i * (ny * middle);
      i := i + 1;
    }
    recvcounts[i], displs[i] := ny * last, i * (ny * middle);
  }

  /** The first n elements of the gathered matrix are the plate's. */
  ghost predicate Filled(cfg: Config, x2: array<Cell>, n: int)
    requires cfg.pl.ny > 0 && x2.Length == cfg.pl.nx * cfg.pl.ny
    reads x2
  {
    forall m :: 0 <= m < x2.Length && m < n ==> x2[m] == Element(cfg.pl, cfg.steps, m)
  }

  /** The elements of one rank are put where rank 0 wants them. */
  method PutBlock(cfg: Config, s: State, r: nat, count: nat, displ: nat, x2: array<Cell>)
    requires cfg.Valid() && Finished(cfg, s) && x2.Length == cfg.pl.nx * cfg.pl.ny && r < cfg.np
    requires count == cfg.pl.ny * Rows(cfg, r) && displ == Displ(cfg, r) && Filled(cfg, x2, displ)
    modifies x2
    ensures Filled(cfg, x2, displ + count)
  {
    hide Element, Sent, Rows, Config.Part;
    var e := 0;
    while e < count
      invariant 0 <= e <= count && Filled(cfg, x2, displ + e)
    {
      Lands(cfg, s, r, e);
      x2[displ + e] := Sent(cfg, s, r, e);
      e := e + 1;
    }
  }

  /** The gather: the result is the plate, element by element. */
  method Gather(cfg: Config, s: State, x2: array<Cell>)
    requires cfg.Valid() && Finished(cfg, s) && x2.Length == cfg.pl.nx * cfg.pl.ny
    modifies x2
    ensures Filled(cfg, x2, x2.Length)
  {
    hide Finished, Element;
    var recvcounts, displs := Layout(cfg);
    var r := 0;
    while r < cfg.np
      modifies x2
      invariant 0 <= r <= cfg.np
      invariant Filled(cfg, x2, if r < cfg.np then Displ(cfg, r) else x2.Length)
    {
      BlockEnd(cfg, r);
      PutBlock(cfg, s, r, recvcounts[r], displs[r], x2);
      r := r + 1;
    }
  }

  /** Each block ends where the next one starts, and the last at the end of the plate. */
  lemma BlockEnd(cfg: Config, r: nat)
    requires cfg.Valid() && r < cfg.np
    ensures var d, a := cfg.pl.ny * cfg.Part(), Rows(cfg, r);
      r * d + cfg.pl.ny * a == if r == cfg.np - 1 then cfg.pl.nx * cfg.pl.ny else (r + 1) * d
  {
    var ny, a := cfg.pl.ny, cfg.Part();
    Products(cfg, r);
    assert r * (ny * a) == (a * r) * ny;
    if r == cfg.np - 1 {
      assert ny * (a + cfg.Extra()) == (a + cfg.Extra()) * ny;
      assert (a * r) * ny + (a + cfg.Extra()) * ny == (a * r + a + cfg.Extra()) * ny;
    }
  }

  lemma EndedRank(cfg: Config, r: nat, p: Rank, i: int)
    requires cfg.Valid() && RankInv(cfg, r, p) && p.pc.Ended? && Owned(cfg, r, i)
    ensures p.x[p.iz][i] == Want(cfg, cfg.steps, r, i)
  {
    assert Known(cfg, r, p, i);
  }

  /** Whatever the interleaving, once all ranks have ended the gather finds the plate after the last step. */
  lemma GatherReady(cfg: Config, mvs: seq<Move>)
    requires cfg.Valid() && After(cfg, mvs).Some? && AllEnded(After(cfg, mvs).value)
    ensures Finished(cfg, After(cfg, mvs).value)
  {
    hide RankInv, Want, Fire, Links;
    var s := After(cfg, mvs).value;
    forall r: nat, i | Owned(cfg, r, i)
      ensures s[r].x[s[r].iz][i] == Want(cfg, cfg.steps, r, i)
    {
      EndedRank(cfg, r, s[r], i);
    }
  }

  /** Where element (i, j) is when a matrix lies in memory row by row. */
  function Index(pl: Plate, i: int, j: int): int { i * pl.ny + j }

  lemma SameAsSequential(cfg: Config, seqResult: array2<Cell>, x2: array<Cell>, i: int, j: int)
    requires cfg.Valid() && seqResult.Length0 == cfg.pl.nx && seqResult.Length1 == cfg.pl.ny
    requires HoldsStep(cfg.pl, seqResult, cfg.steps) && x2.Length == cfg.pl.nx * cfg.pl.ny && Filled(cfg, x2, x2.Length)
    requires 0 <= i < cfg.pl.nx && 0 <= j < cfg.pl.ny
    ensures 0 <= Index(cfg.pl, i, j) < x2.Length && x2[Index(cfg.pl, i, j)] == seqResult[i, j]
  {
    hide Plate.At;
    IndexDiv(cfg.pl, i, j);
    hide Index;
  }

  lemma IndexDiv(pl: Plate, i: int, j: int)
    requires pl.Valid() && 0 <= i < pl.nx && 0 <= j < pl.ny
    ensures Index(pl, i, j) == i * pl.ny + j
    ensures 0 <= Index(pl, i, j) < pl.nx * pl.ny && Index(pl, i, j) / pl.ny == i && Index(pl, i, j) % pl.ny == j
  {
    Monotone(pl.ny, i + 1, pl.nx);
    DivUnique(i * pl.ny + j, pl.ny, i, j);
  }

  /** The matrix in one stretch of memory has the elements of the two-dimensional one, row by row. */
  ghost predicate SameMatrix(pl: Plate, x2: array<Cell>, a: array2<Cell>)
    reads x2, a
  {
    && a.Length0 == pl.nx && a.Length1 == pl.ny
    && forall i, j :: 0 <= i < pl.nx && 0 <= j < pl.ny ==>
      0 <= Index(pl, i, j) < x2.Length && x2[Index(pl, i, j)] == a[i, j]
  }

  lemma AllTheSame(cfg: Config, seqResult: array2<Cell>, x2: array<Cell>)
    requires cfg.Valid() && seqResult.Length0 == cfg.pl.nx && seqResult.Length1 == cfg.pl.ny
    requires HoldsStep(cfg.pl, seqResult, cfg.steps) && x2.Length == cfg.pl.nx * cfg.pl.ny && Filled(cfg, x2, x2.Length)
    ensures SameMatrix(cfg.pl, x2, seqResult)
  {
    hide HoldsStep, Filled, Index;
    forall i, j | 0 <= i < cfg.pl.nx && 0 <= j < cfg.pl.ny
      ensures 0 <= Index(cfg.pl, i, j) < x2.Length && x2[Index(cfg.pl, i, j)] == seqResult[i, j]
    {
      SameAsSequential(cfg, seqResult, x2, i, j);
    }
  }

  /**
    Any run of the distributed program that has ended, followed by the gather, leaves at
    rank 0 the matrix that the sequential program computes.
   */
  method DistributedIsSequential(cfg: Config, ghost mvs: seq<Move>, s: State, x2: array<Cell>)
      returns (seqResult: array2<Cell>)
    requires cfg.Valid() && After(cfg, mvs) == Some(s) && AllEnded(s) && x2.Length == cfg.pl.nx * cfg.pl.ny
    modifies x2
    ensures SameMatrix(cfg.pl, x2, seqResult)
  {
    hide Finished, Filled, HoldsStep, After, AllEnded, SameMatrix;
    GatherReady(cfg, mvs);
    seqResult := Heat(cfg.pl, cfg.steps);
    Gather(cfg, s, x2);
    AllTheSame(cfg, seqResult, x2);
  }
}
