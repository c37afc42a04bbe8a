/**
  What every reachable state of the distributed heat program satisfies: the rows a rank
  owns are the plate's, a neighbour's row is there before it is read, and the messages
  under way are exactly those sent and not yet received.
 */
module HeatMpiInv {
  import opened Options
  import opened HeatStencil
  import opened HeatMpi
  import opened Multiples

  // ---------- the cut ----------

  ghost predicate Local(cfg: Config, r: nat, i: int)
    requires cfg.Valid()
  {
    r < cfg.np && 0 <= i < Height(cfg, r)
  }

  /** Row i of a rank's buffers is a row of its own block, not a copy of a neighbour's. */
  ghost predicate Owned(cfg: Config, r: nat, i: int)
    requires cfg.Valid()
  {
    Local(cfg, r, i) && (r != 0 ==> i > 0) && (r != cfg.np - 1 ==> i < Height(cfg, r) - 1)
  }

  lemma Products(cfg: Config, r: nat)
    requires cfg.Valid() && r < cfg.np
    ensures cfg.Part() * cfg.np == cfg.pl.nx - cfg.Extra() && cfg.Extra() >= 0 && cfg.Part() >= 2
    ensures cfg.Part() * (r + 1) == cfg.Part() * r + cfg.Part()
    ensures 0 <= cfg.Part() * r && (r >= 1 ==> cfg.Part() * r >= cfg.Part())
    ensures cfg.Part() * r + cfg.Part() <= cfg.pl.nx - cfg.Extra()
    ensures r < cfg.np - 1 ==> cfg.Part() * r + 2 * cfg.Part() <= cfg.pl.nx - cfg.Extra()
    ensures r == cfg.np - 1 ==> cfg.Part() * r + cfg.Part() == cfg.pl.nx - cfg.Extra()
  {
    var a, n := cfg.Part(), cfg.np;
    assert a * n <= cfg.pl.nx;
    if r >= 1 { assert a * r == a * (r - 1) + a; }
    Monotone(a, r + 1, n);
    if r < n - 1 { Monotone(a, r + 2, n); assert a * (r + 2) == a * r + 2 * a; }
  }

  /** Local rows are rows of the plate; only the first and the last block reach its border. */
  lemma InPlate(cfg: Config, r: nat, i: int)
    requires cfg.Valid() && Local(cfg, r, i)
    ensures 0 <= Offset(cfg, r) + i < cfg.pl.nx
    ensures cfg.pl.Border(Offset(cfg, r) + i) <==> (r == 0 && i == 0) || (r == cfg.np - 1 && i == Height(cfg, r) - 1)
  {
    Products(cfg, r);
  }

  /** Requests come in facing pairs: what one end sends is the row the other end keeps a copy of. */
  lemma Facing(cfg: Config, r: nat, k: nat)
    requires cfg.Valid() && IsLink(cfg, r, k)
    ensures var q, l := Peer(cfg, r, k), PeerSlot(cfg, r, k);
      && 0 <= q != r && IsLink(cfg, q, l) && Peer(cfg, q, l) == r && PeerSlot(cfg, q, l) == k
      && Offset(cfg, r) + RecvRow(cfg, r, k) == Offset(cfg, q) + SendRow(cfg, q, l)
      && Owned(cfg, q, SendRow(cfg, q, l)) && Local(cfg, r, RecvRow(cfg, r, k)) && !Owned(cfg, r, RecvRow(cfg, r, k))
  {
    Products(cfg, r);
    if r > 0 { Products(cfg, r - 1); }
  }

  // ---------- the invariant of one rank ----------

  /** The plate's row for row i of rank r, after t steps. */
  ghost function Want(cfg: Config, t: nat, r: nat, i: int): Row
    requires cfg.Valid() && Local(cfg, r, i)
  {
    InPlate(cfg, r, i);
    cfg.pl.At(t, Offset(cfg, r) + i)
  }

  /** Row i of the current buffer is up to date: an own row, or a copy that has been received. */
  ghost predicate Known(cfg: Config, r: nat, p: Rank, i: int)
    requires cfg.Valid() && |p.got| == 2
  {
    Local(cfg, r, i) && (Owned(cfg, r, i) || p.it == 0
      || (exists k :: 0 <= k < Slots(cfg, r) && i == RecvRow(cfg, r, k) && p.got[k] == p.it))
  }

  /** Row i of the next buffer has been computed. */
  ghost predicate DoneRow(cfg: Config, r: nat, pc: Pc, i: int)
    requires cfg.Valid()
  {
    match pc
    case First(x) => 1 <= i < x
    case Post(_) => false
    case Inner(x) => InitNX(cfg, r) <= i < x
    case WaitRecv(k) => InitNX(cfg, r) <= i < EndNX(cfg, r) || (k == 1 && i == EdgeRow(cfg, r, 0))
    case WaitSend(k) => InitNX(cfg, r) <= i < EndNX(cfg, r) || (k == 1 && i == EdgeRow(cfg, r, 0))
    case Edge(k) => InitNX(cfg, r) <= i < EndNX(cfg, r) || (k == 1 && i == EdgeRow(cfg, r, 0))
    case Ended => false
  }

  /** First and last columns, and the border rows, are zero in both buffers. */
  ghost predicate Frame(cfg: Config, r: nat, x: seq<Row>)
    requires cfg.Valid() && Grid(cfg, r, x)
  {
    && (forall i :: 0 <= i < |x| ==> ZeroEnds(x[i]))
    && forall i :: Local(cfg, r, i) && cfg.pl.Border(Offset(cfg, r) + i) ==> x[i] == cfg.pl.Zero()
  }

  ghost predicate Data(cfg: Config, r: nat, p: Rank)
    requires cfg.Valid() && Shaped(cfg, r, p)
  {
    var cur, nxt := p.x[p.iz], p.x[1 - p.iz];
    && Frame(cfg, r, cur) && Frame(cfg, r, nxt)
    && (forall i :: Known(cfg, r, p, i) ==> cur[i] == Want(cfg, p.it, r, i))
    && (forall i :: Local(cfg, r, i) && DoneRow(cfg, r, p.pc, i) ==> nxt[i] == Want(cfg, p.it + 1, r, i))
  }

  datatype Stage = Unposted | Posted | Waited

  ghost function SendStage(cfg: Config, r: nat, pc: Pc, k: nat): Stage {
    match pc
    case First(_) => Unposted
    case Post(c) => if k < c then Posted else Unposted
    case Inner(_) => Posted
    case WaitRecv(y) => if k < y then Waited else Posted
    case WaitSend(y) => if k < y then Waited else Posted
    case Edge(y) => if k <= y then Waited else Posted
    case Ended => Unposted
  }

  ghost function RecvStage(cfg: Config, r: nat, pc: Pc, k: nat): Stage {
    match pc
    case First(_) => Unposted
    case Post(c) => if Slots(cfg, r) + k < c then Posted else Unposted
    case Inner(_) => Posted
    case WaitRecv(y) => if k < y then Waited else Posted
    case WaitSend(y) => if k <= y then Waited else Posted
    case Edge(y) => if k <= y then Waited else Posted
    case Ended => Unposted
  }

  /** The request of this iteration, and how many of its kind have completed. */
  ghost predicate RequestOk(stage: Stage, req: Request, done: nat, it: nat, want: Request) {
    match stage
    case Unposted => req == Null && (done + 1 == it || (it == 0 && done == 0))
    case Posted => it >= 1 && ((req == want && done + 1 == it) || (req == Complete && done == it))
    case Waited => it >= 1 && req == Null && done == it
  }

  ghost predicate Requests(cfg: Config, r: nat, p: Rank)
    requires cfg.Valid() && Shaped(cfg, r, p)
  {
    forall k :: 0 <= k < Slots(cfg, r) ==>
      && RequestOk(SendStage(cfg, r, p.pc, k), p.send[k], p.picked[k], p.it, Pending(p.iz, SendRow(cfg, r, k), p.it))
      && RequestOk(RecvStage(cfg, r, p.pc, k), p.recv[k], p.got[k], p.it, Pending(p.iz, RecvRow(cfg, r, k), p.it))
  }

  ghost predicate RankInv(cfg: Config, r: nat, p: Rank)
    requires cfg.Valid()
  {
    && Shaped(cfg, r, p) && Data(cfg, r, p) && Requests(cfg, r, p)
    && (p.pc.First? <==> p.it == 0) && (if p.pc.Ended? then p.it == cfg.steps else p.it < cfg.steps)
  }

  // ---------- a rank's own steps keep it ----------

  lemma StepRow(cfg: Config, cur: seq<Row>, i: int, dst: Row)
    requires 0 < i < |cur| - 1 && |cur[i - 1]| == |cur[i]| == |cur[i + 1]| == |dst| == cfg.pl.ny && ZeroEnds(dst)
    ensures ComputeRow(cfg, cur, i, dst) == cfg.pl.RowStep(cur[i - 1], cur[i], cur[i + 1])
  {
    var a, b := ComputeRow(cfg, cur, i, dst), cfg.pl.RowStep(cur[i - 1], cur[i], cur[i + 1]);
    forall j | 0 <= j < cfg.pl.ny ensures a[j] == b[j] {}
  }

  lemma AtStep(pl: Plate, t: nat, i: int)
    requires 0 < i < pl.nx - 1
    ensures pl.At(t + 1, i) == pl.RowStep(pl.At(t, i - 1), pl.At(t, i), pl.At(t, i + 1))
  {
  }

  /** A row computed from up-to-date rows is the plate's next row. */
  lemma ComputedRow(cfg: Config, r: nat, p: Rank, i: int)
    requires cfg.Valid() && Shaped(cfg, r, p) && Data(cfg, r, p) && 0 < i < Height(cfg, r) - 1
    requires Known(cfg, r, p, i - 1) && Known(cfg, r, p, i) && Known(cfg, r, p, i + 1)
    ensures ComputeRow(cfg, p.x[p.iz], i, p.x[1 - p.iz][i]) == Want(cfg, p.it + 1, r, i)
    ensures ZeroEnds(Want(cfg, p.it + 1, r, i))
  {
    hide Height, Offset, Config.Part, ComputeRow, Plate.RowStep, Plate.At, Known, Plate.Border;
    var cur, dst := p.x[p.iz], p.x[1 - p.iz][i];
    InPlate(cfg, r, i);
    InPlate(cfg, r, i - 1);
    InPlate(cfg, r, i + 1);
    var g := Offset(cfg, r) + i;
    AtStep(cfg.pl, p.it, g);
    StepRow(cfg, cur, i, dst);
    assert cur[i - 1] == Want(cfg, p.it, r, i - 1) && cur[i] == Want(cfg, p.it, r, i)
      && cur[i + 1] == Want(cfg, p.it, r, i + 1);
    AtEnds(cfg.pl, p.it + 1, g);
  }

  lemma FrameUpdate(cfg: Config, r: nat, x: seq<Row>, i: int, row: Row)
    requires cfg.Valid() && r < cfg.np && Grid(cfg, r, x) && Frame(cfg, r, x) && 0 < i < Height(cfg, r) - 1
    requires |row| == cfg.pl.ny && ZeroEnds(row)
    ensures Grid(cfg, r, x[i := row]) && Frame(cfg, r, x[i := row])
  {
    InPlate(cfg, r, i);
  }

  /** Computing row i adds it to the rows done and changes nothing else. */
  lemma ComputeKeeps(cfg: Config, r: nat, p: Rank, i: int, pc': Pc)
    requires cfg.Valid() && Shaped(cfg, r, p) && Data(cfg, r, p) && 0 < i < Height(cfg, r) - 1
    requires Known(cfg, r, p, i - 1) && Known(cfg, r, p, i) && Known(cfg, r, p, i + 1)
    requires Shaped(cfg, r, p.(pc := pc'))
    requires forall x :: Local(cfg, r, x) && DoneRow(cfg, r, pc', x) ==> x == i || DoneRow(cfg, r, p.pc, x)
    ensures var p' := Compute(cfg, r, p, i).(pc := pc'); Shaped(cfg, r, p') && Data(cfg, r, p')
  {
    var row := ComputeRow(cfg, p.x[p.iz], i, p.x[1 - p.iz][i]);
    ComputedRow(cfg, r, p, i);
    FrameUpdate(cfg, r, p.x[1 - p.iz], i, row);
    var p' := Compute(cfg, r, p, i).(pc := pc');
    assert p'.x[1 - p.iz] == p.x[1 - p.iz][i := row] && p'.x[p.iz] == p.x[p.iz];
    hide ComputeRow, Want, DoneRow, Owned, Compute, Frame, Slots, RecvRow;
    assert forall x :: Known(cfg, r, p', x) <==> Known(cfg, r, p, x);
    DataUpdate(cfg, r, p, i, p');
  }

  lemma DataUpdate(cfg: Config, r: nat, p: Rank, i: int, p': Rank)
    requires cfg.Valid() && Shaped(cfg, r, p) && Data(cfg, r, p) && Shaped(cfg, r, p') && 0 < i < Height(cfg, r) - 1
    requires p'.iz == p.iz && p'.it == p.it && p'.x[p.iz] == p.x[p.iz]
    requires p'.x[1 - p.iz] == p.x[1 - p.iz][i := Want(cfg, p.it + 1, r, i)]
    requires forall x :: Known(cfg, r, p', x) ==> Known(cfg, r, p, x)
    requires Frame(cfg, r, p'.x[1 - p.iz])
    requires forall x :: Local(cfg, r, x) && DoneRow(cfg, r, p'.pc, x) ==> x == i || DoneRow(cfg, r, p.pc, x)
    ensures Data(cfg, r, p')
  {
    hide Want, DoneRow, Known, Frame, Height;
  }

  lemma StepKeeps(cfg: Config, r: nat, p: Rank, p': Rank)
    requires cfg.Valid() && RankInv(cfg, r, p) && RankStep(cfg, r, p) == Some(p')
    ensures RankInv(cfg, r, p')
    ensures p'.queue == p.queue && p'.picked == p.picked && p'.got == p.got
  {
    Sizes(cfg, r);
    match p.pc
    case First(i) => FirstKeeps(cfg, r, p, p', i);
    case Post(c) => PostKeeps(cfg, r, p, p', c);
    case Inner(i) => InnerKeeps(cfg, r, p, p', i);
    case WaitRecv(k) => WaitKeeps(cfg, r, p, p');
    case WaitSend(k) => WaitKeeps(cfg, r, p, p');
    case Edge(k) => EdgeKeeps(cfg, r, p, p', k);
  }

  lemma FirstKeeps(cfg: Config, r: nat, p: Rank, p': Rank, i: int)
    requires cfg.Valid() && RankInv(cfg, r, p) && p.pc == First(i) && RankStep(cfg, r, p) == Some(p')
    ensures RankInv(cfg, r, p')
  {
    Sizes(cfg, r);
    if i < Height(cfg, r) - 1 {
      ComputeKeeps(cfg, r, p, i, First(i + 1));
    } else {
      SwapKeeps(cfg, r, p);
    }
  }

  /** At the end of an iteration every own row of the next buffer has been computed. */
  lemma SwapKeeps(cfg: Config, r: nat, p: Rank)
    requires cfg.Valid() && Shaped(cfg, r, p) && Data(cfg, r, p) && p.it < cfg.steps
    requires forall i :: 0 < i < Height(cfg, r) - 1 ==> DoneRow(cfg, r, p.pc, i)
    requires forall k :: 0 <= k < Slots(cfg, r) ==>
      p.send[k] == Null && p.recv[k] == Null && p.picked[k] == p.it && p.got[k] == p.it
    ensures RankInv(cfg, r, NextIteration(cfg, p))
  {
    var p' := NextIteration(cfg, p);
    Sizes(cfg, r);
    forall i | Known(cfg, r, p', i)
      ensures p'.x[p'.iz][i] == Want(cfg, p'.it, r, i)
    {
      assert Owned(cfg, r, i);
      InPlate(cfg, r, i);
      if cfg.pl.Border(Offset(cfg, r) + i) {
        AtEnds(cfg.pl, p'.it, Offset(cfg, r) + i);
      }
    }
  }

  lemma PostRequests(cfg: Config, r: nat, p: Rank, p': Rank, c: nat)
    requires cfg.Valid() && RankInv(cfg, r, p) && p.pc == Post(c)
    requires RankStep(cfg, r, p) == Some(p') && Shaped(cfg, r, p')
    ensures Requests(cfg, r, p')
  {
    hide Data, Grid;
    Sizes(cfg, r);
  }

  lemma PostKeeps(cfg: Config, r: nat, p: Rank, p': Rank, c: nat)
    requires cfg.Valid() && RankInv(cfg, r, p) && p.pc == Post(c) && RankStep(cfg, r, p) == Some(p')
    ensures RankInv(cfg, r, p')
  {
    hide Data, Grid, Requests, Compute, NextIteration;
    Sizes(cfg, r);
    SameData(cfg, r, p, p');
    PostRequests(cfg, r, p, p', c);
  }

  lemma WaitKeeps(cfg: Config, r: nat, p: Rank, p': Rank)
    requires cfg.Valid() && RankInv(cfg, r, p) && (p.pc.WaitRecv? || p.pc.WaitSend?) && RankStep(cfg, r, p) == Some(p')
    ensures RankInv(cfg, r, p')
  {
    SameData(cfg, r, p, p');
  }

  lemma SameData(cfg: Config, r: nat, p: Rank, p': Rank)
    requires cfg.Valid() && Shaped(cfg, r, p) && Data(cfg, r, p) && Shaped(cfg, r, p')
    requires p'.x == p.x && p'.iz == p.iz && p'.it == p.it && p'.got == p.got
    requires forall i :: Local(cfg, r, i) && DoneRow(cfg, r, p'.pc, i) ==> DoneRow(cfg, r, p.pc, i)
    ensures Data(cfg, r, p')
  {
    assert forall i :: Known(cfg, r, p', i) ==> Known(cfg, r, p, i);
  }

  lemma InnerKeeps(cfg: Config, r: nat, p: Rank, p': Rank, i: int)
    requires cfg.Valid() && RankInv(cfg, r, p) && p.pc == Inner(i) && RankStep(cfg, r, p) == Some(p')
    ensures RankInv(cfg, r, p')
  {
    hide Data, Grid, Frame;
    Sizes(cfg, r);
    if i < EndNX(cfg, r) {
      ComputeKeeps(cfg, r, p, i, Inner(i + 1));
    } else {
      SameData(cfg, r, p, p');
    }
  }

  lemma EdgeKeeps(cfg: Config, r: nat, p: Rank, p': Rank, k: nat)
    requires cfg.Valid() && RankInv(cfg, r, p) && p.pc == Edge(k) && RankStep(cfg, r, p) == Some(p')
    ensures RankInv(cfg, r, p')
  {
    Sizes(cfg, r);
    var i := EdgeRow(cfg, r, k);
    EdgeKnown(cfg, r, p, k);
    if k + 1 < Slots(cfg, r) {
      ComputeKeeps(cfg, r, p, i, WaitRecv(k + 1));
    } else {
      var q := Compute(cfg, r, p, i);
      EdgeLast(cfg, r, p, k, q);
      assert p' == NextIteration(cfg, q);
    }
  }

  /** The rows that an edge row is computed from include the copy just received. */
  lemma EdgeKnown(cfg: Config, r: nat, p: Rank, k: nat)
    requires cfg.Valid() && RankInv(cfg, r, p) && p.pc == Edge(k)
    ensures var i := EdgeRow(cfg, r, k);
      0 < i < Height(cfg, r) - 1 && Known(cfg, r, p, i - 1) && Known(cfg, r, p, i) && Known(cfg, r, p, i + 1)
  {
    Sizes(cfg, r);
    assert p.got[k] == p.it;
    assert Known(cfg, r, p, RecvRow(cfg, r, k));
  }

  lemma AllWaited(cfg: Config, r: nat, p: Rank, k: nat)
    requires cfg.Valid() && RankInv(cfg, r, p) && p.pc == Edge(k) && k + 1 == Slots(cfg, r)
    ensures forall l :: 0 <= l < Slots(cfg, r) ==>
      p.send[l] == Null && p.recv[l] == Null && p.picked[l] == p.it && p.got[l] == p.it
  {
    hide Data;
  }

  lemma EdgeLast(cfg: Config, r: nat, p: Rank, k: nat, q: Rank)
    requires cfg.Valid() && RankInv(cfg, r, p) && p.pc == Edge(k) && k + 1 == Slots(cfg, r)
    requires 0 < EdgeRow(cfg, r, k) < Height(cfg, r) - 1 && q == Compute(cfg, r, p, EdgeRow(cfg, r, k))
    ensures RankInv(cfg, r, NextIteration(cfg, q))
  {
    Sizes(cfg, r);
    // The rows done when the last edge row has been computed are those of the first update.
    var q' := q.(pc := First(Height(cfg, r) - 1));
    AllDone(cfg, r, p, k, q');
    AllWaited(cfg, r, p, k);
    assert q' == p.(x := q'.x, pc := q'.pc);
    hide Compute, Data, Requests, Height, Slots;
    SwapKeeps(cfg, r, q');
    assert NextIteration(cfg, q) == NextIteration(cfg, q');
  }

  lemma AllDone(cfg: Config, r: nat, p: Rank, k: nat, q: Rank)
    requires cfg.Valid() && RankInv(cfg, r, p) && p.pc == Edge(k) && k + 1 == Slots(cfg, r)
    requires 0 < EdgeRow(cfg, r, k) < Height(cfg, r) - 1
    requires q == Compute(cfg, r, p, EdgeRow(cfg, r, k)).(pc := First(Height(cfg, r) - 1))
    ensures Shaped(cfg, r, q) && Data(cfg, r, q)
  {
    Sizes(cfg, r);
    EdgeKnown(cfg, r, p, k);
    ComputeKeeps(cfg, r, p, EdgeRow(cfg, r, k), q.pc);
  }
}
