/**
  omp2mpiExamples/students/heat2D-mpi.c: the plate of HeatStencil cut into blocks of rows,
  one per rank, with the rows next to a cut exchanged by nonblocking sends and receives.

  A rank computes one row, posts one request or passes one MPI_Wait per step. Between the
  steps, in any order, the library picks up the data of a posted send (Pickup) and puts an
  arrived message into the buffer of a posted receive (Deliver).
 */
module HeatMpi {
  import opened Options
  import opened HeatStencil
  import opened Sequences

  datatype Config = Config(np: nat, pl: Plate, steps: nat)
  {
    ghost predicate Valid() { np >= 3 && pl.nx / np >= 2 && pl.ny >= 2 && steps >= 1 }

    /** Rows per rank, before the extra rows of the last rank. */
    function Part(): nat
      requires np > 0
    {
      pl.nx / np
    }

    function Extra(): nat
      requires np > 0
    {
      pl.nx - Part() * np
    }
  }

  // ---------- who owns what ----------

  /** Rows of a rank's buffers, the copies of neighbouring rows included. */
  function Height(cfg: Config, r: nat): int
    requires cfg.np > 0
  {
    if r == 0 then cfg.Part() + 1 else if r == cfg.np - 1 then cfg.Part() + 1 + cfg.Extra() else cfg.Part() + 2
  }

  /** The row of the plate that a rank's row 0 stands for. */
  function Offset(cfg: Config, r: nat): int
    requires cfg.np > 0
  {
    if r == 0 then 0 else cfg.Part() * r - 1
  }

  function InitNX(cfg: Config, r: nat): int { if r == 0 then 1 else 2 }

  /** The end of the rows computed before waiting, after the clamp. */
  function EndNX(cfg: Config, r: nat): int
    requires cfg.np > 0
  {
    var e := if r == cfg.np - 1 then Height(cfg, r) - 1 else Height(cfg, r) - 2;
    if InitNX(cfg, r) > e then InitNX(cfg, r) else e
  }

  /** How many neighbours, and so requests of each kind, a rank has. */
  function Slots(cfg: Config, r: nat): nat { if r == 0 || r == cfg.np - 1 then 1 else 2 }

  /** The neighbour of request k. */
  function Peer(cfg: Config, r: nat, k: nat): int {
    if r == 0 then 1 else if k == 0 then r - 1 else r + 1
  }

  /** The request with which the neighbour of request k faces this rank. */
  function PeerSlot(cfg: Config, r: nat, k: nat): nat {
    if r == 0 then 0 else if k == 0 then (if r == 1 then 0 else 1) else 0
  }

  /** The row sent with request k. */
  function SendRow(cfg: Config, r: nat, k: nat): int
    requires cfg.np > 0
  {
    if r == 0 || k == 1 then Height(cfg, r) - 2 else 1
  }

  /** The row received into with request k. */
  function RecvRow(cfg: Config, r: nat, k: nat): int
    requires cfg.np > 0
  {
    if r == 0 || k == 1 then Height(cfg, r) - 1 else 0
  }

  /** The row computed once the requests k have completed. */
  function EdgeRow(cfg: Config, r: nat, k: nat): int
    requires cfg.np > 0
  {
    if r == 0 || k == 1 then EndNX(cfg, r) else InitNX(cfg, r) - 1
  }

  // ---------- a rank ----------

  datatype Msg = Msg(tag: nat, data: seq<Cell>)

  /** A nonblocking request: none, posted with its buffer, row and tag, or complete. */
  datatype Request = Null | Pending(buf: nat, row: int, tag: nat) | Complete

  /**
    First(i): the update before the first exchange is at row i. Post(c): c requests of
    this iteration are posted. Inner(i): at row i of those that need no neighbour.
    WaitRecv(k), WaitSend(k), Edge(k): about to wait for a request k or to compute its row.
   */
  datatype Pc = First(i: int) | Post(c: nat) | Inner(i: int) | WaitRecv(k: nat) | WaitSend(k: nat) | Edge(k: nat)
    | Ended

  /**
    `x` are the two buffers, `iz` the current one; `queue[k]` holds the messages under way
    from the neighbour of request k. `picked` and `got` are history: how many of the
    messages k have been picked up and delivered.
   */
  datatype Rank = Rank(pc: Pc, it: nat, iz: nat, x: seq<seq<Row>>, send: seq<Request>, recv: seq<Request>,
                       queue: seq<seq<Msg>>, picked: seq<nat>, got: seq<nat>)

  ghost predicate Grid(cfg: Config, r: nat, x: seq<Row>)
    requires cfg.np > 0
  {
    |x| == Height(cfg, r) && forall i :: 0 <= i < |x| ==> |x[i]| == cfg.pl.ny
  }

  /** The sizes of everything, and a position inside the loops. */
  ghost predicate Shaped(cfg: Config, r: nat, p: Rank)
    requires cfg.Valid()
  {
    && r < cfg.np && p.iz < 2 && |p.x| == |p.send| == |p.recv| == |p.queue| == |p.picked| == |p.got| == 2
    && Grid(cfg, r, p.x[0]) && Grid(cfg, r, p.x[1])
    && (forall k :: 0 <= k < 2 && p.send[k].Pending? ==> p.send[k].buf < 2 && 0 <= p.send[k].row < Height(cfg, r))
    && (forall k :: 0 <= k < 2 && p.recv[k].Pending? ==> p.recv[k].buf < 2 && 0 <= p.recv[k].row < Height(cfg, r))
    && match p.pc
       case First(i) => 1 <= i <= Height(cfg, r) - 1
       case Post(c) => c < 2 * Slots(cfg, r)
       case Inner(i) => InitNX(cfg, r) <= i <= EndNX(cfg, r)
       case WaitRecv(k) => k < Slots(cfg, r)
       case WaitSend(k) => k < Slots(cfg, r)
       case Edge(k) => k < Slots(cfg, r)
       case Ended => true
  }

  lemma Sizes(cfg: Config, r: nat)
    requires cfg.Valid() && r < cfg.np
    ensures cfg.Part() >= 2 && cfg.Extra() >= 0 && Height(cfg, r) >= 3
    ensures 1 <= InitNX(cfg, r) <= EndNX(cfg, r) <= Height(cfg, r) - 1
    ensures EndNX(cfg, r) == if r == cfg.np - 1 then Height(cfg, r) - 1 else Height(cfg, r) - 2
    ensures forall k :: 0 <= k < Slots(cfg, r) ==>
      1 <= EdgeRow(cfg, r, k) <= Height(cfg, r) - 2 && EdgeRow(cfg, r, k) == SendRow(cfg, r, k)
    ensures forall k :: 0 <= k < Slots(cfg, r) ==> 0 <= RecvRow(cfg, r, k) < Height(cfg, r)
  {
    assert cfg.Part() * cfg.np <= cfg.pl.nx;
  }

  /** Row i of the next buffer, computed from the rows around it in the current one. */
  ghost function ComputeRow(cfg: Config, cur: seq<Row>, i: int, dst: Row): (r: Row)
    requires 0 < i < |cur| - 1 && |cur[i - 1]| == |cur[i]| == |cur[i + 1]| == |dst| == cfg.pl.ny
    ensures |r| == cfg.pl.ny
  {
    var f := cfg.pl.five;
    seq(cfg.pl.ny, j requires 0 <= j < cfg.pl.ny =>
      if 0 < j < cfg.pl.ny - 1 then f(cur[i][j], cur[i + 1][j], cur[i - 1][j], cur[i][j + 1], cur[i][j - 1])
        else dst[j])
  }

  ghost function RowsOf(a: array2<Cell>): (x: seq<Row>)
    reads a
    ensures |x| == a.Length0 && forall i :: 0 <= i < |x| ==> |x[i]| == a.Length1
  {
    seq(a.Length0, i requires 0 <= i < a.Length0 reads a => RowOf(a, i))
  }

  /** The inner loop of the updates: one row of X2 computed in place from X1. */
  method UpdateRow(cfg: Config, x1: array2<Cell>, x2: array2<Cell>, i: int)
    requires x1 != x2 && x1.Length0 == x2.Length0 && x1.Length1 == x2.Length1 == cfg.pl.ny && 0 < i < x1.Length0 - 1
    modifies x2
    ensures RowOf(x2, i) == ComputeRow(cfg, RowsOf(x1), i, old(RowOf(x2, i)))
    ensures forall x :: 0 <= x < x2.Length0 && x != i ==> RowOf(x2, x) == old(RowOf(x2, x))
  {
    ghost var dst := RowOf(x2, i);
    var j := 1;
    while j < cfg.pl.ny - 1
      invariant 1 <= j
      invariant forall x, y :: 0 <= x < x2.Length0 && 0 <= y < x2.Length1 && x != i ==> x2[x, y] == old(x2[x, y])
      invariant forall y :: 0 <= y < cfg.pl.ny && !(0 < y < j && y < cfg.pl.ny - 1) ==> x2[i, y] == dst[y]
      invariant forall y :: 0 < y < j && y < cfg.pl.ny - 1 ==> x2[i, y] == FiveAt(cfg.pl, x1, i, y)
    {
      x2[i, j] := cfg.pl.five(x1[i, j], x1[i + 1, j], x1[i - 1, j], x1[i, j + 1], x1[i, j - 1]);
      j := j + 1;
    }
    RowOfCells(cfg, x1, x2, i, dst);
  }

  lemma RowOfCells(cfg: Config, x1: array2<Cell>, x2: array2<Cell>, i: int, dst: Row)
    requires x1.Length0 == x2.Length0 && x1.Length1 == x2.Length1 == cfg.pl.ny == |dst| && 0 < i < x1.Length0 - 1
    requires forall y :: 0 <= y < cfg.pl.ny && !(0 < y < cfg.pl.ny - 1) ==> x2[i, y] == dst[y]
    requires forall y :: 0 < y < cfg.pl.ny - 1 ==> x2[i, y] == FiveAt(cfg.pl, x1, i, y)
    ensures RowOf(x2, i) == ComputeRow(cfg, RowsOf(x1), i, dst)
  {
    var a, b := RowOf(x2, i), ComputeRow(cfg, RowsOf(x1), i, dst);
    forall y | 0 <= y < cfg.pl.ny ensures a[y] == b[y] {}
  }

  ghost function Compute(cfg: Config, r: nat, p: Rank, i: int): Rank
    requires cfg.Valid() && Shaped(cfg, r, p) && 0 < i < Height(cfg, r) - 1
  {
    var nxt := p.x[1 - p.iz];
    p.(x := p.x[1 - p.iz := nxt[i := ComputeRow(cfg, p.x[p.iz], i, nxt[i])]])
  }

  /** Swap the buffers and go on to the next iteration, or stop. */
  ghost function NextIteration(cfg: Config, p: Rank): Rank
    requires p.iz < 2
  {
    p.(iz := 1 - p.iz, it := p.it + 1, pc := if p.it + 1 < cfg.steps then Post(0) else Ended)
  }

  /** One step of a rank; None while it waits or when it has ended. */
  ghost function RankStep(cfg: Config, r: nat, p: Rank): Option<Rank>
    requires cfg.Valid() && Shaped(cfg, r, p)
  {
    Sizes(cfg, r);
    match p.pc
    case First(i) =>
      if i < Height(cfg, r) - 1 then Some(Compute(cfg, r, p, i).(pc := First(i + 1)))
      else Some(NextIteration(cfg, p))
    case Post(c) =>
      var n := Slots(cfg, r);
      var pc' := if c + 1 == 2 * n then Inner(InitNX(cfg, r)) else Post(c + 1);
      if c < n then Some(p.(send := p.send[c := Pending(p.iz, SendRow(cfg, r, c), p.it)], pc := pc'))
      else Some(p.(recv := p.recv[c - n := Pending(p.iz, RecvRow(cfg, r, c - n), p.it)], pc := pc'))
    case Inner(i) =>
      if i < EndNX(cfg, r) then Some(Compute(cfg, r, p, i).(pc := Inner(i + 1)))
      else Some(p.(pc := WaitRecv(0)))
    case WaitRecv(k) => if p.recv[k].Pending? then None else Some(p.(recv := p.recv[k := Null], pc := WaitSend(k)))
    case WaitSend(k) => if p.send[k].Pending? then None else Some(p.(send := p.send[k := Null], pc := Edge(k)))
    case Edge(k) =>
      var q := Compute(cfg, r, p, EdgeRow(cfg, r, k));
      if k + 1 < Slots(cfg, r) then Some(q.(pc := WaitRecv(k + 1))) else Some(NextIteration(cfg, q))
    case Ended => None
  }

  // ---------- the library ----------

  /** The cells of a row that travel: all but the first and the last. */
  ghost function Inside(row: Row): (d: seq<Cell>)
    requires |row| >= 2
  {
    row[1..|row| - 1]
  }

  ghost function Overlay(row: Row, d: seq<Cell>): (r: Row)
    requires |row| >= 2 && |d| == |row| - 2
    ensures |r| == |row|
  {
    [row[0]] + d + [row[|row| - 1]]
  }

  /** The first message with this tag; |q| when there is none. */
  ghost function Match(q: seq<Msg>, tag: nat): (m: nat)
    ensures m <= |q|
    ensures m < |q| ==> q[m].tag == tag
    ensures forall i :: 0 <= i < m ==> q[i].tag != tag
  {
    FirstWhere(q, (m: Msg) => m.tag == tag)
  }

  type State = seq<Rank>

  ghost predicate AllShaped(cfg: Config, s: State)
    requires cfg.Valid()
  {
    |s| == cfg.np && forall r :: 0 <= r < cfg.np ==> Shaped(cfg, r, s[r])
  }

  ghost predicate IsLink(cfg: Config, r: nat, k: nat) { r < cfg.np && k < Slots(cfg, r) }

  ghost function Pickup(cfg: Config, s: State, r: nat, k: nat): Option<State>
    requires cfg.Valid() && AllShaped(cfg, s)
  {
    if IsLink(cfg, r, k) && s[r].send[k].Pending? then
      var p := s[r];
      var m := Msg(p.send[k].tag, Inside(p.x[p.send[k].buf][p.send[k].row]));
      var s1 := s[r := p.(send := p.send[k := Complete], picked := p.picked[k := p.picked[k] + 1])];
      var q, l := Peer(cfg, r, k), PeerSlot(cfg, r, k);
      Some(s1[q := s1[q].(queue := s1[q].queue[l := s1[q].queue[l] + [m]])])
    else None
  }

  ghost function Deliver(cfg: Config, s: State, r: nat, k: nat): Option<State>
    requires cfg.Valid() && AllShaped(cfg, s)
  {
    if IsLink(cfg, r, k) && s[r].recv[k].Pending? then
      var p := s[r];
      var req, q := p.recv[k], p.queue[k];
      var m := Match(q, req.tag);
      var row := p.x[req.buf][req.row];
      if m < |q| && |q[m].data| == |row| - 2 then
        Some(s[r := p.(recv := p.recv[k := Complete], got := p.got[k := p.got[k] + 1],
                       queue := p.queue[k := Without(q, m)],
                       x := p.x[req.buf := p.x[req.buf][req.row := Overlay(row, q[m].data)]])])
      else None
    else None
  }

  // ---------- runs ----------

  datatype Move = Step(r: nat) | PickUp(r: nat, k: nat) | PutDown(r: nat, k: nat)

  ghost function Fire(cfg: Config, s: State, mv: Move): Option<State>
    requires cfg.Valid() && AllShaped(cfg, s)
  {
    match mv
    case Step(r) =>
      if r < cfg.np then (match RankStep(cfg, r, s[r]) case Some(p) => Some(s[r := p]) case None => None) else None
    case PickUp(r, k) => Pickup(cfg, s, r, k)
    case PutDown(r, k) => Deliver(cfg, s, r, k)
  }

  /** A rank's own part of the initial plate. */
  ghost function StartGrid(cfg: Config, r: nat): (x: seq<Row>)
    requires cfg.Valid() && r < cfg.np
  {
    Sizes(cfg, r);
    seq(Height(cfg, r), i requires 0 <= i < Height(cfg, r) => cfg.pl.StartRow(Offset(cfg, r) + i))
  }

  ghost function Init(cfg: Config): State
    requires cfg.Valid()
  {
    seq(cfg.np, r requires 0 <= r < cfg.np =>
      Rank(First(1), 0, 0, [StartGrid(cfg, r), StartGrid(cfg, r)],
           [Null, Null], [Null, Null], [[], []], [0, 0], [0, 0]))
  }

  ghost predicate AllEnded(s: State) { forall r :: 0 <= r < |s| ==> s[r].pc.Ended? }
}
