/**
  HARP/2MPI/420iNoSmart.c, first loop nest: rank 0 hands out chunks of rows, answers
  remote reads of U and applies remote writes to Uout; the other ranks run the loop body.

  Every MPI call is one step. A message channel is a queue per ordered pair of ranks, so
  messages between two ranks do not overtake each other; which rank moves next, and which
  sender the master's receive from MPI_ANY_SOURCE picks, is arbitrary.
 */
module MasterWorker {
  import opened CArith
  import opened Options
  import opened Sequences

  datatype Tag = FTAG | ATAG | RTAG | WTAG

  datatype Msg = Msg(tag: Tag, val: int)

  /** Rows off, off + 1, ..., off + size - 1. */
  datatype Chunk = Chunk(off: int, size: int)

  /**
    What the ranks share when the nest starts: `workers` is size - 1; `i0` and `aux0` are
    whatever the master's variables i and aux hold; `U` is the master's plane and `out0`
    its Uout before the nest.
   */
  datatype Config = Config(workers: nat, width: nat, height: nat, minval: int, maxval: int, i0: int, aux0: int,
                           U: int -> int, out0: map<int, int>)
  {
    function Rows(): int { height / 2 }
    function Cols(): nat { width / 2 }
    function Env(): seq<int> { [minval, i0, width, height, aux0, maxval] }
    ghost predicate Valid() { workers >= 1 }
    /** The first value of partSize. */
    function Part(): int { if workers > 0 && Rows() / workers > 0 then Rows() / workers else 1 }
  }

  // ---------- the loop body ----------

  /** The r-th address of U that the body of (i, j) reads. */
  function ReadAt(height: int, width: int, i: int, j: int, r: nat): int {
    var row := if r == 0 then Max(0, i - 4) else if r == 1 then Max(0, i - 2) else if r == 2 then i
      else Min(height / 2 - 2, i + 2);
    row * (width / 2) + j
  }

  function WriteAt(width: int, i: int, j: int): int {
    2 * i * (width / 2) + j
  }

  /** The filtered and clipped value, converted to an unsigned char. */
  function Filter(minval: int, maxval: int, v: seq<int>): int
    requires |v| == 4
  {
    var aux := CDiv(24 * v[0] - 41 * v[1] + 1169 * v[2] - 128 * v[3] + 512, 1024);
    Clip(aux, minval, maxval) % 256
  }

  // ---------- a worker and its two channels ----------

  /**
    Idle: at the receive from any source. Get(k): k of the eight messages of an
    assignment have arrived. Run(s, waiting): s of the eleven messages for point (i, j)
    have been sent, and the answer to the last read request is still to come when
    waiting. Ret(k): k of the two closing messages have been sent.
   */
  datatype Pc = Idle | Get(k: nat) | Run(s: nat, waiting: bool) | Ret(k: nat) | Stopped

  datatype Worker = Worker(pc: Pc, offset: int, partSize: int, env: seq<int>, i: int, j: int, vals: seq<int>)

  /**
    A worker with the queues from it (`up`) and to it (`down`). The last four fields are
    history: the chunk it was given and has not returned, how many points and messages of
    that chunk it has produced, and whether it was sent FTAG. No step reads them.
   */
  datatype Proc = Proc(w: Worker, up: seq<Msg>, down: seq<Msg>, job: Option<Chunk>, points: nat, sent: nat,
    retired: bool)

  /** The position of the first message with this tag; |q| when there is none. */
  function FirstTag(q: seq<Msg>, tag: Tag): (k: nat)
    ensures k <= |q|
    ensures k < |q| ==> q[k].tag == tag
    ensures forall i :: 0 <= i < k ==> q[i].tag != tag
  {
    FirstWhere(q, (m: Msg) => m.tag == tag)
  }

  /** Where the two loops go after point (i, j) of a chunk, or to its first point from (offset, -1). */
  function NextPoint(w: Worker): Worker
    requires |w.env| == 6
  {
    if w.i < w.offset + w.partSize && w.j + 1 < w.env[2] / 2 then
      w.(pc := Run(0, false), j := w.j + 1, vals := [])
    else if w.i + 1 < w.offset + w.partSize && 0 < w.env[2] / 2 then
      w.(pc := Run(0, false), i := w.i + 1, j := 0, vals := [])
    else
      w.(pc := Ret(0))
  }

  /** The message a running worker sends next. */
  function RunMsg(w: Worker, s: nat): Option<Msg> {
    if |w.env| != 6 then None
    else if s < 8 then
      if s % 2 == 0 then Some(Msg(RTAG, 1)) else Some(Msg(RTAG, ReadAt(w.env[3], w.env[2], w.i, w.j, s / 2)))
    else if s == 8 then Some(Msg(WTAG, 0))
    else if s == 9 then Some(Msg(WTAG, WriteAt(w.env[2], w.i, w.j)))
    else if s == 10 && |w.vals| == 4 then Some(Msg(WTAG, Filter(w.env[0], w.env[5], w.vals)))
    else None
  }

  /** One MPI call of a worker; None while it is blocked or has left the nest. */
  function WorkerStep(p: Proc): Option<Proc> {
    var w := p.w;
    match w.pc
    case Idle =>
      if |p.down| == 0 then None
      else
        var m := p.down[0];
        var pc := if m.tag.ATAG? then Get(1) else if m.tag.FTAG? then Stopped else Idle;
        Some(p.(w := w.(pc := pc, offset := m.val, env := []), down := p.down[1..]))
    case Get(k) =>
      var x := FirstTag(p.down, ATAG);
      if x == |p.down| then None
      else
        var v := p.down[x].val;
        var w1 := if k == 1 then w.(partSize := v) else w.(env := w.env + [v]);
        var w2 := if k == 7 && |w1.env| == 6 then NextPoint(w1.(i := w1.offset, j := -1)) else w1.(pc := Get(k + 1));
        Some(p.(w := w2, down := Without(p.down, x)))
    case Run(s, waiting) =>
      if waiting then
        var x := FirstTag(p.down, RTAG);
        if x == |p.down| then None
        else Some(p.(w := w.(vals := w.vals + [p.down[x].val], pc := Run(s, false)), down := Without(p.down, x)))
      else
        var m := RunMsg(w, s);
        if m.None? then None
        else
          var p1 := p.(up := p.up + [m.value], sent := p.sent + 1);
          if s == 10 then Some(p1.(w := NextPoint(w), points := p.points + 1))
          else Some(p1.(w := w.(pc := Run(s + 1, s < 8 && s % 2 == 1))))
    case Ret(k) =>
      if k == 0 then Some(p.(up := p.up + [Msg(ATAG, w.partSize)], sent := p.sent + 1, w := w.(pc := Ret(1))))
      else Some(p.(up := p.up + [Msg(ATAG, w.offset)], sent := p.sent + 1, w := w.(pc := Idle)))
    case Stopped => None
  }

  // ---------- the master ----------

  /**
    Start(to): head of the hand-out loop. Sending(to, k, startup): k of the eight messages
    of an assignment are sent. Loop: at the receive from any source. ReadCoord, WriteCoord,
    WriteVal, RetOffset: at the second (third) receive from `src`. Reply: about to answer
    a read. Check: at the test that may retire `src`. Done: left the nest.
   */
  datatype MPc =
    | Start(to: nat)
    | Sending(to: nat, k: nat, startup: bool)
    | Loop
    | ReadCoord(src: nat)
    | Reply(src: nat, v: int)
    | WriteCoord(src: nat)
    | WriteVal(src: nat, coord: int)
    | RetOffset(src: nat)
    | Check(src: nat)
    | Done

  datatype Master = Master(pc: MPc, followIN: int, partSize: int, killed: nat, out: map<int, int>)

  /** The whole system; `given` is history: every chunk handed out so far, in order. */
  datatype State = State(m: Master, ps: seq<Proc>, given: seq<Chunk>)

  const IDLE := Proc(Worker(Idle, 0, 0, [], 0, 0, []), [], [], None, 0, 0, false)

  function Init(cfg: Config): State {
    State(Master(Start(0), 0, cfg.Part(), 0, cfg.out0), seq(cfg.workers, _ => IDLE), [])
  }

  /** The eight messages of an assignment. */
  function Assignment(cfg: Config, c: Chunk): seq<Msg> {
    var v := [c.off, c.size] + cfg.Env();
    seq(8, k requires 0 <= k < 8 => Msg(ATAG, v[k]))
  }

  /** Give `to` the chunk of partSize rows at followIN: from here on it is owed eight messages. */
  function Give(s: State, to: nat, part: int, startup: bool): State
    requires to < |s.ps|
  {
    var c := Chunk(s.m.followIN, part);
    s.(m := s.m.(pc := Sending(to, 0, startup), partSize := part),
       ps := s.ps[to := s.ps[to].(job := Some(c), points := 0, sent := 0)],
       given := s.given + [c])
  }

  function SendTo(s: State, to: nat, m: Msg): State
    requires to < |s.ps|
  {
    s.(ps := s.ps[to := s.ps[to].(down := s.ps[to].down + [m])])
  }

  /** The environment variable a read request asks for by index. */
  function Variable(cfg: Config, idx: int): Option<int> {
    if idx == 0 then Some(cfg.minval) else if 2 <= idx <= 6 then Some(cfg.Env()[idx - 1]) else None
  }

  /** The receive from MPI_ANY_SOURCE, with `src` as the sender it picks. */
  function MasterReceive(cfg: Config, s: State, src: nat): State
    requires src < |s.ps| && s.m.pc.Loop? && |s.ps[src].up| > 0
  {
    var p, msg := s.ps[src], s.ps[src].up[0];
    var s1 := s.(ps := s.ps[src := p.(up := p.up[1..])], m := s.m.(partSize := msg.val));
    match msg.tag
    case RTAG =>
      if msg.val == 1 then s1.(m := s1.m.(pc := ReadCoord(src)))
      else (match Variable(cfg, msg.val) case Some(v) => s1.(m := s1.m.(pc := Reply(src, v))) case None => s1)
    case WTAG => if msg.val == 0 then s1.(m := s1.m.(pc := WriteCoord(src))) else s1
    case ATAG => s1.(m := s1.m.(pc := RetOffset(src)))
    case FTAG => s1
  }

  /** One MPI call (or the end of the hand-out loop) of the master outside its receive from any source. */
  function MasterStep(cfg: Config, s: State): Option<State> {
    var m := s.m;
    match m.pc
    case Start(to) =>
      if to >= |s.ps| then Some(s.(m := m.(pc := Loop)))
      else if m.followIN + m.partSize < cfg.Rows() then Some(Give(s, to, m.partSize, true))
      else if cfg.Rows() - m.followIN > 0 then Some(Give(s, to, cfg.Rows() - m.followIN, true))
      else
        var s1 := Retire(s, to);
        Some(s1.(m := s1.m.(pc := Start(to + 1), followIN := m.followIN + m.partSize)))
    case Sending(to, k, startup) =>
      if to >= |s.ps| || k >= 8 then None
      else
        // followIN and partSize still describe the chunk just handed out.
        var s1 := SendTo(s, to, Assignment(cfg, Chunk(m.followIN, m.partSize))[k]);
        if k < 7 then Some(s1.(m := m.(pc := Sending(to, k + 1, startup))))
        else if startup then Some(s1.(m := m.(pc := Start(to + 1), followIN := m.followIN + m.partSize)))
        else Some(s1.(m := m.(pc := Check(to))))
    case Reply(src, v) =>
      if src >= |s.ps| then None else Some(SendTo(s, src, Msg(RTAG, v)).(m := m.(pc := Loop)))
    case Check(src) =>
      if src >= |s.ps| then None
      else
        var s1 := if m.followIN + m.partSize > cfg.Rows() then Retire(s, src) else s;
        var pc1 := if s1.m.killed == cfg.workers then Done else Loop;
        Some(s1.(m := s1.m.(pc := pc1, followIN := m.followIN + m.partSize)))
    case ReadCoord(src) => MasterDirected(cfg, s, src, RTAG)
    case WriteCoord(src) => MasterDirected(cfg, s, src, WTAG)
    case WriteVal(src, _) => MasterDirected(cfg, s, src, WTAG)
    case RetOffset(src) => MasterDirected(cfg, s, src, ATAG)
    case Loop => None
    case Done => None
  }

  function Retire(s: State, to: nat): State
    requires to < |s.ps|
  {
    var s1 := SendTo(s, to, Msg(FTAG, 0));
    s1.(m := s.m.(killed := s.m.killed + 1), ps := s1.ps[to := s1.ps[to].(retired := true)])
  }

  /** A receive from one worker with one tag, and what follows it up to the next call. */
  function MasterDirected(cfg: Config, s: State, src: nat, tag: Tag): Option<State> {
    if src >= |s.ps| then None
    else
    var m, p := s.m, s.ps[src];
    var x := FirstTag(p.up, tag);
    if x == |p.up| then None
    else
      var v := p.up[x].val;
      var s1 := s.(ps := s.ps[src := p.(up := Without(p.up, x))]);
      match m.pc
      case ReadCoord(_) => Some(s1.(m := m.(pc := Reply(src, cfg.U(v)))))
      case WriteCoord(_) => Some(s1.(m := m.(pc := WriteVal(src, v))))
      case WriteVal(_, coord) => Some(s1.(m := m.(pc := Loop, out := m.out[coord := v])))
      case RetOffset(_) =>
        var s2 := s1.(ps := s1.ps[src := s1.ps[src].(job := None)]);
        if m.followIN + m.partSize < cfg.Rows() then Some(Give(s2, src, m.partSize, false))
        else if cfg.Rows() - m.followIN > 0 then Some(Give(s2, src, cfg.Rows() - m.followIN, false))
        else Some(s2.(m := m.(pc := Check(src))))
      case _ => None
  }

  // ---------- runs ----------

  datatype Move = Work(w: nat) | Serve | Receive(src: nat)

  /** The state after one move, or None when the move is not possible. */
  function Fire(cfg: Config, s: State, mv: Move): Option<State> {
    match mv
    case Work(w) =>
      if w < |s.ps| then
        (match WorkerStep(s.ps[w]) case Some(p) => Some(s.(ps := s.ps[w := p])) case None => None)
      else None
    case Serve => MasterStep(cfg, s)
    case Receive(src) =>
      if src < |s.ps| && s.m.pc.Loop? && |s.ps[src].up| > 0 then Some(MasterReceive(cfg, s, src)) else None
  }

  /** All ranks have left the nest. */
  predicate Finished(s: State) {
    s.m.pc.Done? && forall w :: 0 <= w < |s.ps| ==> s.ps[w].w.pc.Stopped?
  }

  /** The state after a sequence of moves, when every one of them is possible. */
  function After(cfg: Config, mvs: seq<Move>): Option<State> {
    if |mvs| == 0 then Some(Init(cfg))
    else
      match After(cfg, mvs[..|mvs| - 1])
      case None => None
      case Some(s) => Fire(cfg, s, mvs[|mvs| - 1])
  }
}
