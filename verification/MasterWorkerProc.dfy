/**
  The conversation between the master and one worker. The messages a worker sends for a
  chunk form a fixed stream; at any time the queue to the master is the stretch of that
  stream between what the master has taken and what the worker has sent.
 */
module MasterWorkerProc {
  import opened Options
  import opened Sequences
  import opened MasterWorker
  import opened Multiples

  // ---------- the points of a chunk, numbered in loop order ----------

  ghost function Points(cfg: Config, c: Chunk): nat
    requires c.size >= 0
  {
    c.size * cfg.Cols()
  }

  ghost function Row(cfg: Config, c: Chunk, q: nat): int
    requires cfg.Cols() > 0
  {
    c.off + q / cfg.Cols()
  }

  ghost function Col(cfg: Config, q: nat): int
    requires cfg.Cols() > 0
  {
    q % cfg.Cols()
  }

  lemma MulDiv(q: nat, n: nat, size: nat)
    requires n > 0
    ensures q < size * n <==> q / n < size
  {
    if q / n < size {
      assert q / n + 1 <= size;
      assert (q / n + 1) * n <= size * n;
    } else {
      assert size * n <= (q / n) * n;
    }
  }

  lemma DivNext(q: nat, n: nat)
    requires n > 0
    ensures q % n + 1 < n ==> (q + 1) / n == q / n && (q + 1) % n == q % n + 1
    ensures q % n + 1 == n ==> (q + 1) / n == q / n + 1 && (q + 1) % n == 0
  {
    var d, m := q / n, q % n;
    assert q == d * n + m;
    if m + 1 < n {
      DivUnique(q + 1, n, d, m + 1);
    } else {
      assert q + 1 == (d + 1) * n;
      DivUnique(q + 1, n, d + 1, 0);
    }
  }

  // ---------- the stream ----------

  ghost function Reads(cfg: Config, i: int, j: int): seq<int> {
    var h, w := cfg.height, cfg.width;
    [cfg.U(ReadAt(h, w, i, j, 0)), cfg.U(ReadAt(h, w, i, j, 1)),
     cfg.U(ReadAt(h, w, i, j, 2)), cfg.U(ReadAt(h, w, i, j, 3))]
  }

  /** What the loop body computes for (i, j). */
  ghost function Value(cfg: Config, i: int, j: int): int {
    Filter(cfg.minval, cfg.maxval, Reads(cfg, i, j))
  }

  ghost function PointMsg(cfg: Config, i: int, j: int, s: nat): Msg {
    if s < 8 then
      if s % 2 == 0 then Msg(RTAG, 1) else Msg(RTAG, ReadAt(cfg.height, cfg.width, i, j, s / 2))
    else if s == 8 then Msg(WTAG, 0)
    else if s == 9 then Msg(WTAG, WriteAt(cfg.width, i, j))
    else Msg(WTAG, Value(cfg, i, j))
  }

  /** The n-th message a worker sends for chunk `c`. */
  ghost function Stream(cfg: Config, c: Chunk, n: nat): Msg
    requires c.size >= 0
  {
    var body := 11 * Points(cfg, c);
    if n < body && cfg.Cols() > 0 then PointMsg(cfg, Row(cfg, c, n / 11), Col(cfg, n / 11), n % 11)
    else if n == body then Msg(ATAG, c.size)
    else Msg(ATAG, c.off)
  }

  // ---------- how the master sees one worker ----------

  /** What the master is doing with the worker: not reached yet, nothing, in mid-assignment, and so on. */
  datatype View =
    | NotYet | Free | Assigning(k: nat) | Checking
    | AskRead | Answer(v: int) | AskWrite | AskValue(coord: int) | AskOffset(part: int)

  function ViewOf(m: Master, w: nat): View {
    match m.pc
    case Start(to) => if w >= to then NotYet else Free
    case Sending(to, k, startup) => if w == to then Assigning(k) else if startup && w > to then NotYet else Free
    case Loop => Free
    case ReadCoord(src) => if w == src then AskRead else Free
    case Reply(src, v) => if w == src then Answer(v) else Free
    case WriteCoord(src) => if w == src then AskWrite else Free
    case WriteVal(src, coord) => if w == src then AskValue(coord) else Free
    case RetOffset(src) => if w == src then AskOffset(m.partSize) else Free
    case Check(src) => if w == src then Checking else Free
    case Done => Free
  }

  // ---------- the invariant of one worker and its channels ----------

  ghost function Taken(p: Proc): int { p.sent - |p.up| }

  ghost function Owed(v: View): nat { if v.Assigning? then v.k else 8 }

  ghost function NumRead(s: nat, waiting: bool): int {
    (if s >= 8 then 4 else s / 2) - (if waiting then 1 else 0)
  }

  ghost predicate InBody(cfg: Config, c: Chunk, p: Proc, s: nat, waiting: bool)
    requires c.size >= 1
  {
    var w := p.w;
    && cfg.Cols() > 0 && w.env == cfg.Env() && w.offset == c.off && w.partSize == c.size && s <= 10
    && p.points < Points(cfg, c) && p.sent == 11 * p.points + s
    && w.i == Row(cfg, c, p.points) && w.j == Col(cfg, p.points)
    && (waiting ==> s == 2 || s == 4 || s == 6 || s == 8)
    && 0 <= NumRead(s, waiting) <= 4 && w.vals == Reads(cfg, w.i, w.j)[..NumRead(s, waiting)]
  }

  /** The answer to the read request of slot s - 1 of the point the worker is at. */
  ghost function AnswerTo(cfg: Config, p: Proc, s: nat): int {
    cfg.U(ReadAt(cfg.height, cfg.width, p.w.i, p.w.j, (if s >= 2 then s - 2 else 0) / 2))
  }

  ghost predicate PcInv(cfg: Config, v: View, c: Chunk, p: Proc)
    requires c.size >= 1 && Owed(v) <= 8
  {
    var w := p.w;
    match w.pc
    case Idle =>
      || (p.sent == 0 && p.points == 0 && p.down == Assignment(cfg, c)[..Owed(v)])
      || (p.sent == 11 * Points(cfg, c) + 2 && p.down == [] && !v.Assigning?)
    case Get(r) =>
      && 1 <= r <= 7 && p.sent == 0 && p.points == 0 && r <= Owed(v) && p.down == Assignment(cfg, c)[r..Owed(v)]
      && w.offset == c.off && (r >= 2 ==> w.partSize == c.size) && w.env == cfg.Env()[..if r >= 2 then r - 2 else 0]
    case Run(s, waiting) =>
      && !v.Assigning? && InBody(cfg, c, p, s, waiting)
      && (!waiting && (s == 2 || s == 4 || s == 6 || s == 8) ==> p.up == [])
      && p.down == (if waiting && p.up == [] && !v.Answer? then [Msg(RTAG, AnswerTo(cfg, p, s))] else [])
    case Ret(k) =>
      && !v.Assigning? && k <= 1 && p.sent == 11 * Points(cfg, c) + k
      && w.offset == c.off && w.partSize == c.size && p.down == []
    case Stopped => false
  }

  /**
    How many messages can be on their way when the master has taken `n`: a worker waits
    for the answer to each read, but not for its writes, so it can be a whole write and
    the next request ahead.
   */
  ghost function Ahead(n: int): nat {
    var s := n % 11;
    if s == 8 then 5 else if s == 9 then 4 else if s == 10 then 3 else if s % 2 == 0 then 2 else 1
  }

  /** The queue to the master is a short stretch of the stream. */
  ghost predicate QueueInv(cfg: Config, c: Chunk, p: Proc)
    requires c.size >= 1
  {
    && |p.up| <= p.sent <= 11 * Points(cfg, c) + 2 && |p.up| <= Ahead(Taken(p))
    && forall x :: 0 <= x < |p.up| ==> p.up[x] == Stream(cfg, c, p.sent - |p.up| + x)
  }

  /** Between conversations the master has taken whole requests only. */
  ghost predicate AtRest(cfg: Config, c: Chunk, n: int)
    requires c.size >= 1
  {
    n == 11 * Points(cfg, c) || (0 <= n < 11 * Points(cfg, c) && n % 11 in {0, 2, 4, 6, 8})
  }

  ghost predicate ViewInv(cfg: Config, v: View, c: Chunk, p: Proc)
    requires c.size >= 1
  {
    var n, body := Taken(p), 11 * Points(cfg, c);
    match v
    case NotYet => false
    case Free => AtRest(cfg, c, n)
    case Assigning(k) => k < 8 && n == 0 && p.sent == 0
    case Checking => AtRest(cfg, c, n)
    case AskRead => 0 <= n < body && n % 11 in {1, 3, 5, 7}
    case Answer(x) => 0 <= n < body && n % 11 in {2, 4, 6, 8}
      && p.w.pc == Run(n % 11, true) && p.up == [] && x == AnswerTo(cfg, p, n % 11)
    case AskWrite => 0 <= n < body && n % 11 == 9
    case AskValue(coord) => 0 <= n < body && n % 11 == 10 && cfg.Cols() > 0
      && coord == WriteAt(cfg.width, Row(cfg, c, n / 11), Col(cfg, n / 11))
    case AskOffset(part) => n == body + 1 && part == c.size
  }

  ghost predicate Working(cfg: Config, v: View, c: Chunk, p: Proc) {
    c.size >= 1 && !p.retired && Owed(v) <= 8 && QueueInv(cfg, c, p) && PcInv(cfg, v, c, p) && ViewInv(cfg, v, c, p)
  }

  ghost predicate ProcInv(cfg: Config, v: View, p: Proc) {
    match p.job
    case Some(c) => Working(cfg, v, c, p)
    case None =>
      && p.up == []
      && (if p.retired
          then v.Free? && (if p.w.pc.Idle? then p.down == [Msg(FTAG, 0)] else p.w.pc.Stopped? && p.down == [])
          else p.w.pc.Idle? && p.down == [] && (v.NotYet? || v.Checking?))
  }

  // ---------- a worker's steps keep it ----------

  lemma WorkerKeeps(cfg: Config, v: View, p: Proc, p': Proc)
    requires ProcInv(cfg, v, p) && WorkerStep(p) == Some(p')
    ensures ProcInv(cfg, v, p')
    ensures p'.job == p.job && p'.retired == p.retired && (p.job.Some? ==> Taken(p') == Taken(p))
  {
    if p.job.Some? {
      var c := p.job.value;
      match p.w.pc
      case Idle => IdleKeeps(cfg, v, c, p, p');
      case Get(r) => GetKeeps(cfg, v, c, p, p', r);
      case Run(s, waiting) =>
        if waiting {
          AnswerKeeps(cfg, v, c, p, p', s);
        } else if s == 10 {
          LastSendKeeps(cfg, v, c, p, p');
        } else {
          SendKeeps(cfg, v, c, p, p', s);
        }
      case Ret(k) => ReturnKeeps(cfg, v, c, p, p', k);
    }
  }

  lemma IdleKeeps(cfg: Config, v: View, c: Chunk, p: Proc, p': Proc)
    requires Working(cfg, v, c, p) && WorkerStep(p) == Some(p') && p.w.pc.Idle?
    ensures Working(cfg, v, c, p') && p'.job == p.job && Taken(p') == Taken(p)
  {
    var a := Assignment(cfg, c);
    assert p.down[0] == a[0] == Msg(ATAG, c.off);
    assert a[..Owed(v)][1..] == a[1..Owed(v)];
  }

  lemma GetKeeps(cfg: Config, v: View, c: Chunk, p: Proc, p': Proc, r: nat)
    requires Working(cfg, v, c, p) && WorkerStep(p) == Some(p') && p.w.pc == Get(r)
    ensures Working(cfg, v, c, p') && p'.job == p.job && Taken(p') == Taken(p)
  {
    var a := Assignment(cfg, c);
    var o := Owed(v);
    assert r < o && p.down[0] == a[r] && a[r].tag == ATAG;
    assert FirstTag(p.down, ATAG) == 0 && Without(p.down, 0) == p.down[1..] == a[r + 1..o];
    if r == 1 {
      assert a[1].val == c.size;
    } else {
      assert a[r].val == cfg.Env()[r - 2];
      if r == 7 {
        LastGet(cfg, v, c, p, p');
      } else {
        MiddleGet(cfg, v, c, p, p', r);
      }
    }
  }

  lemma MiddleGet(cfg: Config, v: View, c: Chunk, p: Proc, p': Proc, r: nat)
    requires Working(cfg, v, c, p) && p.w.pc == Get(r) && 2 <= r <= 6 && r < Owed(v)
    requires p'.w == p.w.(env := p.w.env + [cfg.Env()[r - 2]], pc := Get(r + 1))
    requires p'.down == Assignment(cfg, c)[r + 1..Owed(v)]
    requires p' == p.(w := p'.w, down := p'.down)
    ensures Working(cfg, v, c, p') && Taken(p') == Taken(p)
  {
    assert cfg.Env()[..r - 2] + [cfg.Env()[r - 2]] == cfg.Env()[..r - 1];
    hide Config.Env, Assignment;
  }

  lemma LastGet(cfg: Config, v: View, c: Chunk, p: Proc, p': Proc)
    requires Working(cfg, v, c, p) && WorkerStep(p) == Some(p') && p.w.pc == Get(7) && !v.Assigning?
    requires p'.down == [] && |p.down| > 0 && FirstTag(p.down, ATAG) == 0 && p.down[0].val == cfg.Env()[5]
    ensures Working(cfg, v, c, p') && p'.job == p.job && Taken(p') == Taken(p)
  {
    assert cfg.Env()[..5] + [cfg.Env()[5]] == cfg.Env();
    var w1 := p.w.(env := cfg.Env(), i := c.off, j := -1);
    assert p'.w == NextPoint(w1);
    assert w1.env[2] / 2 == cfg.Cols();
    if cfg.Cols() > 0 {
      assert Points(cfg, c) > 0 by {
        MulDiv(0, cfg.Cols(), c.size);
      }
      assert Row(cfg, c, 0) == c.off && Col(cfg, 0) == 0;
      EnterBody(cfg, v, c, p, p');
    } else {
      assert Points(cfg, c) == 0;
    }
  }

  lemma EnterBody(cfg: Config, v: View, c: Chunk, p: Proc, p': Proc)
    requires Working(cfg, v, c, p) && p.w.pc.Get? && !v.Assigning? && cfg.Cols() > 0 && Points(cfg, c) > 0
    requires p'.up == p.up && p'.sent == p.sent && p'.down == [] && p'.job == p.job && !p'.retired
    requires p'.points == p.points
    requires p'.w.pc == Run(0, false) && p'.w.env == cfg.Env() && p'.w.offset == c.off && p'.w.partSize == c.size
    requires p'.w.i == c.off && p'.w.j == 0 && p'.w.vals == []
    ensures Working(cfg, v, c, p')
  {
  }

  /** Appending the next element of the stream keeps the queue a stretch of it. */
  lemma QueueGrows(cfg: Config, c: Chunk, p: Proc, p': Proc, m: Msg)
    requires c.size >= 1 && QueueInv(cfg, c, p) && p.sent < 11 * Points(cfg, c) + 2 && |p.up| < Ahead(Taken(p))
    requires p'.up == p.up + [m] && p'.sent == p.sent + 1 && m == Stream(cfg, c, p.sent)
    ensures QueueInv(cfg, c, p')
  {
    hide Stream, Points, Ahead;
  }

  /** The answer that arrives is the value of the variable asked for. */
  lemma AnswerStep(cfg: Config, v: View, c: Chunk, p: Proc, p': Proc, s: nat)
    requires c.size >= 1 && Owed(v) <= 8 && PcInv(cfg, v, c, p) && p.w.pc == Run(s, true) && WorkerStep(p) == Some(p')
    ensures p' == p.(w := p.w.(vals := p.w.vals + [AnswerTo(cfg, p, s)], pc := Run(s, false)), down := [])
    ensures p.up == [] && !v.Answer?
  {
    hide InBody, AnswerTo;
    assert p.down == [Msg(RTAG, AnswerTo(cfg, p, s))];
    assert FirstTag(p.down, RTAG) == 0 && Without(p.down, 0) == [];
  }

  lemma AnswerBody(cfg: Config, c: Chunk, p: Proc, p': Proc, s: nat)
    requires c.size >= 1 && InBody(cfg, c, p, s, true)
    requires p' == p.(w := p.w.(vals := p.w.vals + [AnswerTo(cfg, p, s)], pc := Run(s, false)), down := [])
    ensures InBody(cfg, c, p', s, false)
  {
    hide Points, Row, Col;
    var i, j, r := p.w.i, p.w.j, NumRead(s, true);
    assert s - 2 == 2 * r;
    assert AnswerTo(cfg, p, s) == Reads(cfg, i, j)[r];
    assert p'.w.vals == Reads(cfg, i, j)[..r + 1];
  }

  lemma AnswerKeeps(cfg: Config, v: View, c: Chunk, p: Proc, p': Proc, s: nat)
    requires Working(cfg, v, c, p) && WorkerStep(p) == Some(p') && p.w.pc == Run(s, true)
    ensures Working(cfg, v, c, p') && p'.job == p.job && Taken(p') == Taken(p)
  {
    hide WorkerStep, Points, Row, Col, Stream, Ahead, AtRest, AnswerTo, InBody;
    AnswerStep(cfg, v, c, p, p', s);
    AnswerBody(cfg, c, p, p', s);
  }

  /** A worker that waits for nothing has not used up how far it can be ahead of the master. */
  lemma Room(sent: nat, up: nat, s: nat)
    requires up <= sent && up <= Ahead(sent - up) && sent % 11 == s
    requires s == 2 || s == 4 || s == 6 || s == 8 ==> up == 0
    ensures up < Ahead(sent - up)
  {
  }

  lemma SentMsg(cfg: Config, c: Chunk, p: Proc, s: nat)
    requires c.size >= 1 && InBody(cfg, c, p, s, false)
    ensures p.sent / 11 == p.points && p.sent % 11 == s && p.sent < 11 * Points(cfg, c)
    ensures RunMsg(p.w, s) == Some(Stream(cfg, c, p.sent))
  {
    hide ReadAt, WriteAt, Filter, Points, Row, Col;
    var w := p.w;
    assert w.env[0] == cfg.minval && w.env[2] == cfg.width && w.env[3] == cfg.height && w.env[5] == cfg.maxval;
    if s == 10 {
      assert w.vals == Reads(cfg, w.i, w.j)[..4] == Reads(cfg, w.i, w.j);
      hide Reads;
    }
  }

  lemma SendQueue(cfg: Config, c: Chunk, p: Proc, p': Proc, s: nat)
    requires c.size >= 1 && QueueInv(cfg, c, p) && InBody(cfg, c, p, s, false)
    requires s == 2 || s == 4 || s == 6 || s == 8 ==> p.up == []
    requires RunMsg(p.w, s).Some? && p'.up == p.up + [RunMsg(p.w, s).value] && p'.sent == p.sent + 1
    ensures QueueInv(cfg, c, p') && p'.up != [] && Taken(p') == Taken(p)
  {
    hide RunMsg, Stream, Ahead, Points;
    SentMsg(cfg, c, p, s);
    Room(p.sent, |p.up|, s);
    QueueGrows(cfg, c, p, p', Stream(cfg, c, p.sent));
  }

  lemma SendKeeps(cfg: Config, v: View, c: Chunk, p: Proc, p': Proc, s: nat)
    requires Working(cfg, v, c, p) && WorkerStep(p) == Some(p') && p.w.pc == Run(s, false) && s != 10
    ensures Working(cfg, v, c, p') && p'.job == p.job && Taken(p') == Taken(p)
  {
    hide Assignment, AtRest, QueueInv, RunMsg;
    SendQueue(cfg, c, p, p', s);
    assert p'.w.pc == Run(s + 1, s < 8 && s % 2 == 1);
    assert NumRead(s + 1, s < 8 && s % 2 == 1) == NumRead(s, false);
    assert InBody(cfg, c, p', s + 1, s < 8 && s % 2 == 1);
  }

  lemma LastSendKeeps(cfg: Config, v: View, c: Chunk, p: Proc, p': Proc)
    requires Working(cfg, v, c, p) && WorkerStep(p) == Some(p') && p.w.pc == Run(10, false)
    ensures Working(cfg, v, c, p') && p'.job == p.job && Taken(p') == Taken(p)
  {
    hide Assignment, AtRest, QueueInv, RunMsg;
    SendQueue(cfg, c, p, p', 10);
    AfterPoint(cfg, c, p);
    assert p'.w == NextPoint(p.w);
    hide NextPoint, Row, Col, Reads;
  }

  /** The loops go on to the next point in loop order, and to the return after the last one. */
  lemma AfterPoint(cfg: Config, c: Chunk, p: Proc)
    requires c.size >= 1 && InBody(cfg, c, p, 10, false)
    ensures var q, w := p.points + 1, NextPoint(p.w);
      && w.env == p.w.env && w.offset == p.w.offset && w.partSize == p.w.partSize
      && (if q < Points(cfg, c)
          then w.pc == Run(0, false) && w.i == Row(cfg, c, q) && w.j == Col(cfg, q) && w.vals == []
          else q == Points(cfg, c) && w.pc == Ret(0))
  {
    hide Reads;
    var q := p.points + 1;
    DivNext(p.points, cfg.Cols());
    MulDiv(q, cfg.Cols(), c.size);
    MulDiv(p.points, cfg.Cols(), c.size);
    assert p.w.env[2] / 2 == cfg.Cols();
  }

  lemma ReturnKeeps(cfg: Config, v: View, c: Chunk, p: Proc, p': Proc, k: nat)
    requires Working(cfg, v, c, p) && WorkerStep(p) == Some(p') && p.w.pc == Ret(k)
    ensures Working(cfg, v, c, p') && p'.job == p.job && Taken(p') == Taken(p)
  {
    QueueGrows(cfg, c, p, p', if k == 0 then Msg(ATAG, p.w.partSize) else Msg(ATAG, p.w.offset));
  }

  // ---------- the master's steps keep it ----------

  /** Taking any but the second message of a read request leaves the worker no further ahead than it may be. */
  lemma AheadNext(n: int, up: nat)
    requires 1 <= up <= Ahead(n) && (up == 1 || n % 11 !in {1, 3, 5, 7})
    ensures up - 1 <= Ahead(n + 1)
  {
  }

  lemma TakeHead(cfg: Config, c: Chunk, p: Proc, p': Proc)
    requires c.size >= 1 && QueueInv(cfg, c, p) && |p.up| > 0 && p'.up == p.up[1..] && p'.sent == p.sent
    ensures p.up[0] == Stream(cfg, c, Taken(p)) && Taken(p') == Taken(p) + 1
    ensures |p.up| == 1 || Taken(p) % 11 !in {1, 3, 5, 7} ==> QueueInv(cfg, c, p')
  {
    hide Stream, Ahead, Points;
    if |p.up| == 1 || Taken(p) % 11 !in {1, 3, 5, 7} {
      AheadNext(Taken(p), |p.up|);
    }
  }

  ghost function AfterReceive(msg: Msg): View {
    if msg.tag.RTAG? then AskRead else if msg.tag.WTAG? then AskWrite else AskOffset(msg.val)
  }

  /** The receive from any source meets a read request, a write or the end of a chunk, and nothing else. */
  lemma ReceiveKeeps(cfg: Config, p: Proc, p': Proc)
    requires ProcInv(cfg, Free, p) && |p.up| > 0 && p' == p.(up := p.up[1..])
    ensures p.job.Some? && ProcInv(cfg, AfterReceive(p.up[0]), p')
    ensures p.up[0].tag.RTAG? ==> p.up[0].val == 1
    ensures p.up[0].tag.WTAG? ==> p.up[0].val == 0
    ensures p.up[0].tag.ATAG? ==> p.up[0].val == p.job.value.size
    ensures !p.up[0].tag.FTAG? && Taken(p') == Taken(p) + 1 && Taken(p) % 11 != 10
  {
    var c := p.job.value;
    TakeHead(cfg, c, p, p');
    var n := Taken(p);
    if n == 11 * Points(cfg, c) {
      TakeReturn(cfg, c, p, p');
    } else if n % 11 == 8 {
      TakeWrite(cfg, c, p, p');
    } else {
      TakeRequest(cfg, c, p, p');
    }
  }

  /** Taking a message away leaves what a worker is doing as it was, unless it then waits with nothing to come. */
  lemma PcTaken(cfg: Config, v: View, v': View, c: Chunk, p: Proc, p': Proc)
    requires c.size >= 1 && !v.Assigning? && !v'.Assigning? && PcInv(cfg, v, c, p)
    requires |p.up| > 0 && p' == p.(up := p.up[1..])
    requires p.w.pc.Run? && p.w.pc.waiting ==> p'.up != [] || v'.Answer?
    ensures PcInv(cfg, v', c, p')
  {
    hide Points, Row, Col, Reads, AnswerTo, Assignment;
  }

  lemma TakeRequest(cfg: Config, c: Chunk, p: Proc, p': Proc)
    requires Working(cfg, Free, c, p) && |p.up| > 0 && p' == p.(up := p.up[1..])
    requires Taken(p) < 11 * Points(cfg, c) && Taken(p) % 11 in {0, 2, 4, 6}
    ensures Working(cfg, AskRead, c, p') && p.up[0] == Msg(RTAG, 1)
  {
    hide PcInv, QueueInv, Stream, Points;
    TakeHead(cfg, c, p, p');
    StreamRequest(cfg, c, Taken(p));
    WaitingSecond(cfg, Free, c, p);
    PcTaken(cfg, Free, AskRead, c, p, p');
  }

  lemma StreamRequest(cfg: Config, c: Chunk, n: nat)
    requires c.size >= 1 && n < 11 * Points(cfg, c) && n % 11 in {0, 2, 4, 6}
    ensures Stream(cfg, c, n) == Msg(RTAG, 1)
  {
    hide Row, Col, ReadAt;
  }

  lemma TakeWrite(cfg: Config, c: Chunk, p: Proc, p': Proc)
    requires Working(cfg, Free, c, p) && |p.up| > 0 && p' == p.(up := p.up[1..])
    requires Taken(p) < 11 * Points(cfg, c) && Taken(p) % 11 == 8
    ensures Working(cfg, AskWrite, c, p') && p.up[0] == Msg(WTAG, 0)
  {
    hide PcInv, QueueInv, Stream, Points;
    TakeHead(cfg, c, p, p');
    StreamWrite(cfg, c, Taken(p));
    WaitingSecond(cfg, Free, c, p);
    PcTaken(cfg, Free, AskWrite, c, p, p');
  }

  lemma StreamWrite(cfg: Config, c: Chunk, n: nat)
    requires c.size >= 1 && n < 11 * Points(cfg, c) && n % 11 == 8
    ensures Stream(cfg, c, n) == Msg(WTAG, 0)
  {
    hide Row, Col;
  }

  lemma TakeReturn(cfg: Config, c: Chunk, p: Proc, p': Proc)
    requires Working(cfg, Free, c, p) && |p.up| > 0 && p' == p.(up := p.up[1..])
    requires Taken(p) == 11 * Points(cfg, c)
    ensures Working(cfg, AskOffset(c.size), c, p') && p.up[0] == Msg(ATAG, c.size)
  {
    hide PcInv, PointMsg;
    TakeHead(cfg, c, p, p');
    WaitingSecond(cfg, Free, c, p);
    PcTaken(cfg, Free, AskOffset(c.size), c, p, p');
  }

  /**
    A worker waiting for an answer sent both messages of its request, so taking an even-numbered
    one leaves the other.
   */
  lemma WaitingSecond(cfg: Config, v: View, c: Chunk, p: Proc)
    requires Working(cfg, v, c, p) && |p.up| > 0
    requires Taken(p) < 11 * Points(cfg, c) ==> Taken(p) % 11 !in {1, 3, 5, 7}
    ensures p.w.pc.Run? && p.w.pc.waiting ==> |p.up| >= 2
  {
    hide Stream, Reads, AnswerTo, Assignment, ViewInv, Points, Row, Col, Ahead;
  }

  lemma ReadKeeps(cfg: Config, p: Proc, p': Proc)
    requires ProcInv(cfg, AskRead, p) && |p.up| > 0 && p' == p.(up := p.up[1..])
    ensures p.up[0].tag.RTAG? && ProcInv(cfg, Answer(cfg.U(p.up[0].val)), p')
    ensures p.job.Some? && p'.job == p.job && Taken(p') == Taken(p) + 1 && Taken(p) % 11 != 10
  {
    hide PcInv, QueueInv, Stream, Points, Row, Col, ReadAt;
    var c, n := p.job.value, Taken(p);
    TakeHead(cfg, c, p, p');
    SecondWaits(cfg, c, p);
    StreamRead(cfg, c, n);
    PcTaken(cfg, AskRead, Answer(cfg.U(p.up[0].val)), c, p, p');
    assert AnswerTo(cfg, p', n % 11 + 1) == cfg.U(p.up[0].val);
  }

  /** The second message of a read request names the variable read. */
  lemma StreamRead(cfg: Config, c: Chunk, n: nat)
    requires c.size >= 1 && n < 11 * Points(cfg, c) && n % 11 in {1, 3, 5, 7} && cfg.Cols() > 0
    ensures Stream(cfg, c, n) ==
      Msg(RTAG, ReadAt(cfg.height, cfg.width, Row(cfg, c, n / 11), Col(cfg, n / 11), (n % 11) / 2))
  {
    hide Row, Col, ReadAt;
  }

  /** A worker that sent the second message of a request has sent nothing since and waits for the answer. */
  lemma SecondWaits(cfg: Config, c: Chunk, p: Proc)
    requires Working(cfg, AskRead, c, p) && |p.up| > 0
    ensures |p.up| == 1 && p.w.pc == Run(Taken(p) % 11 + 1, true) && p.points == Taken(p) / 11 && cfg.Cols() > 0
    ensures p.w.i == Row(cfg, c, p.points) && p.w.j == Col(cfg, p.points)
  {
    hide Stream, Reads, AnswerTo, Assignment, Row, Col;
  }

  lemma ReplyKeeps(cfg: Config, x: int, p: Proc, p': Proc)
    requires ProcInv(cfg, Answer(x), p) && p' == p.(down := p.down + [Msg(RTAG, x)])
    ensures ProcInv(cfg, Free, p') && p'.job == p.job && Taken(p') == Taken(p)
  {
  }

  lemma WriteKeeps(cfg: Config, p: Proc, p': Proc)
    requires ProcInv(cfg, AskWrite, p) && |p.up| > 0 && p' == p.(up := p.up[1..])
    ensures p.up[0].tag.WTAG? && ProcInv(cfg, AskValue(p.up[0].val), p')
    ensures p.job.Some? && p'.job == p.job && Taken(p') == Taken(p) + 1 && Taken(p) % 11 != 10
  {
    hide PcInv, QueueInv, Stream, Points, Row, Col;
    var c, n := p.job.value, Taken(p);
    TakeHead(cfg, c, p, p');
    StreamAddress(cfg, c, n);
    WaitingSecond(cfg, AskWrite, c, p);
    PcTaken(cfg, AskWrite, AskValue(p.up[0].val), c, p, p');
  }

  lemma StreamAddress(cfg: Config, c: Chunk, n: nat)
    requires c.size >= 1 && n < 11 * Points(cfg, c) && n % 11 == 9
    ensures cfg.Cols() > 0 && (n + 1) / 11 == n / 11
    ensures Stream(cfg, c, n) == Msg(WTAG, WriteAt(cfg.width, Row(cfg, c, n / 11), Col(cfg, n / 11)))
  {
    hide Row, Col, WriteAt;
  }

  /** The third message of a write carries the computed value of the point whose address came second. */
  lemma ValueKeeps(cfg: Config, coord: int, p: Proc, p': Proc)
    requires ProcInv(cfg, AskValue(coord), p) && |p.up| > 0 && p' == p.(up := p.up[1..])
    ensures p.up[0].tag.WTAG? && ProcInv(cfg, Free, p') && p'.job == p.job && Taken(p') == Taken(p) + 1
    ensures p.job.Some? && cfg.Cols() > 0 && p.job.value.size >= 1
    ensures 0 <= Taken(p) < 11 * Points(cfg, p.job.value) && Taken(p) % 11 == 10
    ensures var c, q := p.job.value, Taken(p) / 11;
      coord == WriteAt(cfg.width, Row(cfg, c, q), Col(cfg, q)) && p.up[0].val == Value(cfg, Row(cfg, c, q), Col(cfg, q))
  {
    hide PcInv, QueueInv, Stream, Row, Col, Value;
    var c := p.job.value;
    TakeHead(cfg, c, p, p');
    StreamValue(cfg, c, Taken(p));
    WaitingSecond(cfg, AskValue(coord), c, p);
    PcTaken(cfg, AskValue(coord), Free, c, p, p');
  }

  lemma StreamValue(cfg: Config, c: Chunk, n: nat)
    requires c.size >= 1 && n < 11 * Points(cfg, c) && n % 11 == 10 && cfg.Cols() > 0
    ensures Stream(cfg, c, n) == Msg(WTAG, Value(cfg, Row(cfg, c, n / 11), Col(cfg, n / 11)))
    ensures n + 1 == 11 * Points(cfg, c) || (n + 1 < 11 * Points(cfg, c) && (n + 1) % 11 == 0)
  {
    hide Row, Col, Value, Points;
  }

  /** When the second closing message is taken the worker is idle again and nothing is on its way. */
  lemma OffsetKeeps(cfg: Config, part: int, p: Proc, p': Proc)
    requires ProcInv(cfg, AskOffset(part), p) && |p.up| > 0 && p' == p.(up := p.up[1..], job := None)
    ensures p.up[0].tag.ATAG? && ProcInv(cfg, Checking, p') && p.job.Some? && part == p.job.value.size
    ensures p.job.value.size >= 1 && Taken(p) == 11 * Points(cfg, p.job.value) + 1
  {
    var c := p.job.value;
    TakeHead(cfg, c, p, p');
    assert p.sent == 11 * Points(cfg, c) + 2;
  }

  lemma GiveKeeps(cfg: Config, v: View, p: Proc, c: Chunk, p': Proc)
    requires ProcInv(cfg, v, p) && p.job.None? && !p.retired && c.size >= 1
    requires p' == p.(job := Some(c), points := 0, sent := 0)
    ensures ProcInv(cfg, Assigning(0), p') && Taken(p') == 0
  {
    assert Assignment(cfg, c)[..0] == [];
  }

  lemma SendingKeeps(cfg: Config, k: nat, p: Proc, p': Proc, v': View)
    requires ProcInv(cfg, Assigning(k), p) && p.job.Some? && k < 8
    requires p' == p.(down := p.down + [Assignment(cfg, p.job.value)[k]])
    requires if k < 7 then v' == Assigning(k + 1) else v'.Free? || v'.Checking?
    ensures ProcInv(cfg, v', p') && Taken(p') == Taken(p)
  {
    var a := Assignment(cfg, p.job.value);
    assert a[..k] + [a[k]] == a[..k + 1];
    if p.w.pc.Get? {
      assert a[p.w.pc.k..k] + [a[k]] == a[p.w.pc.k..k + 1];
    }
  }

  lemma RetireKeeps(cfg: Config, v: View, p: Proc, p': Proc)
    requires ProcInv(cfg, v, p) && p.job.None? && !p.retired
    requires p' == p.(down := p.down + [Msg(FTAG, 0)], retired := true)
    ensures ProcInv(cfg, Free, p')
  {
  }
}
