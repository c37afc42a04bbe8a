/**
  The schedule of the nest: every row is handed out exactly once, every return of a chunk
  leads to exactly one of a new chunk and dismissal, every worker is dismissed exactly
  once, and no message is left under way. Reads and writes stay inside the planes.
 */
module MasterWorkerSchedule {
  import opened CArith
  import opened Multiples
  import opened Options
  import opened Sequences
  import opened MasterWorker
  import opened MasterWorkerProc
  import opened MasterWorkerRun
  import opened MasterWorkerResult
  import opened MasterWorkerProgress

  // ---------- rows ----------

  ghost predicate Holds(c: Chunk, i: int) { c.off <= i < c.off + c.size }

  ghost predicate HandedOut(g: seq<Chunk>, i: int) { exists k :: 0 <= k < |g| && Holds(g[k], i) }

  /** Rows [0, to) cut into chunks: each of these rows is in exactly one chunk, and no other row is in any. */
  ghost predicate CutUp(g: seq<Chunk>, to: int, part: int) {
    && (forall i :: HandedOut(g, i) <==> 0 <= i < to)
    && (forall k, x, i :: 0 <= k < |g| && 0 <= x < |g| && Holds(g[k], i) && Holds(g[x], i) ==> k == x)
    && (forall k :: 0 <= k < |g| ==> 1 <= g[k].size <= part)
  }

  lemma TiledCutsUp(cfg: Config, g: seq<Chunk>)
    requires Tiled(cfg, g)
    ensures CutUp(g, End(g), cfg.Part())
  {
    forall k | 0 <= k < |g|
      ensures 0 <= g[k].off && g[k].off + g[k].size <= End(g) && 1 <= g[k].size <= cfg.Part()
      ensures forall x :: k < x < |g| ==> g[k].off + g[k].size <= g[x].off
    {
      TiledBounds(cfg, g, k);
    }
    hide Tiled;
    assert End(g) >= 0;
    forall i
      ensures HandedOut(g, i) <==> 0 <= i < End(g)
    {
      if 0 <= i < End(g) {
        var k := Holder(cfg, g, i);
      }
    }
  }

  ghost predicate Disjoint(ps: seq<Proc>) {
    forall w, x, i :: 0 <= w < x < |ps| && ps[w].job.Some? && ps[x].job.Some? ==>
      !(Holds(ps[w].job.value, i) && Holds(ps[x].job.value, i))
  }

  lemma JobsDisjoint(cfg: Config, s: State)
    requires Jobs(s) && CutUp(s.given, End(s.given), cfg.Part())
    ensures Disjoint(s.ps)
  {
    forall w, x, i | 0 <= w < x < |s.ps| && s.ps[w].job.Some? && s.ps[x].job.Some?
      ensures !(Holds(s.ps[w].job.value, i) && Holds(s.ps[x].job.value, i))
    {
      var k :| 0 <= k < |s.given| && s.given[k] == s.ps[w].job.value;
      var y :| 0 <= y < |s.given| && s.given[y] == s.ps[x].job.value;
      assert k != y;
    }
  }

  /**
    In every state of every run the rows handed out are the first End(given), each in
    exactly one chunk of 1 to Part rows, and no two workers work on the same row. When the
    master leaves, all rows have been handed out.
   */
  lemma RowsHandedOutOnce(cfg: Config, mvs: seq<Move>)
    requires cfg.Valid() && After(cfg, mvs).Some?
    ensures var s := After(cfg, mvs).value;
      && CutUp(s.given, End(s.given), cfg.Part()) && Disjoint(s.ps)
      && End(s.given) <= cfg.Rows() && (s.m.pc.Done? ==> End(s.given) == cfg.Rows())
  {
    hide CutUp, Conversations, OutInv, Disjoint, Tiled;
    var s := After(cfg, mvs).value;
    RunKeeps(cfg, mvs);
    TiledCutsUp(cfg, s.given);
    JobsDisjoint(cfg, s);
  }

  lemma {:induction false} Holder(cfg: Config, g: seq<Chunk>, i: int) returns (k: nat)
    requires Tiled(cfg, g) && 0 <= i < End(g)
    ensures k < |g| && Holds(g[k], i)
  {
    var n := |g| - 1;
    if i >= g[n].off {
      k := n;
    } else {
      var h := g[..n];
      assert forall x :: 0 <= x < n ==> h[..x] == g[..x];
      k := Holder(cfg, h, i);
    }
  }

  /** followIN after the chunk being handed out has been added to it. */
  function Following(m: Master): int {
    if m.pc.Sending? || m.pc.Check? then m.followIN + m.partSize else m.followIN
  }

  /** In every reachable state the rows handed out are those below followIN and the upper bound. */
  lemma HandedOutEnd(cfg: Config, mvs: seq<Move>)
    requires cfg.Valid() && After(cfg, mvs).Some?
    ensures var s := After(cfg, mvs).value; End(s.given) == Min(Following(s.m), cfg.Rows())
  {
    hide ProcInv, OutInv;
    RunKeeps(cfg, mvs);
  }

  /** Once the start-up is over every worker has work or has been dismissed, and not both. */
  lemma WorkOrDismissal(cfg: Config, mvs: seq<Move>, w: nat)
    requires cfg.Valid() && After(cfg, mvs).Some? && w < cfg.workers
    requires var pc := After(cfg, mvs).value.m.pc; pc.Loop? || pc.Done?
    ensures var s := After(cfg, mvs).value; w < |s.ps| && (s.ps[w].job.Some? <==> !s.ps[w].retired)
  {
    var s := After(cfg, mvs).value;
    RunKeeps(cfg, mvs);
    if s.ps[w].job.Some? {
      Busy(cfg, Free, s.ps[w]);
    } else if !s.ps[w].retired {
      HasJob(cfg, s.ps[w]);
      assert false;
    }
  }

  /** The worker is given the next chunk. */
  ghost predicate Assigned(s: State, s': State, src: nat) {
    && src < |s.ps| == |s'.ps| && s'.m.pc == Sending(src, 0, false) && s'.m.killed == s.m.killed
    && |s'.given| == |s.given| + 1 && s'.ps[src].job == Some(s'.given[|s.given|])
    && s'.ps[src].retired == s.ps[src].retired
  }

  /** The worker is left without a chunk, and nothing is handed out. */
  ghost predicate LeftFree(s: State, s': State, src: nat) {
    && src < |s.ps| == |s'.ps| && s'.m.pc == Check(src) && s'.m.killed == s.m.killed
    && s'.given == s.given && s'.ps[src].job.None? && s'.ps[src].retired == s.ps[src].retired
  }

  /** When a chunk comes back, its worker is given another one exactly when rows are left. */
  lemma ReturnDecides(cfg: Config, mvs: seq<Move>, src: nat)
    requires cfg.Valid() && After(cfg, mvs).Some? && After(cfg, mvs).value.m.pc == RetOffset(src)
    requires Fire(cfg, After(cfg, mvs).value, Serve).Some?
    ensures var s, s' := After(cfg, mvs).value, Fire(cfg, After(cfg, mvs).value, Serve).value;
      if End(s.given) < cfg.Rows() then Assigned(s, s', src) else LeftFree(s, s', src)
  {
    hide ProcInv, OutInv, Schedule;
    RunKeeps(cfg, mvs);
    HandedOutEnd(cfg, mvs);
    var s := After(cfg, mvs).value;
    AskedSize(cfg, s.m.partSize, s.ps[src]);
  }

  /** The test after a return retires the worker or does not, and the master leaves when all are retired. */
  ghost predicate Checked(cfg: Config, s: State, s': State, src: nat) {
    && src < |s.ps| == |s'.ps| && s'.given == s.given && !s.ps[src].retired
    && (s'.m.pc == if s'.m.killed == cfg.workers then Done else Loop)
    && (if s.ps[src].job.None? then s'.ps[src].retired && s'.m.killed == s.m.killed + 1
        else !s'.ps[src].retired && s'.m.killed == s.m.killed)
  }

  /** A worker left without a chunk is dismissed by the very next step, and one with a chunk is not. */
  lemma CheckDecides(cfg: Config, mvs: seq<Move>, src: nat)
    requires cfg.Valid() && After(cfg, mvs).Some? && After(cfg, mvs).value.m.pc == Check(src)
    ensures Fire(cfg, After(cfg, mvs).value, Serve).Some?
    ensures Checked(cfg, After(cfg, mvs).value, Fire(cfg, After(cfg, mvs).value, Serve).value, src)
  {
    var s := After(cfg, mvs).value;
    hide OutInv, Schedule;
    RunKeeps(cfg, mvs);
    CheckView(cfg, s.ps[src]);
    HandedOutEnd(cfg, mvs);
  }

  lemma AskedSize(cfg: Config, part: int, p: Proc)
    requires ProcInv(cfg, AskOffset(part), p)
    ensures part >= 1
  {
  }

  // ---------- which chunks ----------

  /** The k-th chunk starts at row k * Part, and is cut short only by the last row. */
  ghost predicate Cut(cfg: Config, g: seq<Chunk>) {
    forall k :: 0 <= k < |g| ==>
      k * cfg.Part() < cfg.Rows() && g[k] == Chunk(k * cfg.Part(), Min(cfg.Part(), cfg.Rows() - k * cfg.Part()))
  }

  /** As long as rows are left, the start-up hands out Part rows at a time. */
  ghost predicate CutInv(cfg: Config, s: State) {
    Cut(cfg, s.given) && (s.m.pc.Start? ==> s.m.partSize == cfg.Part() || s.m.followIN >= cfg.Rows())
  }

  lemma CutEnd(cfg: Config, g: seq<Chunk>)
    requires Cut(cfg, g) && End(g) < cfg.Rows()
    ensures End(g) == |g| * cfg.Part()
  {
    var n := |g|;
    if n > 0 {
      assert n * cfg.Part() == (n - 1) * cfg.Part() + cfg.Part();
    }
  }

  /** The next chunk is the next stretch of Part rows, or what is left. */
  lemma CutGrows(cfg: Config, g: seq<Chunk>, c: Chunk)
    requires Cut(cfg, g) && c.off == End(g) < cfg.Rows() && c.size == Min(cfg.Part(), cfg.Rows() - c.off)
    ensures Cut(cfg, g + [c])
  {
    CutEnd(cfg, g);
    var h := g + [c];
    forall k | 0 <= k < |h|
      ensures k * cfg.Part() < cfg.Rows()
      ensures h[k] == Chunk(k * cfg.Part(), Min(cfg.Part(), cfg.Rows() - k * cfg.Part()))
    {
      assert k < |g| ==> h[k] == g[k];
    }
  }

  lemma GiveCuts(cfg: Config, s: State, to: nat, part: int, startup: bool)
    requires Cut(cfg, s.given) && Even(cfg, s) && s.m.followIN < cfg.Rows() && to < |s.ps|
    requires part == Min(cfg.Part(), cfg.Rows() - s.m.followIN)
    ensures CutInv(cfg, Give(s, to, part, startup))
  {
    hide Cut;
    CutGrows(cfg, s.given, Chunk(s.m.followIN, part));
  }

  /** A chunk of another size than Part is the last one. */
  lemma ShortIsLast(cfg: Config, g: seq<Chunk>, c: Chunk)
    requires Cut(cfg, g) && c in g
    ensures c.size == cfg.Part() || c.off + c.size == cfg.Rows()
  {
  }

  lemma FireCuts(cfg: Config, s: State, mv: Move)
    requires cfg.Valid() && Inv(cfg, s) && CutInv(cfg, s) && Fire(cfg, s, mv).Some?
    ensures CutInv(cfg, Fire(cfg, s, mv).value)
  {
    hide ProcInv, Schedule, Cut, Config.Part, WorkerStep, Assignment, MasterDirected;
    var s' := Fire(cfg, s, mv).value;
    match mv
    case Work(_) =>
    case Receive(_) =>
    case Serve =>
      match s.m.pc
      case Start(to) => StartCuts(cfg, s, to, s');
      case Sending(to, _, _) => ShortIsLast(cfg, s.given, Chunk(s.m.followIN, s.m.partSize));
      case Reply(_, _) =>
      case Check(_) =>
      case ReadCoord(src) => DirectedCuts(cfg, s, src, RTAG, s');
      case WriteCoord(src) => DirectedCuts(cfg, s, src, WTAG, s');
      case WriteVal(src, _) => DirectedCuts(cfg, s, src, WTAG, s');
      case RetOffset(src) => ReturnCuts(cfg, s, src, s');
  }

  lemma DirectedCuts(cfg: Config, s: State, src: nat, tag: Tag, s': State)
    requires MasterDirected(cfg, s, src, tag) == Some(s') && !s.m.pc.RetOffset? && CutInv(cfg, s)
    ensures CutInv(cfg, s')
  {
    hide Cut, FirstTag, Without;
  }

  lemma StartCuts(cfg: Config, s: State, to: nat, s': State)
    requires cfg.Valid() && Inv(cfg, s) && CutInv(cfg, s) && s.m.pc == Start(to) && MasterStep(cfg, s) == Some(s')
    ensures CutInv(cfg, s')
  {
    hide ProcInv, Schedule, Cut, Config.Part, Give, Retire;
    if to < |s.ps| {
      if s.m.followIN < cfg.Rows() {
        GiveCuts(cfg, s, to, Min(cfg.Part(), cfg.Rows() - s.m.followIN), true);
      } else {
        RetireGives(s, to);
      }
    }
  }

  lemma RetireGives(s: State, to: nat)
    requires to < |s.ps|
    ensures Retire(s, to).given == s.given && Retire(s, to).m.followIN == s.m.followIN
    ensures Retire(s, to).m.partSize == s.m.partSize
  {
  }

  lemma ReturnCuts(cfg: Config, s: State, src: nat, s': State)
    requires cfg.Valid() && Inv(cfg, s) && CutInv(cfg, s) && s.m.pc == RetOffset(src) && MasterStep(cfg, s) == Some(s')
    ensures CutInv(cfg, s')
  {
    hide ProcInv, Cut, Config.Part, Give, FirstTag, Without;
    var c := ReturnedChunk(cfg, s, src);
    ShortIsLast(cfg, s.given, c);
    Working0(cfg, s, src);
    if s.m.followIN < cfg.Rows() {
      var p := s.ps[src];
      var s1 := s.(ps := s.ps[src := p.(up := Without(p.up, FirstTag(p.up, ATAG)))]);
      var s2 := s1.(ps := s1.ps[src := s1.ps[src].(job := None)]);
      GiveCuts(cfg, s2, src, Min(cfg.Part(), cfg.Rows() - s.m.followIN), false);
    }
  }

  lemma ReturnedChunk(cfg: Config, s: State, src: nat) returns (c: Chunk)
    requires Inv(cfg, s) && s.m.pc == RetOffset(src)
    ensures src < |s.ps| && s.ps[src].job == Some(c) && c.size == s.m.partSize && c in s.given
  {
    c := s.ps[src].job.value;
  }

  lemma {:induction false} RunCuts(cfg: Config, mvs: seq<Move>)
    requires cfg.Valid() && After(cfg, mvs).Some?
    ensures CutInv(cfg, After(cfg, mvs).value)
  {
    if |mvs| > 0 {
      hide Inv, Fire, CutInv;
      var n := |mvs| - 1;
      RunCuts(cfg, mvs[..n]);
      RunKeeps(cfg, mvs[..n]);
      FireCuts(cfg, After(cfg, mvs[..n]).value, mvs[n]);
    }
  }

  lemma PartIs(cfg: Config)
    requires cfg.Valid()
    ensures cfg.Part() == if cfg.height / 2 >= cfg.workers then (cfg.height / 2) / cfg.workers else 1
    ensures cfg.Part() >= 1
  {
    var q, r := cfg.Rows() / cfg.workers, cfg.Rows() % cfg.workers;
    assert cfg.Rows() == q * cfg.workers + r;
    AtLeastOnce(q, cfg.workers, r);
  }

  lemma AtLeastOnce(q: int, n: nat, r: int)
    requires 0 <= r < n
    ensures q >= 1 <==> q * n + r >= n
  {
    if q >= 1 {
      assert (q - 1) * n >= 0;
    } else {
      assert -q * n >= 0;
    }
  }

  /**
    Whatever the schedule, the chunks handed out are the same: with p = height / 2 / workers, or 1
    when there are more workers than rows, the k-th has the p rows from k * p on, as far as there
    are so many. In all there are height / 2 over p of them, rounded up.
   */
  lemma ChunksHandedOut(cfg: Config, mvs: seq<Move>)
    requires cfg.Valid() && After(cfg, mvs).Some?
    ensures var g := After(cfg, mvs).value.given;
      var p := if cfg.height / 2 >= cfg.workers then (cfg.height / 2) / cfg.workers else 1;
      && (forall k :: 0 <= k < |g| ==>
           g[k] == Chunk(k * p, if k * p + p <= cfg.height / 2 then p else cfg.height / 2 - k * p))
      && (After(cfg, mvs).value.m.pc.Done? ==> p >= 1 && |g| == (cfg.height / 2 + p - 1) / p)
  {
    hide ProcInv, OutInv, Schedule, Config.Part;
    PartIs(cfg);
    RunCuts(cfg, mvs);
    var s := After(cfg, mvs).value;
    if s.m.pc.Done? {
      RunKeeps(cfg, mvs);
      HowMany(cfg, s.given);
    }
  }

  lemma HowMany(cfg: Config, g: seq<Chunk>)
    requires cfg.Part() >= 1 && Cut(cfg, g) && End(g) == cfg.Rows() > 0
    ensures |g| == (cfg.Rows() + cfg.Part() - 1) / cfg.Part()
  {
    hide Config.Part;
    var n, p := |g|, cfg.Part();
    assert n * p == (n - 1) * p + p;
    DivUnique(cfg.Rows() + p - 1, p, n, cfg.Rows() + p - 1 - n * p);
  }

  // ---------- dismissals ----------

  lemma FireCount(cfg: Config, s: State, mv: Move)
    requires Fire(cfg, s, mv).Some?
    ensures |Fire(cfg, s, mv).value.ps| == |s.ps|
  {
    hide Assignment, FirstTag, Without, Variable;
  }

  lemma {:induction false} WorkerCount(cfg: Config, mvs: seq<Move>)
    requires After(cfg, mvs).Some?
    ensures |After(cfg, mvs).value.ps| == cfg.workers
  {
    if |mvs| > 0 {
      hide Fire;
      var n := |mvs| - 1;
      WorkerCount(cfg, mvs[..n]);
      FireCount(cfg, After(cfg, mvs[..n]).value, mvs[n]);
    }
  }

  /** How many times worker w has received FTAG. */
  ghost function Dismissals(cfg: Config, mvs: seq<Move>, w: nat): nat
    requires After(cfg, mvs).Some? && w < cfg.workers
  {
    if |mvs| == 0 then 0
    else
      var n := |mvs| - 1;
      WorkerCount(cfg, mvs[..n]);
      var p := After(cfg, mvs[..n]).value.ps[w];
      Dismissals(cfg, mvs[..n], w)
      + if mvs[n] == Work(w) && p.w.pc.Idle? && |p.down| > 0 && p.down[0].tag.FTAG? then 1 else 0
  }

  lemma MasterLeavesWorkers(cfg: Config, s: State, mv: Move, w: nat)
    requires w < |s.ps| && mv != Work(w) && Fire(cfg, s, mv).Some?
    ensures var s' := Fire(cfg, s, mv).value; |s'.ps| == |s.ps| && s'.ps[w].w == s.ps[w].w
  {
    hide Assignment, FirstTag, Without, Variable;
  }

  lemma {:induction false} DismissalsCounted(cfg: Config, mvs: seq<Move>, w: nat)
    requires After(cfg, mvs).Some? && w < cfg.workers && |After(cfg, mvs).value.ps| == cfg.workers
    ensures Dismissals(cfg, mvs, w) == if After(cfg, mvs).value.ps[w].w.pc.Stopped? then 1 else 0
  {
    if |mvs| > 0 {
      var n := |mvs| - 1;
      WorkerCount(cfg, mvs[..n]);
      DismissalsCounted(cfg, mvs[..n], w);
      if mvs[n] != Work(w) {
        MasterLeavesWorkers(cfg, After(cfg, mvs[..n]).value, mvs[n], w);
      }
    }
  }

  /** A step sends FTAG to worker w. */
  ghost predicate SendsFtag(s: State, s': State, w: nat)
    requires w < |s.ps| && w < |s'.ps|
  {
    var q, q' := s.ps[w].down, s'.ps[w].down;
    |q'| == |q| + 1 && q'[..|q|] == q && q'[|q|].tag.FTAG?
  }

  /** How many times the master has sent FTAG to worker w. */
  ghost function FtagSends(cfg: Config, mvs: seq<Move>, w: nat): nat
    requires After(cfg, mvs).Some? && w < cfg.workers
  {
    if |mvs| == 0 then 0
    else
      var n := |mvs| - 1;
      WorkerCount(cfg, mvs[..n]);
      WorkerCount(cfg, mvs);
      FtagSends(cfg, mvs[..n], w)
      + if SendsFtag(After(cfg, mvs[..n]).value, After(cfg, mvs).value, w) then 1 else 0
  }

  /** FTAG goes to a worker exactly when it becomes retired, which happens once. */
  lemma SendsOnce(cfg: Config, s: State, mv: Move, w: nat)
    requires cfg.Valid() && Inv(cfg, s) && Fire(cfg, s, mv).Some? && w < |s.ps| && |Fire(cfg, s, mv).value.ps| == |s.ps|
    ensures var s' := Fire(cfg, s, mv).value;
      (SendsFtag(s, s', w) <==> !s.ps[w].retired && s'.ps[w].retired) && (s.ps[w].retired ==> s'.ps[w].retired)
  {
    hide Schedule;
    var s' := Fire(cfg, s, mv).value;
    match mv
    case Work(x) =>
      hide ProcInv;
      WorkerKeeps(cfg, ViewOf(s.m, x), s.ps[x], s'.ps[x]);
      WorkerOnlyTakes(s.ps[x], s'.ps[x]);
    case Receive(src) =>
    case Serve => ServeSendsOnce(cfg, s, s', w);
  }

  lemma WorkerOnlyTakes(p: Proc, p': Proc)
    requires WorkerStep(p) == Some(p')
    ensures |p'.down| <= |p.down|
  {
    hide RunMsg, NextPoint;
  }

  lemma ServeSendsOnce(cfg: Config, s: State, s': State, w: nat)
    requires cfg.Valid() && Inv(cfg, s) && MasterStep(cfg, s) == Some(s') && w < |s.ps| == |s'.ps|
    ensures (SendsFtag(s, s', w) <==> !s.ps[w].retired && s'.ps[w].retired) && (s.ps[w].retired ==> s'.ps[w].retired)
  {
    hide ProcInv, Schedule, MasterDirected, Assignment;
    match s.m.pc
    case Start(to) =>
      if to < |s.ps| {
        Resting(cfg, NotYet, s.ps[to]);
        StartSendsOnce(cfg, s, s', to, w);
      }
    case Check(src) =>
      CheckView(cfg, s.ps[src]);
      if s.m.followIN + s.m.partSize > cfg.Rows() {
        RetireSends(s, src, w);
      }
    case Sending(to, k, _) => AssignmentTag(cfg, Chunk(s.m.followIN, s.m.partSize), k);
    case Reply(_, _) =>
    case Loop =>
    case Done =>
    case ReadCoord(src) => DirectedSendsNone(cfg, s, src, RTAG, s', w);
    case WriteCoord(src) => DirectedSendsNone(cfg, s, src, WTAG, s', w);
    case WriteVal(src, _) => DirectedSendsNone(cfg, s, src, WTAG, s', w);
    case RetOffset(src) => DirectedSendsNone(cfg, s, src, ATAG, s', w);
  }

  lemma AssignmentTag(cfg: Config, c: Chunk, k: nat)
    requires k < 8
    ensures |Assignment(cfg, c)| == 8 && Assignment(cfg, c)[k].tag == ATAG
  {
  }

  /** Retiring a worker sends it FTAG, and no other worker anything. */
  lemma RetireSends(s: State, to: nat, w: nat)
    requires to < |s.ps| && w < |s.ps|
    ensures var s1 := Retire(s, to);
      && |s1.ps| == |s.ps| && (SendsFtag(s, s1, w) <==> w == to)
      && (s1.ps[w].retired <==> w == to || s.ps[w].retired)
  {
  }

  lemma StartSendsOnce(cfg: Config, s: State, s': State, to: nat, w: nat)
    requires s.m.pc == Start(to) && to < |s.ps| && MasterStep(cfg, s) == Some(s') && w < |s.ps| == |s'.ps|
    requires !s.ps[to].retired
    ensures (SendsFtag(s, s', w) <==> !s.ps[w].retired && s'.ps[w].retired) && (s.ps[w].retired ==> s'.ps[w].retired)
  {
    RetireSends(s, to, w);
    hide Retire;
  }

  lemma DirectedSendsNone(cfg: Config, s: State, src: nat, tag: Tag, s': State, w: nat)
    requires MasterDirected(cfg, s, src, tag) == Some(s') && w < |s.ps| == |s'.ps|
    ensures s'.ps[w].down == s.ps[w].down && s'.ps[w].retired == s.ps[w].retired
  {
    hide FirstTag, Without;
  }

  lemma {:induction false} SendsCounted(cfg: Config, mvs: seq<Move>, w: nat)
    requires cfg.Valid() && After(cfg, mvs).Some? && w < cfg.workers && |After(cfg, mvs).value.ps| == cfg.workers
    ensures FtagSends(cfg, mvs, w) == if After(cfg, mvs).value.ps[w].retired then 1 else 0
  {
    if |mvs| > 0 {
      hide Inv, Fire, SendsFtag;
      var n := |mvs| - 1;
      WorkerCount(cfg, mvs[..n]);
      SendsCounted(cfg, mvs[..n], w);
      RunKeeps(cfg, mvs[..n]);
      SendsOnce(cfg, After(cfg, mvs[..n]).value, mvs[n], w);
    }
  }

  /**
    The master sends FTAG to every worker at most once, and exactly once in a run that has ended;
    the worker receives it then.
   */
  lemma DismissedOnce(cfg: Config, mvs: seq<Move>, w: nat)
    requires cfg.Valid() && After(cfg, mvs).Some? && w < cfg.workers
    ensures Dismissals(cfg, mvs, w) <= FtagSends(cfg, mvs, w) <= 1
    ensures Finished(After(cfg, mvs).value) ==> Dismissals(cfg, mvs, w) == FtagSends(cfg, mvs, w) == 1
  {
    var s := After(cfg, mvs).value;
    hide OutInv, Schedule;
    RunKeeps(cfg, mvs);
    WorkerCount(cfg, mvs);
    DismissalsCounted(cfg, mvs, w);
    SendsCounted(cfg, mvs, w);
    StoppedRetired(cfg, ViewOf(s.m, w), s.ps[w]);
  }

  lemma StoppedRetired(cfg: Config, v: View, p: Proc)
    requires ProcInv(cfg, v, p)
    ensures p.w.pc.Stopped? ==> p.retired
  {
  }

  /** When all ranks have left nothing is under way, so the next nest can use the same tags. */
  lemma NothingUnderWay(cfg: Config, mvs: seq<Move>, w: nat)
    requires cfg.Valid() && After(cfg, mvs).Some? && Finished(After(cfg, mvs).value) && w < cfg.workers
    ensures var s := After(cfg, mvs).value; w < |s.ps| && s.ps[w].up == [] && s.ps[w].down == []
  {
    var s := After(cfg, mvs).value;
    RunKeeps(cfg, mvs);
    CountAll(cfg, s);
    Dismissed(cfg, ViewOf(s.m, w), s.ps[w]);
  }

  // ---------- addresses ----------

  lemma RowStarts(a: int, b: int, cols: nat)
    requires a < b
    ensures a * cols + cols <= b * cols
  {
    assert (b - a - 1) * cols >= 0;
  }

  lemma InPlane(row: int, col: int, rows: nat, cols: nat)
    requires 0 <= col < cols && cols > 0
    ensures 0 <= row * cols + col < rows * cols <==> 0 <= row < rows
  {
    if row < 0 {
      RowStarts(row, 0, cols);
    } else {
      RowStarts(-1, row, cols);
      if row < rows { RowStarts(row, rows, cols); } else { RowStarts(rows - 1, row, cols); }
    }
  }

  /** The reads of the nest stay inside the plane exactly when it has at least two rows. */
  lemma ReadsInPlane(cfg: Config)
    requires cfg.Rows() > 0 && cfg.Cols() > 0
    ensures (forall i, j, r: nat :: Point(cfg, i, j) && r < 4 ==>
      0 <= ReadAt(cfg.height, cfg.width, i, j, r) < cfg.Rows() * cfg.Cols())
      <==> cfg.Rows() >= 2
  {
    forall i, j, r: nat | Point(cfg, i, j) && r < 4
      ensures 0 <= ReadAt(cfg.height, cfg.width, i, j, r) < cfg.Rows() * cfg.Cols() <==> cfg.Rows() >= 2 || r < 3
    {
      var row := if r == 0 then Max(0, i - 4) else if r == 1 then Max(0, i - 2) else if r == 2 then i
        else Min(cfg.height / 2 - 2, i + 2);
      InPlane(row, j, cfg.Rows(), cfg.Cols());
    }
    assert Point(cfg, 0, 0);
    var last := ReadAt(cfg.height, cfg.width, 0, 0, 3);
    assert 0 <= last < cfg.Rows() * cfg.Cols() <==> cfg.Rows() >= 2;
  }

  /** The writes stay inside the output plane, which has twice as many rows. */
  lemma WritesInPlane(cfg: Config, i: int, j: int)
    requires Point(cfg, i, j)
    ensures 0 <= WriteAt(cfg.width, i, j) < 2 * cfg.Rows() * cfg.Cols()
  {
    InPlane(2 * i, j, 2 * cfg.Rows(), cfg.Cols());
  }
}
