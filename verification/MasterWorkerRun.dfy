/**
  The invariant of the whole nest: every conversation, the chunks handed out, and the
  variables the master uses for both. Every step of every rank keeps it.
 */
module MasterWorkerRun {
  import opened Options
  import opened Sequences
  import opened MasterWorker
  import opened MasterWorkerProc

  // ---------- the invariant ----------

  ghost function End(g: seq<Chunk>): int {
    if |g| == 0 then 0 else g[|g| - 1].off + g[|g| - 1].size
  }

  /** Each chunk starts where the one before it ended. */
  ghost predicate Tiled(cfg: Config, g: seq<Chunk>) {
    forall k :: 0 <= k < |g| ==> g[k].off == End(g[..k]) && 1 <= g[k].size <= cfg.Part()
  }

  ghost function CountRetired(ps: seq<Proc>): nat {
    if |ps| == 0 then 0 else CountRetired(ps[..|ps| - 1]) + (if ps[|ps| - 1].retired then 1 else 0)
  }

  /** The chunks being worked on were handed out, and no two workers have the same one. */
  ghost predicate Jobs(s: State) {
    && (forall w :: 0 <= w < |s.ps| && s.ps[w].job.Some? ==> s.ps[w].job.value in s.given)
    && (forall w, x :: 0 <= w < x < |s.ps| && s.ps[w].job.Some? ==> s.ps[w].job != s.ps[x].job)
  }

  ghost predicate Conversations(cfg: Config, s: State) {
    |s.ps| == cfg.workers && forall w :: 0 <= w < |s.ps| ==> ProcInv(cfg, ViewOf(s.m, w), s.ps[w])
  }

  /** followIN is the end of what was handed out; past the last row it may run ahead. */
  ghost predicate Even(cfg: Config, s: State) {
    s.m.followIN == End(s.given) || End(s.given) == cfg.Rows() <= s.m.followIN
  }

  ghost predicate Counters(cfg: Config, s: State)
    requires |s.ps| == cfg.workers
  {
    var m, e, rows := s.m, End(s.given), cfg.Rows();
    match m.pc
    case Start(to) =>
      && to <= cfg.workers && 1 <= m.partSize <= cfg.Part() && Even(cfg, s)
      && (to == 0 ==> m.followIN == 0) && (rows > 0 && to > 0 ==> s.ps[0].job.Some?)
    case Sending(to, k, startup) =>
      && to < cfg.workers && k < 8 && |s.given| > 0 && s.ps[to].job == Some(Chunk(m.followIN, m.partSize))
      && s.given[|s.given| - 1] == Chunk(m.followIN, m.partSize)
      && (if startup then s.ps[0].job.Some? else m.killed < cfg.workers)
    case Loop => Even(cfg, s) && (rows > 0 ==> m.killed < cfg.workers)
    case Check(src) =>
      && src < cfg.workers && rows > 0 && m.killed < cfg.workers && m.partSize >= 1
      && (if s.ps[src].job.Some? then m.followIN + m.partSize == e else e == rows <= m.followIN)
    case Done => m.killed == cfg.workers && 0 < rows == e <= m.followIN
    case ReadCoord(src) => src < cfg.workers && rows > 0 && m.killed < cfg.workers && Even(cfg, s)
    case Reply(src, _) => src < cfg.workers && rows > 0 && m.killed < cfg.workers && Even(cfg, s)
    case WriteCoord(src) => src < cfg.workers && rows > 0 && m.killed < cfg.workers && Even(cfg, s)
    case WriteVal(src, _) => src < cfg.workers && rows > 0 && m.killed < cfg.workers && Even(cfg, s)
    case RetOffset(src) => src < cfg.workers && rows > 0 && m.killed < cfg.workers && Even(cfg, s)
  }

  ghost predicate Schedule(cfg: Config, s: State) {
    Tiled(cfg, s.given) && End(s.given) <= cfg.Rows() && CountRetired(s.ps) == s.m.killed && Jobs(s)
  }

  ghost predicate Inv(cfg: Config, s: State) {
    Conversations(cfg, s) && Schedule(cfg, s) && Counters(cfg, s)
  }

  // ---------- the pieces a step changes ----------

  lemma TiledBounds(cfg: Config, g: seq<Chunk>, k: nat)
    requires Tiled(cfg, g) && k < |g|
    ensures 0 <= g[k].off && g[k].off + g[k].size <= End(g) && 1 <= g[k].size <= cfg.Part()
    ensures forall x :: k < x < |g| ==> g[k].off + g[k].size <= g[x].off
  {
    Ordered(cfg, g, k);
  }

  lemma Ordered(cfg: Config, g: seq<Chunk>, k: nat)
    requires Tiled(cfg, g) && k < |g|
    ensures 0 <= g[k].off
    ensures forall x :: k < x < |g| ==> g[k].off + g[k].size <= g[x].off
  {
    if k > 0 {
      Ordered(cfg, g, k - 1);
      assert g[..k][k - 1] == g[k - 1];
    }
    var x := k + 1;
    while x < |g|
      invariant k + 1 <= x
      invariant forall y :: k < y < x && y < |g| ==> g[k].off + g[k].size <= g[y].off
    {
      assert g[..x][x - 1] == g[x - 1];
      x := x + 1;
    }
  }

  lemma EndNat(cfg: Config, g: seq<Chunk>)
    requires Tiled(cfg, g)
    ensures End(g) >= 0
  {
    if |g| > 0 {
      TiledBounds(cfg, g, |g| - 1);
    }
  }

  lemma TiledGrows(cfg: Config, g: seq<Chunk>, c: Chunk)
    requires Tiled(cfg, g) && c.off == End(g) && 1 <= c.size <= cfg.Part()
    ensures Tiled(cfg, g + [c]) && End(g + [c]) == c.off + c.size && c !in g
  {
    var h := g + [c];
    forall k | 0 <= k < |h|
      ensures h[k].off == End(h[..k]) && 1 <= h[k].size <= cfg.Part()
    {
      assert h[..k] == g[..k];
      if k == |g| {
        assert g[..k] == g;
      }
    }
    if c in g {
      var k :| 0 <= k < |g| && g[k] == c;
      TiledBounds(cfg, g, k);
    }
  }

  lemma CountUpdate(ps: seq<Proc>, w: nat, p: Proc)
    requires w < |ps| && (ps[w].retired ==> p.retired)
    ensures CountRetired(ps[w := p]) == CountRetired(ps) + if p.retired && !ps[w].retired then 1 else 0
  {
    var qs := ps[w := p];
    if w < |ps| - 1 {
      assert qs[..|ps| - 1] == ps[..|ps| - 1][w := p];
      CountUpdate(ps[..|ps| - 1], w, p);
    } else {
      assert qs[..w] == ps[..w];
    }
  }

  lemma CountBound(ps: seq<Proc>)
    ensures CountRetired(ps) <= |ps|
    ensures CountRetired(ps) == |ps| <==> forall w :: 0 <= w < |ps| ==> ps[w].retired
  {
    if |ps| > 0 {
      CountBound(ps[..|ps| - 1]);
      if CountRetired(ps) == |ps| {
        forall w | 0 <= w < |ps| ensures ps[w].retired {
          if w < |ps| - 1 { assert ps[..|ps| - 1][w].retired; }
        }
      }
      if forall w :: 0 <= w < |ps| ==> ps[w].retired {
        assert ps[|ps| - 1].retired;
      }
    }
  }

  // ---------- every step keeps it ----------

  lemma InitInv(cfg: Config)
    requires cfg.Valid()
    ensures Inv(cfg, Init(cfg))
  {
    var s := Init(cfg);
    NoneRetired(s.ps);
    PartBounds(cfg);
  }

  lemma NoneRetired(ps: seq<Proc>)
    requires forall w :: 0 <= w < |ps| ==> !ps[w].retired
    ensures CountRetired(ps) == 0
  {
  }

  lemma PartBounds(cfg: Config)
    ensures 1 <= cfg.Part() && (cfg.Rows() >= 1 ==> cfg.Part() <= cfg.Rows())
  {
    if cfg.workers > 0 {
      QuotientBound(cfg.Rows(), cfg.workers);
    }
  }

  lemma QuotientBound(a: nat, n: nat)
    requires n > 0
    ensures 0 <= a / n <= a
  {
    FactorBound(a / n, n, a % n, a);
  }

  lemma FactorBound(d: int, n: int, r: int, a: int)
    requires 0 <= r < n && a == d * n + r && a >= 0
    ensures 0 <= d <= a
  {
    assert d <= -1 ==> d * n <= -n;
    assert d >= 0 ==> d * n >= d;
  }

  lemma FireKeeps(cfg: Config, s: State, mv: Move)
    requires cfg.Valid() && Inv(cfg, s) && Fire(cfg, s, mv).Some?
    ensures Inv(cfg, Fire(cfg, s, mv).value)
  {
    var s' := Fire(cfg, s, mv).value;
    match mv
    case Work(w) => WorkKeeps(cfg, s, w, s');
    case Receive(src) => LoopKeeps(cfg, s, src, s');
    case Serve =>
      match s.m.pc
      case Start(to) => StartKeeps(cfg, s, to, s');
      case Sending(to, k, startup) => SendsKeeps(cfg, s, to, k, startup, s');
      case Reply(src, x) => ReplyStep(cfg, s, src, x, s');
      case Check(src) => CheckKeeps(cfg, s, src, s');
      case ReadCoord(src) => ReadStep(cfg, s, src, s');
      case WriteCoord(src) => WriteStep(cfg, s, src, s');
      case WriteVal(src, coord) => ValueStep(cfg, s, src, coord, s');
      case RetOffset(src) => OffsetStep(cfg, s, src, s');
  }

  lemma WorkKeeps(cfg: Config, s: State, w: nat, s': State)
    requires Inv(cfg, s) && Fire(cfg, s, Work(w)) == Some(s')
    ensures Inv(cfg, s')
  {
    hide ProcInv, WorkerStep;
    var p' := WorkerStep(s.ps[w]).value;
    WorkerKeeps(cfg, ViewOf(s.m, w), s.ps[w], p');
    Relabelled(cfg, s, w, s');
    hide Schedule;
  }

  /** A step that changes one worker's queues and nothing that the schedule depends on. */
  ghost predicate Talk(cfg: Config, s: State, src: nat, s': State) {
    && src < |s.ps| && |s'.ps| == |s.ps| && s'.ps == s.ps[src := s'.ps[src]] && s'.given == s.given
    && s'.ps[src].job == s.ps[src].job && s'.ps[src].retired == s.ps[src].retired
    && s'.m.followIN == s.m.followIN && s'.m.killed == s.m.killed
    && !s'.m.pc.Start? && !s'.m.pc.Sending? && !s'.m.pc.Check? && !s'.m.pc.Done?
    && (forall w :: 0 <= w < |s.ps| && w != src ==> ViewOf(s'.m, w) == ViewOf(s.m, w))
  }

  lemma TalkKeeps(cfg: Config, s: State, src: nat, s': State)
    requires Inv(cfg, s) && Talk(cfg, s, src, s') && ProcInv(cfg, ViewOf(s'.m, src), s'.ps[src])
    requires cfg.Rows() > 0 && s.m.killed < cfg.workers && Even(cfg, s)
    requires match s'.m.pc case Loop => true case ReadCoord(x) => x == src case Reply(x, _) => x == src
             case WriteCoord(x) => x == src case WriteVal(x, _) => x == src
             case RetOffset(x) => x == src case _ => false
    ensures Inv(cfg, s')
  {
    Relabelled(cfg, s, src, s');
    hide ProcInv, Schedule;
  }

  lemma LoopKeeps(cfg: Config, s: State, src: nat, s': State)
    requires cfg.Valid() && Inv(cfg, s) && Fire(cfg, s, Receive(src)) == Some(s')
    ensures Inv(cfg, s')
  {
    var p := s.ps[src];
    ReceiveKeeps(cfg, p, p.(up := p.up[1..]));
    Working0(cfg, s, src);
    TalkKeeps(cfg, s, src, s');
  }

  /** A chunk is only ever being worked on when there are rows. */
  lemma Working0(cfg: Config, s: State, src: nat)
    requires Inv(cfg, s) && src < |s.ps| && s.ps[src].job.Some?
    ensures cfg.Rows() > 0
    ensures var c := s.ps[src].job.value; 0 <= c.off && c.off + c.size <= End(s.given) && 1 <= c.size <= cfg.Part()
  {
    var k :| 0 <= k < |s.given| && s.given[k] == s.ps[src].job.value;
    TiledBounds(cfg, s.given, k);
  }

  lemma ReadStep(cfg: Config, s: State, src: nat, s': State)
    requires cfg.Valid() && Inv(cfg, s) && s.m.pc == ReadCoord(src) && MasterStep(cfg, s) == Some(s')
    ensures Inv(cfg, s')
  {
    hide ProcInv, Schedule;
    var p := s.ps[src];
    ReadKeeps(cfg, p, p.(up := p.up[1..]));
    assert FirstTag(p.up, RTAG) == 0 && Without(p.up, 0) == p.up[1..];
    TalkKeeps(cfg, s, src, s');
  }

  lemma ReplyStep(cfg: Config, s: State, src: nat, x: int, s': State)
    requires cfg.Valid() && Inv(cfg, s) && s.m.pc == Reply(src, x) && MasterStep(cfg, s) == Some(s')
    ensures Inv(cfg, s')
  {
    ReplyKeeps(cfg, x, s.ps[src], s'.ps[src]);
    TalkKeeps(cfg, s, src, s');
  }

  lemma WriteStep(cfg: Config, s: State, src: nat, s': State)
    requires cfg.Valid() && Inv(cfg, s) && s.m.pc == WriteCoord(src) && MasterStep(cfg, s) == Some(s')
    ensures Inv(cfg, s')
  {
    hide ProcInv, Schedule;
    var p := s.ps[src];
    WriteKeeps(cfg, p, p.(up := p.up[1..]));
    assert FirstTag(p.up, WTAG) == 0 && Without(p.up, 0) == p.up[1..];
    TalkKeeps(cfg, s, src, s');
  }

  lemma ValueStep(cfg: Config, s: State, src: nat, coord: int, s': State)
    requires cfg.Valid() && Inv(cfg, s) && s.m.pc == WriteVal(src, coord) && MasterStep(cfg, s) == Some(s')
    ensures Inv(cfg, s')
  {
    hide ProcInv, Schedule;
    var p := s.ps[src];
    ValueKeeps(cfg, coord, p, p.(up := p.up[1..]));
    assert FirstTag(p.up, WTAG) == 0 && Without(p.up, 0) == p.up[1..];
    TalkKeeps(cfg, s, src, s');
  }

  /** Handing out the next chunk. */
  lemma GiveSchedule(cfg: Config, s: State, to: nat, part: int, startup: bool, s': State)
    requires Schedule(cfg, s) && to < |s.ps| && s' == Give(s, to, part, startup) && s.ps[to].job.None?
    requires s.m.followIN == End(s.given) && 1 <= part <= cfg.Part() && s.m.followIN + part <= cfg.Rows()
    ensures Schedule(cfg, s') && End(s'.given) == End(s.given) + part
  {
    TiledGrows(cfg, s.given, Chunk(s.m.followIN, part));
    CountUpdate(s.ps, to, s'.ps[to]);
  }

  lemma GiveStep(cfg: Config, s: State, v: View, to: nat, part: int, startup: bool, s': State)
    requires |s.ps| == cfg.workers && Schedule(cfg, s) && to < |s.ps| && s' == Give(s, to, part, startup)
    requires forall w :: 0 <= w < |s.ps| && w != to ==> ProcInv(cfg, ViewOf(s'.m, w), s.ps[w])
    requires ProcInv(cfg, v, s.ps[to]) && s.ps[to].job.None? && !s.ps[to].retired
    requires Even(cfg, s) && 1 <= part <= cfg.Part() && s.m.followIN + part <= cfg.Rows()
    requires if startup then to > 0 ==> s.ps[0].job.Some? else s.m.killed < cfg.workers
    ensures Inv(cfg, s')
  {
    hide ProcInv, Schedule;
    GiveSchedule(cfg, s, to, part, startup, s');
    GiveKeeps(cfg, v, s.ps[to], Chunk(s.m.followIN, part), s'.ps[to]);
  }

  lemma RetireSchedule(cfg: Config, s: State, to: nat, v: View)
    requires Schedule(cfg, s) && to < |s.ps| && ProcInv(cfg, v, s.ps[to]) && s.ps[to].job.None? && !s.ps[to].retired
    ensures var s1 := Retire(s, to);
      && Schedule(cfg, s1) && ProcInv(cfg, Free, s1.ps[to]) && s1.ps == s.ps[to := s1.ps[to]]
      && s1.ps[to].job == s.ps[to].job && s1.m == s.m.(killed := s.m.killed + 1) && s1.given == s.given
  {
    var s1 := Retire(s, to);
    RetireKeeps(cfg, v, s.ps[to], s1.ps[to]);
    assert s1.ps == s.ps[to := s1.ps[to]];
    CountUpdate(s.ps, to, s1.ps[to]);
  }

  lemma NotReached(cfg: Config, p: Proc)
    requires ProcInv(cfg, NotYet, p)
    ensures p.job.None? && !p.retired
  {
  }

  lemma Busy(cfg: Config, v: View, p: Proc)
    requires ProcInv(cfg, v, p) && p.job.Some?
    ensures !p.retired && !v.NotYet?
  {
  }

  lemma StartKeeps(cfg: Config, s: State, to: nat, s': State)
    requires cfg.Valid() && Inv(cfg, s) && s.m.pc == Start(to) && MasterStep(cfg, s) == Some(s')
    ensures Inv(cfg, s')
  {
    hide ProcInv, Schedule, Retire;
    var m := s.m;
    if to >= |s.ps| {
      StartEnds(cfg, s, s');
    } else {
      EndNatOf(cfg, s);
      NotReached(cfg, s.ps[to]);
      if m.followIN + m.partSize < cfg.Rows() {
        GiveStep(cfg, s, NotYet, to, m.partSize, true, s');
      } else if cfg.Rows() - m.followIN > 0 {
        GiveStep(cfg, s, NotYet, to, cfg.Rows() - m.followIN, true, s');
      } else {
        StartRetires(cfg, s, to, s');
      }
    }
  }

  lemma EndNatOf(cfg: Config, s: State)
    requires Schedule(cfg, s)
    ensures 0 <= End(s.given) <= cfg.Rows()
  {
    EndNat(cfg, s.given);
  }

  lemma StartEnds(cfg: Config, s: State, s': State)
    requires cfg.Valid() && Inv(cfg, s) && s.m.pc == Start(|s.ps|) && MasterStep(cfg, s) == Some(s')
    ensures Inv(cfg, s')
  {
    hide ProcInv;
    if cfg.Rows() > 0 {
      Busy(cfg, ViewOf(s.m, 0), s.ps[0]);
    }
    CountBound(s.ps);
  }

  lemma StartRetires(cfg: Config, s: State, to: nat, s': State)
    requires cfg.Valid() && Inv(cfg, s) && s.m.pc == Start(to) && to < |s.ps| && s.m.followIN >= cfg.Rows()
    requires s' == (var s1 := Retire(s, to);
      s1.(m := s1.m.(pc := Start(to + 1), followIN := s.m.followIN + s.m.partSize)))
    ensures Inv(cfg, s')
  {
    NotReached(cfg, s.ps[to]);
    hide ProcInv, Retire;
    EndNat(cfg, s.given);
    RetireSchedule(cfg, s, to, NotYet);
  }

  lemma SendsKeeps(cfg: Config, s: State, to: nat, k: nat, startup: bool, s': State)
    requires cfg.Valid() && Inv(cfg, s) && s.m.pc == Sending(to, k, startup) && MasterStep(cfg, s) == Some(s')
    ensures Inv(cfg, s')
  {
    hide ProcInv, Assignment, MasterDirected, Retire, Schedule;
    Working0(cfg, s, to);
    SendingKeeps(cfg, k, s.ps[to], s'.ps[to], ViewOf(s'.m, to));
    assert s'.ps == s.ps[to := s'.ps[to]];
    Relabelled(cfg, s, to, s');
    assert forall w :: 0 <= w < |s.ps| && w != to ==> ViewOf(s'.m, w) == ViewOf(s.m, w);
    assert Conversations(cfg, s');
    hide Conversations, ViewOf;
  }

  /** Messages do not change the schedule. */
  lemma Relabelled(cfg: Config, s: State, w: nat, s': State)
    requires Schedule(cfg, s) && w < |s.ps| && |s'.ps| == |s.ps| && s'.ps == s.ps[w := s'.ps[w]] && s'.given == s.given
    requires s'.ps[w].job == s.ps[w].job && s'.ps[w].retired == s.ps[w].retired && s'.m.killed == s.m.killed
    ensures Schedule(cfg, s')
  {
    CountUpdate(s.ps, w, s'.ps[w]);
  }

  lemma OffsetStep(cfg: Config, s: State, src: nat, s': State)
    requires cfg.Valid() && Inv(cfg, s) && s.m.pc == RetOffset(src) && MasterStep(cfg, s) == Some(s')
    ensures Inv(cfg, s')
  {
    hide ProcInv, Assignment, Retire, Schedule;
    var m, p := s.m, s.ps[src];
    var p1 := p.(up := p.up[1..], job := None);
    OffsetKeeps(cfg, m.partSize, p, p1);
    assert FirstTag(p.up, ATAG) == 0 && Without(p.up, 0) == p.up[1..];
    hide FirstTag, Without;
    Working0(cfg, s, src);
    var s1 := s.(ps := s.ps[src := p1]);
    Returned(cfg, s, src, p1, s1);
    if m.followIN + m.partSize < cfg.Rows() {
      GiveStep(cfg, s1, Checking, src, m.partSize, false, s');
    } else if cfg.Rows() - m.followIN > 0 {
      GiveStep(cfg, s1, Checking, src, cfg.Rows() - m.followIN, false, s');
    } else {
      NothingLeft(cfg, s1, src, s');
    }
  }

  /** With no rows left the worker goes to the check without a chunk. */
  lemma NothingLeft(cfg: Config, s1: State, src: nat, s': State)
    requires |s1.ps| == cfg.workers && Schedule(cfg, s1) && src < |s1.ps| && s1.ps[src].job.None?
    requires s' == s1.(m := s1.m.(pc := Check(src))) && ProcInv(cfg, Checking, s1.ps[src]) && s1.m.partSize >= 1
    requires forall w :: 0 <= w < |s1.ps| && w != src ==> ProcInv(cfg, Free, s1.ps[w])
    requires Even(cfg, s1) && cfg.Rows() <= s1.m.followIN && cfg.Rows() > 0 && s1.m.killed < cfg.workers
    ensures Inv(cfg, s')
  {
    hide ProcInv;
  }

  lemma Returned(cfg: Config, s: State, src: nat, p1: Proc, s1: State)
    requires Schedule(cfg, s) && src < |s.ps| && p1.job.None? && p1.retired == s.ps[src].retired
    requires s1 == s.(ps := s.ps[src := p1])
    ensures Schedule(cfg, s1)
  {
    CountUpdate(s.ps, src, p1);
  }

  lemma CheckView(cfg: Config, p: Proc)
    requires ProcInv(cfg, Checking, p)
    ensures !p.retired && (p.job.Some? ==> ProcInv(cfg, Free, p))
  {
    if p.job.Some? {
      var c := p.job.value;
      assert PcInv(cfg, Free, c, p);
    }
  }

  lemma CheckKeeps(cfg: Config, s: State, src: nat, s': State)
    requires cfg.Valid() && Inv(cfg, s) && s.m.pc == Check(src) && MasterStep(cfg, s) == Some(s')
    ensures Inv(cfg, s')
  {
    var p := s.ps[src];
    CheckView(cfg, p);
    hide ProcInv, Retire;
    if p.job.None? {
      CheckRetires(cfg, s, src, s');
    } else {
      assert s'.ps == s.ps;
    }
  }

  lemma SameJobs(s: State, s': State)
    requires Jobs(s) && s'.ps == s.ps && s'.given == s.given
    ensures Jobs(s')
  {
  }

  lemma CheckRetires(cfg: Config, s: State, src: nat, s': State)
    requires cfg.Valid() && Inv(cfg, s) && s.m.pc == Check(src) && MasterStep(cfg, s) == Some(s') && s.ps[src].job.None?
    ensures Inv(cfg, s')
  {
    hide ProcInv, Retire, CountRetired, Tiled, Jobs, MasterDirected, Assignment;
    CheckView(cfg, s.ps[src]);
    RetireSchedule(cfg, s, src, Checking);
    assert s'.ps == Retire(s, src).ps && s'.given == s.given;
    CountBound(s'.ps);
    assert Schedule(cfg, s') by {
      assert Jobs(s') by { SameJobs(Retire(s, src), s'); }
    }
    hide Schedule;
  }
}
