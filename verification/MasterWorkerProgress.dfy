/**
  The nest ends: no reachable state is stuck before every rank has left, and no run is
  longer than a bound computed from the sizes. With no rows at all it never ends: the
  master dismisses every worker at start-up and then waits for messages forever.
 */
module MasterWorkerProgress {
  import opened CArith
  import opened Options
  import opened Sequences
  import opened MasterWorker
  import opened MasterWorkerProc
  import opened MasterWorkerRun
  import opened MasterWorkerResult

  // ---------- no deadlock ----------

  /** The master is at a receive that takes a message of worker w with this tag. */
  predicate MasterAccepts(m: Master, w: nat, tag: Tag) {
    match m.pc
    case Loop => true
    case ReadCoord(src) => w == src && tag.RTAG?
    case WriteCoord(src) => w == src && tag.WTAG?
    case WriteVal(src, _) => w == src && tag.WTAG?
    case RetOffset(src) => w == src && tag.ATAG?
    case _ => false
  }

  /** A worker is at a receive that takes a message with this tag. */
  predicate WorkerAccepts(pc: Pc, tag: Tag) {
    match pc
    case Idle => true
    case Get(_) => tag.ATAG?
    case Run(_, waiting) => waiting && tag.RTAG?
    case _ => false
  }

  /**
    A message that a step puts into a queue goes straight to a receive: nothing is before it, and
    the receive is waiting.
   */
  ghost predicate Met(q: seq<Msg>, q': seq<Msg>, accepts: Tag -> bool) {
    |q'| > |q| ==> |q| == 0 && |q'| == 1 && accepts(q'[0].tag)
  }

  /** A move that is possible even when every send waits for its receive. */
  ghost predicate Prompt(cfg: Config, s: State, mv: Move) {
    && Fire(cfg, s, mv).Some?
    && var s' := Fire(cfg, s, mv).value;
      |s'.ps| == |s.ps| && forall w :: 0 <= w < |s.ps| ==>
        && Met(s.ps[w].up, s'.ps[w].up, t => MasterAccepts(s.m, w, t))
        && Met(s.ps[w].down, s'.ps[w].down, t => WorkerAccepts(s.ps[w].w.pc, t))
  }

  /**
    A worker with a chunk, from which no message is on its way, can move; if it sends, it sends
    what the master is waiting for.
   */
  lemma WorkerCanMove(cfg: Config, m: Master, w: nat, p: Proc)
    requires var v := ViewOf(m, w);
      ProcInv(cfg, v, p) && !v.Assigning? && !v.Checking? && !v.Answer? && (v.Free? ==> m.pc.Loop?)
    requires p.job.Some? && p.up == []
    ensures WorkerStep(p).Some?
    ensures var p' := WorkerStep(p).value; Met(p.up, p'.up, t => MasterAccepts(m, w, t)) && |p'.down| <= |p.down|
  {
    hide ProcInv, MasterAccepts;
    WorkerHasNext(cfg, ViewOf(m, w), p);
    var p' := WorkerStep(p).value;
    hide WorkerStep;
    WorkerKeeps(cfg, ViewOf(m, w), p, p');
    if p'.up != [] {
      HeadAccepted(cfg, m, w, p');
    }
  }

  lemma WorkerHasNext(cfg: Config, v: View, p: Proc)
    requires ProcInv(cfg, v, p) && p.job.Some? && p.up == []
    requires !v.Assigning? && !v.Checking? && !v.Answer?
    ensures WorkerStep(p).Some?
    ensures var p' := WorkerStep(p).value; |p'.up| <= 1 && |p'.down| <= |p.down|
  {
    hide ReadAt, WriteAt, Filter, AnswerTo, Stream, Row, Col;
    var a := Assignment(cfg, p.job.value);
    match p.w.pc
    case Idle => assert p.sent == 0 ==> p.down == a[..8] && |p.down| == 8;
    case Get(r) =>
      assert p.down == a[r..8] && p.down[0] == a[r] && a[r].tag == ATAG;
      assert FirstTag(p.down, ATAG) == 0;
    case Run(s, waiting) =>
      if waiting {
        assert FirstTag(p.down, RTAG) == 0;
      } else {
        assert s == 10 ==> |p.w.vals| == 4;
      }
    case Ret(k) =>
  }

  /** What comes first from a worker is what the master is waiting for. */
  lemma HeadAccepted(cfg: Config, m: Master, w: nat, p: Proc)
    requires var v := ViewOf(m, w);
      ProcInv(cfg, v, p) && !v.Assigning? && !v.Checking? && !v.Answer? && (v.Free? ==> m.pc.Loop?)
    requires p.job.Some? && |p.up| > 0
    ensures MasterAccepts(m, w, p.up[0].tag)
  {
    var p' := p.(up := p.up[1..]);
    match ViewOf(m, w)
    case NotYet =>
    case Free =>
    case AskRead => hide ProcInv; ReadKeeps(cfg, p, p');
    case AskWrite => hide ProcInv; WriteKeeps(cfg, p, p');
    case AskValue(coord) => hide ProcInv; ValueKeeps(cfg, coord, p, p');
    case AskOffset(part) => hide ProcInv; OffsetKeeps(cfg, part, p, p.(up := p.up[1..], job := None));
  }

  lemma WorkPrompt(cfg: Config, s: State, w: nat)
    requires w < |s.ps| && WorkerStep(s.ps[w]).Some?
    requires var p, p' := s.ps[w], WorkerStep(s.ps[w]).value;
      Met(p.up, p'.up, t => MasterAccepts(s.m, w, t)) && |p'.down| <= |p.down|
    ensures Prompt(cfg, s, Work(w))
  {
    var s' := Fire(cfg, s, Work(w)).value;
    forall x | 0 <= x < |s.ps|
      ensures Met(s.ps[x].up, s'.ps[x].up, t => MasterAccepts(s.m, x, t))
      ensures Met(s.ps[x].down, s'.ps[x].down, t => WorkerAccepts(s.ps[x].w.pc, t))
    {
      assert x != w ==> s'.ps[x] == s.ps[x];
    }
  }

  /** In the middle of a conversation the master can go on, or the worker it waits for can. */
  lemma TalkCanMove(cfg: Config, s: State, src: nat)
    requires Inv(cfg, s) && src < |s.ps|
    requires match s.m.pc case ReadCoord(x) => x == src case WriteCoord(x) => x == src case WriteVal(x, _) => x == src
             case RetOffset(x) => x == src case _ => false
    ensures Prompt(cfg, s, Serve) || Prompt(cfg, s, Work(src))
  {
    hide Prompt, Schedule, Counters, Even, Met;
    var p := s.ps[src];
    if |p.up| == 0 {
      AskedHasJob(cfg, ViewOf(s.m, src), p);
      WorkerCanMove(cfg, s.m, src, p);
      WorkPrompt(cfg, s, src);
    } else {
      match s.m.pc {
        case ReadCoord(_) => ReadKeeps(cfg, p, p.(up := p.up[1..]));
        case WriteCoord(_) => WriteKeeps(cfg, p, p.(up := p.up[1..]));
        case WriteVal(_, coord) => ValueKeeps(cfg, coord, p, p.(up := p.up[1..]));
        case RetOffset(_) => OffsetKeeps(cfg, s.m.partSize, p, p.(up := p.up[1..], job := None));
      }
      TakePrompt(cfg, s, src);
    }
  }

  lemma AskedHasJob(cfg: Config, v: View, p: Proc)
    requires ProcInv(cfg, v, p) && (v.AskRead? || v.AskWrite? || v.AskValue? || v.AskOffset?)
    ensures p.job.Some?
  {
  }

  /** A directed receive puts nothing into any queue. */
  lemma TakePrompt(cfg: Config, s: State, src: nat)
    requires src < |s.ps| && |s.ps[src].up| > 0
    requires match s.m.pc case ReadCoord(x) => x == src && s.ps[src].up[0].tag == RTAG
             case WriteCoord(x) => x == src && s.ps[src].up[0].tag == WTAG
             case WriteVal(x, _) => x == src && s.ps[src].up[0].tag == WTAG
             case RetOffset(x) => x == src && s.ps[src].up[0].tag == ATAG case _ => false
    ensures Prompt(cfg, s, Serve)
  {
    assert FirstTag(s.ps[src].up, s.ps[src].up[0].tag) == 0;
    var s' := MasterStep(cfg, s).value;
    forall x | 0 <= x < |s.ps|
      ensures |s'.ps[x].up| <= |s.ps[x].up| && |s'.ps[x].down| <= |s.ps[x].down|
    {
    }
  }

  lemma LoopCanMove(cfg: Config, s: State) returns (mv: Move)
    requires Inv(cfg, s) && s.m.pc.Loop? && cfg.Rows() > 0
    ensures Prompt(cfg, s, mv)
  {
    hide ProcInv, Met;
    CountBound(s.ps);
    var w :| 0 <= w < |s.ps| && !s.ps[w].retired;
    if |s.ps[w].up| > 0 {
      mv := Receive(w);
      ReceivePrompt(cfg, s, w);
    } else {
      mv := Work(w);
      HasJob(cfg, s.ps[w]);
      WorkerCanMove(cfg, s.m, w, s.ps[w]);
      WorkPrompt(cfg, s, w);
    }
  }

  lemma ReceivePrompt(cfg: Config, s: State, w: nat)
    requires w < |s.ps| && s.m.pc.Loop? && |s.ps[w].up| > 0
    ensures Prompt(cfg, s, Receive(w))
  {
    var s' := Fire(cfg, s, Receive(w)).value;
    assert s'.ps == s.ps[w := s.ps[w].(up := s.ps[w].up[1..])];
  }

  lemma HasJob(cfg: Config, p: Proc)
    requires ProcInv(cfg, Free, p) && !p.retired
    ensures p.job.Some?
  {
  }

  /** A retired worker has left, or FTAG is the one message in its queue. */
  lemma Dismissed(cfg: Config, v: View, p: Proc)
    requires ProcInv(cfg, v, p) && p.retired
    ensures p.job.None? && p.up == []
    ensures (if p.w.pc.Stopped? then p.down == [] else p.w.pc.Idle? && p.down == [Msg(FTAG, 0)])
  {
  }

  /**
    With rows to hand out, a reachable state in which some rank is still in the nest has a
    next step, whether or not sends wait for their receives.
   */
  lemma NoDeadlock(cfg: Config, mvs: seq<Move>) returns (mv: Move)
    requires cfg.Valid() && cfg.Rows() > 0 && After(cfg, mvs).Some? && !Finished(After(cfg, mvs).value)
    ensures Prompt(cfg, After(cfg, mvs).value, mv) && After(cfg, mvs + [mv]).Some?
  {
    var s := After(cfg, mvs).value;
    RunKeeps(cfg, mvs);
    mv := CanMove(cfg, s);
    assert (mvs + [mv])[..|mvs|] == mvs;
  }

  lemma CanMove(cfg: Config, s: State) returns (mv: Move)
    requires cfg.Valid() && cfg.Rows() > 0 && Inv(cfg, s) && !Finished(s)
    ensures Prompt(cfg, s, mv)
  {
    hide ProcInv, Schedule, Met, Prompt, Even;
    mv := Serve;
    match s.m.pc
    case Loop => mv := LoopCanMove(cfg, s);
    case Done => mv := DoneCanMove(cfg, s);
    case ReadCoord(src) => mv := Either(cfg, s, src);
    case WriteCoord(src) => mv := Either(cfg, s, src);
    case WriteVal(src, _) => mv := Either(cfg, s, src);
    case RetOffset(src) => mv := Either(cfg, s, src);
    case Start(to) => StartPrompt(cfg, s, to);
    case Sending(to, k, startup) => mv := SendingCanMove(cfg, s, to, k, startup);
    case Reply(src, x) => ReplyPrompt(cfg, s, src, x);
    case Check(src) => CheckPrompt(cfg, s, src);
  }

  lemma Either(cfg: Config, s: State, src: nat) returns (mv: Move)
    requires Inv(cfg, s) && src < |s.ps|
    requires match s.m.pc case ReadCoord(x) => x == src case WriteCoord(x) => x == src case WriteVal(x, _) => x == src
             case RetOffset(x) => x == src case _ => false
    ensures Prompt(cfg, s, mv)
  {
    hide Prompt;
    TalkCanMove(cfg, s, src);
    mv := if Prompt(cfg, s, Serve) then Serve else Work(src);
  }

  lemma DoneCanMove(cfg: Config, s: State) returns (mv: Move)
    requires Inv(cfg, s) && s.m.pc.Done? && !Finished(s)
    ensures Prompt(cfg, s, mv)
  {
    hide ProcInv, Schedule, Prompt;
    CountAll(cfg, s);
    var w :| 0 <= w < |s.ps| && !s.ps[w].w.pc.Stopped?;
    Dismissed(cfg, ViewOf(s.m, w), s.ps[w]);
    mv := Work(w);
    WorkPrompt(cfg, s, w);
  }

  /** From one state to the next, one message goes into the empty queue of worker `to`, and no other queue changes. */
  ghost predicate OnlySends(s: State, s': State, to: nat, msg: Msg) {
    && to < |s.ps| == |s'.ps| && s'.ps[to].down == [msg]
    && forall x :: 0 <= x < |s.ps| ==> s'.ps[x].up == s.ps[x].up && (x != to ==> s'.ps[x].down == s.ps[x].down)
  }

  /** A send of the master to one worker whose queue is empty and whose receive takes the tag. */
  lemma SendPrompt(cfg: Config, s: State, to: nat, msg: Msg)
    requires to < |s.ps| && s.ps[to].down == [] && WorkerAccepts(s.ps[to].w.pc, msg.tag) && MasterStep(cfg, s).Some?
    requires OnlySends(s, MasterStep(cfg, s).value, to, msg)
    ensures Prompt(cfg, s, Serve)
  {
  }

  lemma StartPrompt(cfg: Config, s: State, to: nat)
    requires cfg.Valid() && Inv(cfg, s) && s.m.pc == Start(to)
    ensures Prompt(cfg, s, Serve)
  {
    if to < |s.ps| {
      Resting(cfg, NotYet, s.ps[to]);
      hide ProcInv, Schedule;
      if s.m.followIN >= cfg.Rows() {
        SendPrompt(cfg, s, to, Msg(FTAG, 0));
      }
    }
  }

  lemma CheckPrompt(cfg: Config, s: State, src: nat)
    requires cfg.Valid() && Inv(cfg, s) && s.m.pc == Check(src)
    ensures Prompt(cfg, s, Serve)
  {
    if s.ps[src].job.None? {
      Resting(cfg, Checking, s.ps[src]);
      hide ProcInv, Schedule;
      SendPrompt(cfg, s, src, Msg(FTAG, 0));
    }
  }

  lemma ReplyPrompt(cfg: Config, s: State, src: nat, x: int)
    requires cfg.Valid() && Inv(cfg, s) && s.m.pc == Reply(src, x)
    ensures Prompt(cfg, s, Serve)
  {
    AnswerWaits(cfg, x, s.ps[src]);
    hide ProcInv, Schedule;
    SendPrompt(cfg, s, src, Msg(RTAG, x));
  }

  lemma AnswerWaits(cfg: Config, x: int, p: Proc)
    requires ProcInv(cfg, Answer(x), p)
    ensures p.down == [] && WorkerAccepts(p.w.pc, RTAG)
  {
  }

  /** The next message of an assignment is awaited, or the worker can take an earlier one. */
  lemma SendingCanMove(cfg: Config, s: State, to: nat, k: nat, startup: bool) returns (mv: Move)
    requires cfg.Valid() && Inv(cfg, s) && s.m.pc == Sending(to, k, startup)
    ensures Prompt(cfg, s, mv)
  {
    hide Prompt, Schedule;
    var p := s.ps[to];
    AssigneeTakes(cfg, k, p);
    if p.down == [] {
      mv := Serve;
      hide ProcInv;
      SendPrompt(cfg, s, to, Assignment(cfg, Chunk(s.m.followIN, s.m.partSize))[k]);
    } else {
      mv := Work(to);
      WorkPrompt(cfg, s, to);
    }
  }

  lemma AssigneeTakes(cfg: Config, k: nat, p: Proc)
    requires ProcInv(cfg, Assigning(k), p) && k < 8
    ensures p.down == [] ==> WorkerAccepts(p.w.pc, ATAG)
    ensures p.down != [] ==>
      WorkerStep(p).Some? && var p' := WorkerStep(p).value; p'.up == p.up && |p'.down| <= |p.down|
  {
    var a := Assignment(cfg, p.job.value);
    if p.down != [] && p.w.pc.Get? {
      assert p.down[0] == a[p.w.pc.k] && a[p.w.pc.k].tag == ATAG;
      assert FirstTag(p.down, ATAG) == 0;
    }
  }

  lemma CountAll(cfg: Config, s: State)
    requires Inv(cfg, s) && s.m.pc.Done?
    ensures forall w :: 0 <= w < |s.ps| ==> s.ps[w].retired
  {
    CountBound(s.ps);
  }

  // ---------- a bound on every run ----------

  ghost function Received(p: Proc): nat {
    match p.w.pc
    case Idle => if p.sent == 0 then 0 else 8
    case Get(r) => r
    case _ => 8
  }

  /** What is left of a worker's chunk: messages to receive, to send and to be taken, answers to read. */
  ghost function Left(cfg: Config, p: Proc): int {
    (if p.w.pc.Stopped? then 0 else 1)
    + match p.job
      case None => 0
      case Some(c) =>
        var total := 11 * (c.size * cfg.Cols()) + 2;
        8 - Received(p) + 2 * (total - p.sent) + 2 * (total - Taken(p))
        + (if p.w.pc.Run? && p.w.pc.waiting then 1 else 0)
  }

  ghost function LeftAll(cfg: Config, ps: seq<Proc>): int {
    if |ps| == 0 then 0 else LeftAll(cfg, ps[..|ps| - 1]) + Left(cfg, ps[|ps| - 1])
  }

  ghost function LeftMaster(cfg: Config, m: Master): int {
    match m.pc
    case Start(to) => 2 * (cfg.workers - to) + 1
    case Sending(to, k, startup) => 8 - k + 1 + (if startup then 2 * (cfg.workers - to - 1) + 1 else 0)
    case Reply(_, _) => 1
    case Check(_) => 1
    case _ => 0
  }

  ghost function PerRow(cfg: Config): nat { 44 * cfg.Cols() + 32 }

  /** What the rows not yet handed out will cost, and what is left of the work handed out. */
  ghost function Owing(cfg: Config, s: State): int {
    PerRow(cfg) * (cfg.Rows() - End(s.given)) + LeftAll(cfg, s.ps)
  }

  ghost function Measure(cfg: Config, s: State): int {
    Owing(cfg, s) + LeftMaster(cfg, s.m)
  }

  lemma LeftUpdate(cfg: Config, ps: seq<Proc>, w: nat, p: Proc)
    requires w < |ps|
    ensures LeftAll(cfg, ps[w := p]) == LeftAll(cfg, ps) - Left(cfg, ps[w]) + Left(cfg, p)
  {
    var qs := ps[w := p];
    if w < |ps| - 1 {
      assert qs[..|ps| - 1] == ps[..|ps| - 1][w := p];
      LeftUpdate(cfg, ps[..|ps| - 1], w, p);
    } else {
      assert qs[..w] == ps[..w];
    }
  }

  lemma LeftNat(cfg: Config, v: View, p: Proc)
    requires ProcInv(cfg, v, p)
    ensures Left(cfg, p) >= 0
  {
    if p.job.Some? {
      var c := p.job.value;
    }
  }

  lemma MeasureNat(cfg: Config, s: State)
    requires cfg.Valid() && Inv(cfg, s)
    ensures Measure(cfg, s) >= 0
  {
    hide ProcInv, Left, PerRow;
    forall w | 0 <= w < |s.ps| ensures Left(cfg, s.ps[w]) >= 0 {
      LeftNat(cfg, ViewOf(s.m, w), s.ps[w]);
    }
    LeftAllNat(cfg, s.ps);
    ProductNat(PerRow(cfg), cfg.Rows() - End(s.given));
    LeftMasterNat(cfg, s);
    hide LeftMaster;
  }

  lemma ProductNat(a: nat, b: nat)
    ensures a * b >= 0
  {
  }

  lemma LeftMasterNat(cfg: Config, s: State)
    requires Inv(cfg, s)
    ensures LeftMaster(cfg, s.m) >= 0
  {
    hide ProcInv, Schedule;
  }

  lemma LeftAllNat(cfg: Config, ps: seq<Proc>)
    requires forall w :: 0 <= w < |ps| ==> Left(cfg, ps[w]) >= 0
    ensures LeftAll(cfg, ps) >= 0
  {
    if |ps| > 0 {
      LeftAllNat(cfg, ps[..|ps| - 1]);
    }
  }

  lemma WorkerDecreases(cfg: Config, v: View, p: Proc, p': Proc)
    requires ProcInv(cfg, v, p) && WorkerStep(p) == Some(p')
    ensures Left(cfg, p') < Left(cfg, p)
  {
    hide Left, WorkerStep, QueueInv, ViewInv, InBody, AnswerTo, Points;
    if p.job.None? {
      LeavingDecreases(cfg, p, p');
    } else {
      match p.w.pc
      case Idle =>
        if p.down != [] {
          AssignedFirst(cfg, p.job.value, Owed(v), p);
        }
        ReceivedDecreases(cfg, p, p');
      case Get(_) => ReceivedDecreases(cfg, p, p');
      case Run(s, waiting) => if waiting { AnswerDecreases(cfg, p, p'); } else { SendDecreases(cfg, p, p'); }
      case Ret(_) => SendDecreases(cfg, p, p');
    }
  }

  /** A retired worker receives FTAG and leaves. */
  lemma LeavingDecreases(cfg: Config, p: Proc, p': Proc)
    requires p.job.None? && WorkerStep(p) == Some(p')
    requires p.w.pc.Stopped? || (p.w.pc.Idle? && (p.down == [] || p.down == [Msg(FTAG, 0)]))
    ensures Left(cfg, p') < Left(cfg, p)
  {
  }

  lemma AssignedFirst(cfg: Config, c: Chunk, o: nat, p: Proc)
    requires o <= 8 && p.down == Assignment(cfg, c)[..o]
    ensures p.down == [] || p.down[0].tag.ATAG?
  {
  }

  lemma ReceivedDecreases(cfg: Config, p: Proc, p': Proc)
    requires p.job.Some? && WorkerStep(p) == Some(p')
    requires match p.w.pc case Idle => p.down == [] || (p.sent == 0 && p.down[0].tag.ATAG?)
             case Get(r) => 1 <= r <= 7 case _ => false
    ensures Left(cfg, p') < Left(cfg, p)
  {
    assert p'.job == p.job && p'.sent == p.sent && p'.up == p.up;
    assert Received(p') > Received(p) && !(p'.w.pc.Run? && p'.w.pc.waiting);
    hide WorkerStep, Received;
  }

  lemma AnswerDecreases(cfg: Config, p: Proc, p': Proc)
    requires p.job.Some? && WorkerStep(p) == Some(p') && p.w.pc.Run? && p.w.pc.waiting
    ensures Left(cfg, p') < Left(cfg, p)
  {
  }

  lemma SendDecreases(cfg: Config, p: Proc, p': Proc)
    requires p.job.Some? && WorkerStep(p) == Some(p')
    requires match p.w.pc case Run(_, waiting) => !waiting case Ret(_) => true case _ => false
    ensures Left(cfg, p') < Left(cfg, p)
  {
    assert p'.job == p.job && p'.sent == p.sent + 1 && |p'.up| == |p.up| + 1 && Received(p') == 8;
    hide WorkerStep;
  }

  lemma FireDecreases(cfg: Config, s: State, mv: Move)
    requires cfg.Valid() && Inv(cfg, s) && Fire(cfg, s, mv).Some?
    ensures Measure(cfg, Fire(cfg, s, mv).value) < Measure(cfg, s)
  {
    hide ProcInv, Schedule, Left;
    var s' := Fire(cfg, s, mv).value;
    match mv
    case Work(w) =>
      var p' := WorkerStep(s.ps[w]).value;
      WorkerDecreases(cfg, ViewOf(s.m, w), s.ps[w], p');
      LeftUpdate(cfg, s.ps, w, p');
    case Receive(src) =>
      var p := s.ps[src];
      ReceiveKeeps(cfg, p, p.(up := p.up[1..]));
      TakeDecreases(cfg, Free, p, p.(up := p.up[1..]));
      LeftUpdate(cfg, s.ps, src, p.(up := p.up[1..]));
    case Serve =>
      match s.m.pc
      case Start(to) => StartDecreases(cfg, s, to, s');
      case Sending(to, k, startup) => SentDecreases(cfg, s, to, s');
      case Reply(src, x) => SentDecreases(cfg, s, src, s');
      case Check(src) => CheckDecreases(cfg, s, src, s');
      case ReadCoord(src) =>
        var p := s.ps[src];
        ReadKeeps(cfg, p, p.(up := p.up[1..]));
        TakenDecreases(cfg, s, src, RTAG, s');
      case WriteCoord(src) =>
        var p := s.ps[src];
        WriteKeeps(cfg, p, p.(up := p.up[1..]));
        TakenDecreases(cfg, s, src, WTAG, s');
      case WriteVal(src, coord) =>
        var p := s.ps[src];
        ValueKeeps(cfg, coord, p, p.(up := p.up[1..]));
        TakenDecreases(cfg, s, src, WTAG, s');
      case RetOffset(src) => ReturnDecreases(cfg, s, src, s');
  }

  lemma TakeDecreases(cfg: Config, v: View, p: Proc, p': Proc)
    requires p.job.Some? && |p.up| > 0 && p' == p.(up := p.up[1..])
    ensures Left(cfg, p') == Left(cfg, p) - 2
  {
  }

  lemma TakenDecreases(cfg: Config, s: State, src: nat, tag: Tag, s': State)
    requires MasterDirected(cfg, s, src, tag) == Some(s')
    requires (s.m.pc.ReadCoord? || s.m.pc.WriteCoord? || s.m.pc.WriteVal?)
    requires src < |s.ps| && s.ps[src].job.Some? && |s.ps[src].up| > 0 && s.ps[src].up[0].tag == tag
    ensures Measure(cfg, s') < Measure(cfg, s)
  {
    var p := s.ps[src];
    assert FirstTag(p.up, tag) == 0 && Without(p.up, 0) == p.up[1..];
    TakeDecreases(cfg, Free, p, p.(up := p.up[1..]));
    hide Left;
    LeftUpdate(cfg, s.ps, src, p.(up := p.up[1..]));
  }

  lemma SentDecreases(cfg: Config, s: State, to: nat, s': State)
    requires cfg.Valid() && Inv(cfg, s) && MasterStep(cfg, s) == Some(s') && to < |s.ps|
    requires match s.m.pc case Sending(x, _, _) => x == to case Reply(x, _) => x == to case _ => false
    ensures Measure(cfg, s') < Measure(cfg, s)
  {
    hide ProcInv, Schedule, Assignment;
    assert Left(cfg, s'.ps[to]) == Left(cfg, s.ps[to]);
    assert s'.ps == s.ps[to := s'.ps[to]];
    LeftUpdate(cfg, s.ps, to, s'.ps[to]);
  }

  lemma CheckDecreases(cfg: Config, s: State, src: nat, s': State)
    requires cfg.Valid() && Inv(cfg, s) && s.m.pc == Check(src) && MasterStep(cfg, s) == Some(s')
    ensures Measure(cfg, s') < Measure(cfg, s)
  {
    hide ProcInv, Schedule;
    assert Left(cfg, s'.ps[src]) == Left(cfg, s.ps[src]);
    assert s'.ps == s.ps[src := s'.ps[src]];
    LeftUpdate(cfg, s.ps, src, s'.ps[src]);
  }

  /** The rows of a chunk pay for all the work it causes. */
  lemma GiveDecreases(cfg: Config, s: State, to: nat, part: int, startup: bool, s': State)
    requires to < |s.ps| && s' == Give(s, to, part, startup) && s.ps[to].job.None? && s.ps[to].up == []
    requires s.ps[to].w.pc.Idle?
    requires s.m.followIN == End(s.given) && part >= 1
    ensures Owing(cfg, s') <= Owing(cfg, s) - 16
  {
    LeftUpdate(cfg, s.ps, to, s'.ps[to]);
    Pays(cfg.Cols(), cfg.Rows() - End(s.given), part);
    hide LeftAll;
    assert End(s'.given) == End(s.given) + part;
  }

  lemma Pays(n: int, rows: int, part: int)
    ensures (44 * n + 32) * rows == (44 * n + 32) * (rows - part) + 44 * (part * n) + 32 * part
  {
  }

  lemma StartDecreases(cfg: Config, s: State, to: nat, s': State)
    requires cfg.Valid() && Inv(cfg, s) && s.m.pc == Start(to) && MasterStep(cfg, s) == Some(s')
    ensures Measure(cfg, s') < Measure(cfg, s)
  {
    hide ProcInv, LeftAll, Left, PerRow, Assignment, Retire;
    if to >= |s.ps| {
      return;
    }
    var m := s.m;
    EndNat(cfg, s.given);
    Resting(cfg, NotYet, s.ps[to]);
    hide Schedule, Owing;
    if m.followIN + m.partSize < cfg.Rows() {
      GiveDecreases(cfg, s, to, m.partSize, true, s');
    } else if cfg.Rows() - m.followIN > 0 {
      GiveDecreases(cfg, s, to, cfg.Rows() - m.followIN, true, s');
    } else {
      StartRetireCost(cfg, s, to, s');
    }
  }

  lemma StartRetireCost(cfg: Config, s: State, to: nat, s': State)
    requires to < |s.ps| && s.m.pc == Start(to)
    requires s' == (var s1 := Retire(s, to);
      s1.(m := s1.m.(pc := Start(to + 1), followIN := s.m.followIN + s.m.partSize)))
    ensures Measure(cfg, s') < Measure(cfg, s)
  {
    assert Left(cfg, s'.ps[to]) == Left(cfg, s.ps[to]);
    assert s'.ps == s.ps[to := s'.ps[to]];
    LeftUpdate(cfg, s.ps, to, s'.ps[to]);
  }

  lemma Resting(cfg: Config, v: View, p: Proc)
    requires ProcInv(cfg, v, p) && (v.NotYet? || (v.Checking? && p.job.None?))
    ensures p.job.None? && !p.retired && p.up == [] && p.w.pc.Idle?
  {
  }

  lemma ReturnDecreases(cfg: Config, s: State, src: nat, s': State)
    requires cfg.Valid() && Inv(cfg, s) && s.m.pc == RetOffset(src) && MasterStep(cfg, s) == Some(s')
    ensures Measure(cfg, s') < Measure(cfg, s)
  {
    hide ProcInv, Schedule, Left, LeftAll, PerRow, Assignment;
    var m, p := s.m, s.ps[src];
    var p1 := p.(up := p.up[1..], job := None);
    ReturnCost(cfg, m.partSize, p, p1);
    Working0(cfg, s, src);
    assert FirstTag(p.up, ATAG) == 0 && Without(p.up, 0) == p.up[1..];
    var s1 := s.(ps := s.ps[src := p1]);
    LeftUpdate(cfg, s.ps, src, p1);
    if m.followIN + m.partSize < cfg.Rows() {
      GiveDecreases(cfg, s1, src, m.partSize, false, s');
    } else if cfg.Rows() - m.followIN > 0 {
      GiveDecreases(cfg, s1, src, cfg.Rows() - m.followIN, false, s');
    } else {
      assert s'.ps == s1.ps;
    }
  }

  lemma ReturnCost(cfg: Config, part: int, p: Proc, p1: Proc)
    requires ProcInv(cfg, AskOffset(part), p) && |p.up| > 0 && p1 == p.(up := p.up[1..], job := None)
    ensures p.up[0].tag.ATAG? && p1.up == [] && p1.w.pc.Idle? && p.job.Some? && part == p.job.value.size
    ensures Left(cfg, p1) <= Left(cfg, p) - 2
  {
    OffsetKeeps(cfg, part, p, p1);
  }

  // ---------- theorems about every run ----------

  lemma {:induction false} RunDecreases(cfg: Config, mvs: seq<Move>)
    requires cfg.Valid() && After(cfg, mvs).Some?
    ensures |mvs| + Measure(cfg, After(cfg, mvs).value) <= Measure(cfg, Init(cfg))
  {
    if |mvs| > 0 {
      hide Measure, Fire, Init;
      var n := |mvs| - 1;
      RunDecreases(cfg, mvs[..n]);
      RunKeeps(cfg, mvs[..n]);
      FireDecreases(cfg, After(cfg, mvs[..n]).value, mvs[n]);
    }
  }

  lemma IdleLeft(cfg: Config, n: nat)
    ensures LeftAll(cfg, seq(n, _ => IDLE)) == n
  {
    if n > 0 {
      var ps := seq(n, _ => IDLE);
      assert ps[..n - 1] == seq(n - 1, _ => IDLE);
      IdleLeft(cfg, n - 1);
    }
  }

  ghost function MostSteps(cfg: Config): int { (44 * cfg.Cols() + 32) * cfg.Rows() + 3 * cfg.workers + 1 }

  /** No run is longer than this, whatever the schedule. */
  lemma RunLength(cfg: Config, mvs: seq<Move>)
    requires cfg.Valid() && After(cfg, mvs).Some?
    ensures |mvs| <= MostSteps(cfg)
  {
    hide Measure, Fire, Init, Inv, OutInv;
    RunDecreases(cfg, mvs);
    RunKeeps(cfg, mvs);
    MeasureNat(cfg, After(cfg, mvs).value);
    InitMeasure(cfg);
  }

  lemma InitMeasure(cfg: Config)
    ensures Measure(cfg, Init(cfg)) == MostSteps(cfg)
  {
    IdleLeft(cfg, cfg.workers);
  }

  /** Every run can be continued until all ranks have left the nest. */
  lemma {:induction false} RunEnds(cfg: Config, mvs: seq<Move>) returns (more: seq<Move>)
    requires cfg.Valid() && cfg.Rows() > 0 && After(cfg, mvs).Some?
    ensures After(cfg, mvs + more).Some? && Finished(After(cfg, mvs + more).value)
    decreases MostSteps(cfg) - |mvs|
  {
    hide MostSteps, Finished, Fire;
    if Finished(After(cfg, mvs).value) {
      more := [];
      assert mvs + [] == mvs;
    } else {
      var mv := NoDeadlock(cfg, mvs);
      RunLength(cfg, mvs + [mv]);
      var rest := RunEnds(cfg, mvs + [mv]);
      more := [mv] + rest;
      assert mvs + more == mvs + [mv] + rest;
    }
  }

  /** The nest can be left exactly when there are rows: an empty range leaves the master waiting. */
  lemma EndsIffRows(cfg: Config)
    requires cfg.Valid()
    ensures (exists mvs :: After(cfg, mvs).Some? && Finished(After(cfg, mvs).value)) <==> cfg.Rows() > 0
  {
    if cfg.Rows() > 0 {
      var more := RunEnds(cfg, []);
      assert [] + more == more;
    }
    forall mvs | After(cfg, mvs).Some? && Finished(After(cfg, mvs).value)
      ensures cfg.Rows() > 0
    {
      RunKeeps(cfg, mvs);
    }
  }
}
