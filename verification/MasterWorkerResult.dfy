/**
  The result of the nest: when the master leaves it, Uout is what the two loops, run one
  point after another, make of it.
 */
module MasterWorkerResult {
  import opened Options
  import opened Sequences
  import opened MasterWorker
  import opened MasterWorkerProc
  import opened MasterWorkerRun
  import opened Multiples

  // ---------- the sequential nest ----------

  ghost function RowFrom(cfg: Config, out: map<int, int>, i: int, j: nat): map<int, int> {
    if j == 0 then out else RowFrom(cfg, out, i, j - 1)[WriteAt(cfg.width, i, j - 1) := Value(cfg, i, j - 1)]
  }

  /** Uout after the first n rows. */
  ghost function RowsFrom(cfg: Config, n: nat): map<int, int> {
    if n == 0 then cfg.out0 else RowFrom(cfg, RowsFrom(cfg, n - 1), n - 1, cfg.Cols())
  }

  lemma FirstRow(cfg: Config)
    ensures RowsFrom(cfg, 0) == cfg.out0 && forall out, i :: RowFrom(cfg, out, i, 0) == out
  {
  }

  lemma NextPointOf(cfg: Config, out: map<int, int>, i: int, j: nat)
    ensures RowFrom(cfg, out, i, j + 1) == RowFrom(cfg, out, i, j)[WriteAt(cfg.width, i, j) := Value(cfg, i, j)]
  {
  }

  lemma NextRow(cfg: Config, i: nat)
    ensures RowsFrom(cfg, i + 1) == RowFrom(cfg, RowsFrom(cfg, i), i, cfg.Cols())
  {
  }

  /** The loop nest run on one processor, with unit stride. */
  method SequentialNest(cfg: Config) returns (out: map<int, int>)
    ensures out == RowsFrom(cfg, cfg.Rows())
  {
    hide ReadAt, WriteAt, Filter, RowFrom, RowsFrom;
    FirstRow(cfg);
    out := cfg.out0;
    var i := 0;
    while i < cfg.height / 2
      invariant 0 <= i <= cfg.Rows() && out == RowsFrom(cfg, i)
    {
      var j := 0;
      while j < cfg.width / 2
        invariant 0 <= j <= cfg.Cols() && out == RowFrom(cfg, RowsFrom(cfg, i), i, j)
      {
        var a := cfg.U(ReadAt(cfg.height, cfg.width, i, j, 0));
        var b := cfg.U(ReadAt(cfg.height, cfg.width, i, j, 1));
        var c := cfg.U(ReadAt(cfg.height, cfg.width, i, j, 2));
        var d := cfg.U(ReadAt(cfg.height, cfg.width, i, j, 3));
        out := out[WriteAt(cfg.width, i, j) := Filter(cfg.minval, cfg.maxval, [a, b, c, d])];
        NextPointOf(cfg, RowsFrom(cfg, i), i, j);
        j := j + 1;
      }
      NextRow(cfg, i);
      i := i + 1;
    }
  }

  /** (i, j) is a point of the nest. */
  ghost predicate Point(cfg: Config, i: int, j: int) { 0 <= i < cfg.Rows() && 0 <= j < cfg.Cols() }

  ghost predicate Applied(cfg: Config, out: map<int, int>, i: int, j: int) {
    var a := WriteAt(cfg.width, i, j);
    a in out && out[a] == Value(cfg, i, j)
  }

  /** Address a was written by some point of the nest, with the value of that point. */
  ghost predicate Written(cfg: Config, a: int, v: int) {
    exists i, j :: Point(cfg, i, j) && a == WriteAt(cfg.width, i, j) && v == Value(cfg, i, j)
  }

  /** Every address holds its first value or what a point of the nest computes for it. */
  ghost predicate Sound(cfg: Config, out: map<int, int>) {
    && (forall a :: a in cfg.out0 ==> a in out)
    && (forall a :: a in out ==> (a in cfg.out0 && out[a] == cfg.out0[a]) || Written(cfg, a, out[a]))
  }

  ghost predicate Complete(cfg: Config, out: map<int, int>) {
    forall i, j :: Point(cfg, i, j) ==> Applied(cfg, out, i, j)
  }

  /** Distinct points of the nest write distinct addresses. */
  lemma WritesDistinct(cfg: Config, i: int, j: int, i': int, j': int)
    requires Point(cfg, i, j) && Point(cfg, i', j') && WriteAt(cfg.width, i, j) == WriteAt(cfg.width, i', j')
    ensures i == i' && j == j'
  {
    var n := cfg.Cols();
    assert (2 * i - 2 * i') * n == 2 * i * n - 2 * i' * n;
    SmallMultiple(2 * i - 2 * i', n, j' - j);
  }

  ghost predicate KeepsApplied(cfg: Config, out: map<int, int>, out': map<int, int>) {
    forall x, y :: Point(cfg, x, y) && Applied(cfg, out, x, y) ==> Applied(cfg, out', x, y)
  }

  /** One more point's write keeps what was applied and what is sound. */
  lemma WriteOne(cfg: Config, out: map<int, int>, i: int, j: int)
    requires Point(cfg, i, j) && Sound(cfg, out)
    ensures var out' := out[WriteAt(cfg.width, i, j) := Value(cfg, i, j)];
      Sound(cfg, out') && Applied(cfg, out', i, j) && KeepsApplied(cfg, out, out')
  {
    hide Value, WriteAt;
    var a, v := WriteAt(cfg.width, i, j), Value(cfg, i, j);
    var out' := out[a := v];
    assert Sound(cfg, out') by {
      assert Written(cfg, a, v);
      assert forall b :: b in out' && b != a ==> b in out && out'[b] == out[b];
    }
    forall x, y | Point(cfg, x, y) && Applied(cfg, out, x, y)
      ensures Applied(cfg, out', x, y)
    {
      if WriteAt(cfg.width, x, y) == WriteAt(cfg.width, i, j) {
        WritesDistinct(cfg, x, y, i, j);
      }
    }
    assert Applied(cfg, out', i, j);
  }

  /** Soundness and completeness determine Uout. */
  lemma Determined(cfg: Config, out: map<int, int>, out': map<int, int>)
    requires Sound(cfg, out) && Complete(cfg, out) && Sound(cfg, out') && Complete(cfg, out')
    ensures out == out'
  {
    Below(cfg, out, out');
    Below(cfg, out', out);
    assert forall a :: a in out ==> a in out' && out'[a] == out[a];
    assert forall a :: a in out' ==> a in out;
    assert out.Keys == out'.Keys;
  }

  lemma Below(cfg: Config, out: map<int, int>, out': map<int, int>)
    requires Sound(cfg, out) && Complete(cfg, out) && Sound(cfg, out') && Complete(cfg, out')
    ensures forall a :: a in out ==> a in out' && out'[a] == out[a]
  {
    hide Value, WriteAt;
    forall a | a in out
      ensures a in out' && out'[a] == out[a]
    {
      if i, j :| Point(cfg, i, j) && a == WriteAt(cfg.width, i, j) {
        assert Applied(cfg, out, i, j) && Applied(cfg, out', i, j);
      }
    }
  }

  /** The first n points of row i are applied. */
  ghost predicate AppliedUpTo(cfg: Config, out: map<int, int>, i: int, n: nat) {
    forall y :: 0 <= y < n ==> Applied(cfg, out, i, y)
  }

  lemma {:induction false} RowApplied(cfg: Config, out: map<int, int>, i: int, n: nat)
    requires 0 <= i < cfg.Rows() && n <= cfg.Cols() && Sound(cfg, out)
    ensures var out' := RowFrom(cfg, out, i, n);
      Sound(cfg, out') && AppliedUpTo(cfg, out', i, n) && KeepsApplied(cfg, out, out')
  {
    hide Value, WriteAt, Applied, Sound;
    if n > 0 {
      hide KeepsApplied, AppliedUpTo;
      var before := RowFrom(cfg, out, i, n - 1);
      assert RowFrom(cfg, out, i, n) == before[WriteAt(cfg.width, i, n - 1) := Value(cfg, i, n - 1)];
      hide RowFrom;
      RowApplied(cfg, out, i, n - 1);
      OneMore(cfg, out, before, i, n - 1);
    }
  }

  lemma OneMore(cfg: Config, out: map<int, int>, before: map<int, int>, i: int, n: nat)
    requires Point(cfg, i, n) && Sound(cfg, before) && KeepsApplied(cfg, out, before)
    requires AppliedUpTo(cfg, before, i, n)
    ensures var after := before[WriteAt(cfg.width, i, n) := Value(cfg, i, n)];
      Sound(cfg, after) && KeepsApplied(cfg, out, after) && AppliedUpTo(cfg, after, i, n + 1)
  {
    hide Value, WriteAt, Applied, Sound;
    WriteOne(cfg, before, i, n);
    forall y | 0 <= y < n ensures Point(cfg, i, y) {}
  }

  lemma {:induction false} RowsApplied(cfg: Config, n: nat)
    requires n <= cfg.Rows()
    ensures Sound(cfg, RowsFrom(cfg, n))
    ensures forall x, y :: Point(cfg, x, y) && x < n ==> Applied(cfg, RowsFrom(cfg, n), x, y)
  {
    if n > 0 {
      hide Value, WriteAt, Applied, Sound, RowFrom;
      var before := RowsFrom(cfg, n - 1);
      var after := RowFrom(cfg, before, n - 1, cfg.Cols());
      assert RowsFrom(cfg, n) == after;
      RowsApplied(cfg, n - 1);
      RowApplied(cfg, before, n - 1, cfg.Cols());
      hide RowsFrom;
      forall x, y | Point(cfg, x, y) && x < n
        ensures Applied(cfg, after, x, y)
      {
        assert x < n - 1 ==> Applied(cfg, before, x, y);
      }
    } else {
      assert RowsFrom(cfg, n) == cfg.out0;
    }
  }

  // ---------- which points have been applied ----------

  /** The worker was given point (i, j) and the master has not yet taken the value it computes. */
  ghost predicate PendingIn(cfg: Config, p: Proc, i: int, j: int) {
    p.job.Some? && var c := p.job.value;
      c.off <= i < c.off + c.size && 11 * ((i - c.off) * cfg.Cols() + j) + 11 > Taken(p)
  }

  ghost predicate Pending(cfg: Config, ps: seq<Proc>, i: int, j: int) {
    exists w :: 0 <= w < |ps| && PendingIn(cfg, ps[w], i, j)
  }

  /** Of the rows handed out, every point is applied or still pending. */
  ghost predicate OutInv(cfg: Config, s: State) {
    && Sound(cfg, s.m.out)
    && forall i, j :: Point(cfg, i, j) && i < End(s.given) ==> Applied(cfg, s.m.out, i, j) || Pending(cfg, s.ps, i, j)
  }

  /** Point q of a chunk is pending exactly until its eleventh message is taken. */
  lemma PendingNumber(cfg: Config, c: Chunk, i: int, j: int)
    requires c.size >= 1 && c.off <= i < c.off + c.size && 0 <= j < cfg.Cols()
    ensures var q := (i - c.off) * cfg.Cols() + j; 0 <= q < Points(cfg, c) && Row(cfg, c, q) == i && Col(cfg, q) == j
  {
    NumberOf(cfg.Cols(), c.size, i - c.off, j);
  }

  lemma NumberOf(n: nat, size: nat, d: nat, j: nat)
    requires d < size && j < n
    ensures 0 <= d * n + j < size * n && (d * n + j) / n == d && (d * n + j) % n == j
  {
    Monotone(n, d + 1, size);
    DivUnique(d * n + j, n, d, j);
  }

  /** Taking one message that is not the last of a point changes nothing. */
  lemma StillPending(cfg: Config, s: State, w: nat, s': State)
    requires OutInv(cfg, s) && w < |s.ps| && |s'.ps| == |s.ps| && s'.ps == s.ps[w := s'.ps[w]]
    requires s'.given == s.given && s'.m.out == s.m.out
    requires s'.ps[w].job == s.ps[w].job && (s.ps[w].job.Some? ==> 0 <= Taken(s.ps[w]))
    requires s.ps[w].job.Some? ==>
      Taken(s'.ps[w]) == Taken(s.ps[w]) || (Taken(s'.ps[w]) == Taken(s.ps[w]) + 1 && Taken(s.ps[w]) % 11 != 10)
    ensures OutInv(cfg, s')
  {
    hide Applied, Sound;
    forall i, j | Point(cfg, i, j) && i < End(s'.given)
      ensures Applied(cfg, s'.m.out, i, j) || Pending(cfg, s'.ps, i, j)
    {
      if !Applied(cfg, s.m.out, i, j) {
        var x :| 0 <= x < |s.ps| && PendingIn(cfg, s.ps[x], i, j);
        if x == w {
          var q := (i - s.ps[w].job.value.off) * cfg.Cols() + j;
          assert 11 * q + 11 > Taken(s.ps[w]);
          assert 11 * q + 11 != Taken(s.ps[w]) + 1 || Taken(s.ps[w]) % 11 == 10;
        }
        assert PendingIn(cfg, s'.ps[x], i, j);
      }
    }
  }

  lemma OutKeeps(cfg: Config, s: State, mv: Move)
    requires cfg.Valid() && Inv(cfg, s) && OutInv(cfg, s) && Fire(cfg, s, mv).Some?
    ensures OutInv(cfg, Fire(cfg, s, mv).value)
  {
    hide OutInv, ProcInv, Schedule;
    var s' := Fire(cfg, s, mv).value;
    match mv
    case Work(w) =>
      var p' := WorkerStep(s.ps[w]).value;
      WorkerKeeps(cfg, ViewOf(s.m, w), s.ps[w], p');
      TakenNat(cfg, ViewOf(s.m, w), s.ps[w]);
      StillPending(cfg, s, w, s');
    case Receive(src) =>
      var p := s.ps[src];
      ReceiveKeeps(cfg, p, p.(up := p.up[1..]));
      TakenNat(cfg, ViewOf(s.m, src), p);
      StillPending(cfg, s, src, s');
    case Serve => OutServe(cfg, s, s');
  }

  lemma TakenNat(cfg: Config, v: View, p: Proc)
    requires ProcInv(cfg, v, p)
    ensures p.job.Some? ==> 0 <= Taken(p)
  {
  }

  lemma OutTake(cfg: Config, s: State, src: nat, tag: Tag, s': State)
    requires OutInv(cfg, s) && MasterDirected(cfg, s, src, tag) == Some(s') && (s.m.pc.ReadCoord? || s.m.pc.WriteCoord?)
    requires src < |s.ps| && s.ps[src].job.Some? && |s.ps[src].up| > 0 && s.ps[src].up[0].tag == tag
    requires 0 <= Taken(s.ps[src]) && Taken(s.ps[src]) % 11 != 10
    ensures OutInv(cfg, s')
  {
    hide OutInv;
    var p := s.ps[src];
    assert FirstTag(p.up, tag) == 0 && Without(p.up, 0) == p.up[1..];
    StillPending(cfg, s, src, s');
  }

  /** Steps of the master that take no message. */
  lemma OutSame(cfg: Config, s: State, w: nat, s': State)
    requires cfg.Valid() && Inv(cfg, s) && OutInv(cfg, s) && MasterStep(cfg, s) == Some(s') && w < |s.ps|
    requires match s.m.pc case Reply(x, _) => x == w case Check(x) => x == w
             case Sending(x, _, _) => x == w case _ => false
    ensures OutInv(cfg, s')
  {
    TakenNat(cfg, ViewOf(s.m, w), s.ps[w]);
    hide OutInv, ProcInv, Schedule, Assignment, Counters;
    assert s'.ps == s.ps[w := s'.ps[w]];
    StillPending(cfg, s, w, s');
  }

  /** A chunk handed out is pending from its first to its last point. */
  lemma OutGive(cfg: Config, s: State, to: nat, part: int, startup: bool, s': State)
    requires OutInv(cfg, s) && to < |s.ps| && s' == Give(s, to, part, startup) && s.ps[to].job.None?
    requires s.ps[to].up == []
    requires s.m.followIN == End(s.given) && part >= 1
    ensures OutInv(cfg, s')
  {
    hide Applied, Sound;
    var c := Chunk(s.m.followIN, part);
    forall i, j | Point(cfg, i, j) && i < End(s'.given)
      ensures Applied(cfg, s'.m.out, i, j) || Pending(cfg, s'.ps, i, j)
    {
      if i >= End(s.given) {
        PendingNumber(cfg, c, i, j);
        assert PendingIn(cfg, s'.ps[to], i, j);
      } else if !Applied(cfg, s.m.out, i, j) {
        var x :| 0 <= x < |s.ps| && PendingIn(cfg, s.ps[x], i, j);
        assert PendingIn(cfg, s'.ps[x], i, j);
      }
    }
  }

  lemma Unemployed(cfg: Config, v: View, p: Proc)
    requires ProcInv(cfg, v, p) && p.job.None?
    ensures p.up == []
  {
  }

  lemma OutStart(cfg: Config, s: State, to: nat, s': State)
    requires cfg.Valid() && Inv(cfg, s) && OutInv(cfg, s) && s.m.pc == Start(to) && MasterStep(cfg, s) == Some(s')
    ensures OutInv(cfg, s')
  {
    var m := s.m;
    EndNat(cfg, s.given);
    if to < |s.ps| {
      NotReached(cfg, s.ps[to]);
      Unemployed(cfg, NotYet, s.ps[to]);
      hide OutInv, ProcInv, Schedule;
      if m.followIN + m.partSize < cfg.Rows() {
        OutGive(cfg, s, to, m.partSize, true, s');
      } else if cfg.Rows() - m.followIN > 0 {
        OutGive(cfg, s, to, cfg.Rows() - m.followIN, true, s');
      } else {
        assert s'.ps == s.ps[to := s'.ps[to]];
        StillPending(cfg, s, to, s');
      }
    }
  }

  /** When the value of point (i, j) of src has been written, no other point has stopped being pending. */
  lemma WrittenOne(cfg: Config, s: State, src: nat, s': State, i: int, j: int)
    requires OutInv(cfg, s) && src < |s.ps| && |s'.ps| == |s.ps| && s'.ps == s.ps[src := s'.ps[src]]
    requires s'.given == s.given
    requires s.ps[src].job.Some? && s'.ps[src].job == s.ps[src].job && s.ps[src].job.value.size >= 1 && cfg.Cols() > 0
    requires var n := Taken(s.ps[src]);
      0 <= n < 11 * Points(cfg, s.ps[src].job.value) && n % 11 == 10 && Taken(s'.ps[src]) == n + 1
    requires i == Row(cfg, s.ps[src].job.value, Taken(s.ps[src]) / 11) && j == Col(cfg, Taken(s.ps[src]) / 11)
    requires Point(cfg, i, j)
    requires s'.m.out == s.m.out[WriteAt(cfg.width, i, j) := Value(cfg, i, j)]
    ensures OutInv(cfg, s')
  {
    WriteOne(cfg, s.m.out, i, j);
    hide Applied, Sound, WriteAt, Value;
    forall x, y | Point(cfg, x, y) && x < End(s'.given)
      ensures Applied(cfg, s'.m.out, x, y) || Pending(cfg, s'.ps, x, y)
    {
      if !Applied(cfg, s.m.out, x, y) {
        var w :| 0 <= w < |s.ps| && PendingIn(cfg, s.ps[w], x, y);
        if w != src {
          assert PendingIn(cfg, s'.ps[w], x, y);
        } else if x != i || y != j {
          LaterPoint(cfg, s.ps[src], s'.ps[src], x, y);
          assert PendingIn(cfg, s'.ps[src], x, y);
        }
      }
    }
  }

  lemma LaterPoint(cfg: Config, p: Proc, p': Proc, x: int, y: int)
    requires p.job.Some? && p'.job == p.job && p.job.value.size >= 1 && PendingIn(cfg, p, x, y) && 0 <= y < cfg.Cols()
    requires Taken(p) >= 0 && Taken(p) % 11 == 10 && Taken(p') == Taken(p) + 1
    requires x != Row(cfg, p.job.value, Taken(p) / 11) || y != Col(cfg, Taken(p) / 11)
    ensures PendingIn(cfg, p', x, y)
  {
    PendingNumber(cfg, p.job.value, x, y);
    var r := (x - p.job.value.off) * cfg.Cols() + y;
    assert r != Taken(p) / 11;
    assert 11 * r + 11 > Taken(p') by {
      assert 11 * (Taken(p) / 11) + 10 == Taken(p);
    }
  }

  /** The value of a write is the one its point computes, and it goes to the address of that point. */
  lemma OutWrite(cfg: Config, s: State, src: nat, coord: int, s': State)
    requires cfg.Valid() && Inv(cfg, s) && OutInv(cfg, s) && s.m.pc == WriteVal(src, coord)
    requires MasterStep(cfg, s) == Some(s')
    ensures OutInv(cfg, s')
  {
    hide ProcInv, OutInv, WriteAt, Value;
    var p := s.ps[src];
    ValueKeeps(cfg, coord, p, p.(up := p.up[1..]));
    assert FirstTag(p.up, WTAG) == 0 && Without(p.up, 0) == p.up[1..];
    Working0(cfg, s, src);
    var c, q := p.job.value, Taken(p) / 11;
    PointInRange(cfg, c, q);
    WrittenOne(cfg, s, src, s', Row(cfg, c, q), Col(cfg, q));
  }

  lemma PointInRange(cfg: Config, c: Chunk, q: nat)
    requires cfg.Cols() > 0 && c.size >= 1 && 0 <= c.off && c.off + c.size <= cfg.Rows() && q < Points(cfg, c)
    ensures Point(cfg, Row(cfg, c, q), Col(cfg, q))
  {
    MulDiv(q, cfg.Cols(), c.size);
  }

  /** A worker returns a chunk only when every point of it has been applied. */
  lemma OutReturned(cfg: Config, s: State, src: nat, s1: State)
    requires OutInv(cfg, s) && src < |s.ps| && |s1.ps| == |s.ps| && s1.ps == s.ps[src := s1.ps[src]]
    requires s1.given == s.given && s1.m.out == s.m.out
    requires s.ps[src].job.Some? && s.ps[src].job.value.size >= 1
    requires Taken(s.ps[src]) >= 11 * Points(cfg, s.ps[src].job.value)
    ensures OutInv(cfg, s1)
  {
    hide Applied, Sound;
    forall i, j | Point(cfg, i, j) && i < End(s1.given)
      ensures Applied(cfg, s1.m.out, i, j) || Pending(cfg, s1.ps, i, j)
    {
      if !Applied(cfg, s.m.out, i, j) {
        var x :| 0 <= x < |s.ps| && PendingIn(cfg, s.ps[x], i, j);
        if x == src {
          PendingNumber(cfg, s.ps[src].job.value, i, j);
        }
        assert PendingIn(cfg, s1.ps[x], i, j);
      }
    }
  }

  lemma OutReturn(cfg: Config, s: State, src: nat, s': State)
    requires cfg.Valid() && Inv(cfg, s) && OutInv(cfg, s) && s.m.pc == RetOffset(src) && MasterStep(cfg, s) == Some(s')
    ensures OutInv(cfg, s')
  {
    var m, p := s.m, s.ps[src];
    var p1 := p.(up := p.up[1..], job := None);
    OffsetKeeps(cfg, m.partSize, p, p1);
    Unemployed(cfg, Checking, p1);
    Working0(cfg, s, src);
    assert FirstTag(p.up, ATAG) == 0 && Without(p.up, 0) == p.up[1..];
    hide OutInv, ProcInv, Schedule;
    var s1 := s.(ps := s.ps[src := p1]);
    OutReturned(cfg, s, src, s1);
    if m.followIN + m.partSize < cfg.Rows() {
      OutGive(cfg, s1, src, m.partSize, false, s');
    } else if cfg.Rows() - m.followIN > 0 {
      OutGive(cfg, s1, src, cfg.Rows() - m.followIN, false, s');
    } else {
      assert s'.ps == s1.ps;
      OutReturned(cfg, s, src, s');
    }
  }

  lemma OutServe(cfg: Config, s: State, s': State)
    requires cfg.Valid() && Inv(cfg, s) && OutInv(cfg, s) && MasterStep(cfg, s) == Some(s')
    ensures OutInv(cfg, s')
  {
    match s.m.pc
    case Start(to) => OutStart(cfg, s, to, s');
    case Sending(to, k, startup) => OutSame(cfg, s, to, s');
    case Reply(src, x) => OutSame(cfg, s, src, s');
    case Check(src) => OutSame(cfg, s, src, s');
    case ReadCoord(src) =>
      var p := s.ps[src];
      ReadKeeps(cfg, p, p.(up := p.up[1..]));
      OutTake(cfg, s, src, RTAG, s');
    case WriteCoord(src) =>
      var p := s.ps[src];
      WriteKeeps(cfg, p, p.(up := p.up[1..]));
      OutTake(cfg, s, src, WTAG, s');
    case WriteVal(src, coord) => OutWrite(cfg, s, src, coord, s');
    case RetOffset(src) => OutReturn(cfg, s, src, s');
  }

  lemma OutInit(cfg: Config)
    ensures OutInv(cfg, Init(cfg))
  {
  }

  // ---------- every run ----------

  lemma {:induction false} RunKeeps(cfg: Config, mvs: seq<Move>)
    requires cfg.Valid() && After(cfg, mvs).Some?
    ensures Inv(cfg, After(cfg, mvs).value) && OutInv(cfg, After(cfg, mvs).value)
  {
    if |mvs| == 0 {
      InitInv(cfg);
      OutInit(cfg);
    } else {
      var n := |mvs| - 1;
      RunKeeps(cfg, mvs[..n]);
      var s := After(cfg, mvs[..n]).value;
      FireKeeps(cfg, s, mvs[n]);
      OutKeeps(cfg, s, mvs[n]);
    }
  }

  /** However the ranks are scheduled, when the master leaves the nest Uout is the sequential result. */
  lemma ResultIsSequential(cfg: Config, mvs: seq<Move>)
    requires cfg.Valid() && After(cfg, mvs).Some? && After(cfg, mvs).value.m.pc.Done?
    ensures After(cfg, mvs).value.m.out == RowsFrom(cfg, cfg.Rows())
  {
    var s := After(cfg, mvs).value;
    RunKeeps(cfg, mvs);
    CountBound(s.ps);
    forall i, j | Point(cfg, i, j)
      ensures Applied(cfg, s.m.out, i, j)
    {
      if Pending(cfg, s.ps, i, j) {
        var w :| 0 <= w < |s.ps| && PendingIn(cfg, s.ps[w], i, j);
        Busy(cfg, ViewOf(s.m, w), s.ps[w]);
      }
    }
    RowsApplied(cfg, cfg.Rows());
    Determined(cfg, s.m.out, RowsFrom(cfg, cfg.Rows()));
  }
}
