/**
  Whole runs of the distributed heat program: messages under way are the right rows,
  neighbours stay in step, no buffer is touched while a request is using it, and the
  program never gets stuck.
 */
module HeatMpiRun {
  import opened Options
  import opened HeatStencil
  import opened HeatMpi
  import opened HeatMpiInv
  import opened Sequences

  // ---------- the messages under way ----------

  /** The n-th message that arrives for request k of rank r: the copied row after n steps. */
  ghost function Message(cfg: Config, r: nat, k: nat, n: nat): Msg
    requires cfg.Valid() && IsLink(cfg, r, k)
  {
    Facing(cfg, r, k);
    Msg(n, Inside(Want(cfg, n, r, RecvRow(cfg, r, k))))
  }

  /** The messages under way to request k are those picked up at the other end and not yet delivered, in order. */
  ghost predicate LinkInv(cfg: Config, s: State, r: nat, k: nat)
    requires cfg.Valid() && AllShaped(cfg, s) && IsLink(cfg, r, k)
  {
    Facing(cfg, r, k);
    var sent, got, q := s[Peer(cfg, r, k)].picked[PeerSlot(cfg, r, k)], s[r].got[k], s[r].queue[k];
    got + |q| == sent && forall x :: 0 <= x < |q| ==> q[x] == Message(cfg, r, k, got + 1 + x)
  }

  ghost predicate Ranks(cfg: Config, s: State)
    requires cfg.Valid()
  {
    |s| == cfg.np && forall r :: 0 <= r < cfg.np ==> RankInv(cfg, r, s[r])
  }

  ghost predicate Links(cfg: Config, s: State)
    requires cfg.Valid() && AllShaped(cfg, s)
  {
    forall r, k :: 0 <= r && 0 <= k && IsLink(cfg, r, k) ==> LinkInv(cfg, s, r, k)
  }

  ghost predicate Inv(cfg: Config, s: State)
    requires cfg.Valid()
  {
    Ranks(cfg, s) && AllShaped(cfg, s) && Links(cfg, s)
  }

  lemma InitInv(cfg: Config)
    requires cfg.Valid()
    ensures Inv(cfg, Init(cfg))
  {
    var s := Init(cfg);
    forall r | 0 <= r < cfg.np
      ensures RankInv(cfg, r, s[r])
    {
      StartRank(cfg, r, s[r]);
    }
  }

  lemma StartRank(cfg: Config, r: nat, p: Rank)
    requires cfg.Valid() && r < cfg.np && p == Init(cfg)[r]
    ensures RankInv(cfg, r, p)
  {
    Sizes(cfg, r);
    forall i | Local(cfg, r, i)
      ensures p.x[0][i] == Want(cfg, 0, r, i) && ZeroEnds(p.x[0][i])
      ensures cfg.pl.Border(Offset(cfg, r) + i) ==> p.x[0][i] == cfg.pl.Zero()
    {
      InPlate(cfg, r, i);
      AtEnds(cfg.pl, 0, Offset(cfg, r) + i);
    }
  }

  lemma FireKeeps(cfg: Config, s: State, mv: Move)
    requires cfg.Valid() && Inv(cfg, s) && Fire(cfg, s, mv).Some?
    ensures Inv(cfg, Fire(cfg, s, mv).value)
  {
    match mv
    case Step(r) => StepsKeep(cfg, s, r, Fire(cfg, s, mv).value);
    case PickUp(r, k) => PickupKeeps(cfg, s, r, k, Fire(cfg, s, mv).value);
    case PutDown(r, k) => DeliverKeeps(cfg, s, r, k, Fire(cfg, s, mv).value);
  }

  lemma StepsKeep(cfg: Config, s: State, r: nat, s': State)
    requires cfg.Valid() && Inv(cfg, s) && Fire(cfg, s, Step(r)) == Some(s')
    ensures Inv(cfg, s')
  {
    hide RankInv, RankStep, Message;
    StepKeeps(cfg, r, s[r], s'[r]);
    assert Ranks(cfg, s');
    RanksShaped(cfg, s');
    forall x: nat, k: nat | IsLink(cfg, x, k)
      ensures LinkInv(cfg, s', x, k)
    {
      assert LinkInv(cfg, s, x, k);
    }
  }

  lemma RanksShaped(cfg: Config, s: State)
    requires cfg.Valid() && Ranks(cfg, s)
    ensures AllShaped(cfg, s)
  {
  }

  /** What picking up the data of a send does to the sender. */
  lemma SenderKeeps(cfg: Config, r: nat, k: nat, p: Rank)
    requires cfg.Valid() && RankInv(cfg, r, p) && IsLink(cfg, r, k) && p.send[k].Pending?
    ensures p.send[k] == Pending(p.iz, SendRow(cfg, r, k), p.it) && p.picked[k] + 1 == p.it
    ensures Owned(cfg, r, SendRow(cfg, r, k)) && p.x[p.iz][SendRow(cfg, r, k)] == Want(cfg, p.it, r, SendRow(cfg, r, k))
    ensures RankInv(cfg, r, p.(send := p.send[k := Complete], picked := p.picked[k := p.picked[k] + 1]))
  {
    var p' := p.(send := p.send[k := Complete], picked := p.picked[k := p.picked[k] + 1]);
    Sizes(cfg, r);
    assert Owned(cfg, r, SendRow(cfg, r, k));
    assert Known(cfg, r, p, SendRow(cfg, r, k));
    SameData(cfg, r, p, p');
  }

  lemma QueueKeeps(cfg: Config, r: nat, p: Rank, q: seq<seq<Msg>>)
    requires cfg.Valid() && RankInv(cfg, r, p) && |q| == 2
    ensures RankInv(cfg, r, p.(queue := q))
  {
    SameData(cfg, r, p, p.(queue := q));
  }

  /** A message picked up joins the end of the facing queue, with the right row and number. */
  lemma PickupKeeps(cfg: Config, s: State, r: nat, k: nat, s': State)
    requires cfg.Valid() && Inv(cfg, s) && Pickup(cfg, s, r, k) == Some(s')
    ensures Inv(cfg, s')
  {
    hide RankInv, Message, Want;
    Facing(cfg, r, k);
    PickupRanks(cfg, s, r, k, s');
    RanksShaped(cfg, s');
    hide Ranks, Shaped;
    forall x: nat, y: nat | IsLink(cfg, x, y)
      ensures LinkInv(cfg, s', x, y)
    {
      PickupLink(cfg, s, r, k, s', x, y);
    }
  }

  lemma PickupRanks(cfg: Config, s: State, r: nat, k: nat, s': State)
    requires cfg.Valid() && Inv(cfg, s) && Pickup(cfg, s, r, k) == Some(s')
    ensures Ranks(cfg, s')
  {
    hide RankInv, Links;
    SenderKeeps(cfg, r, k, s[r]);
    Facing(cfg, r, k);
    var q := Peer(cfg, r, k);
    QueueKeeps(cfg, q, s[q], s'[q].queue);
  }

  /** From s to s' the messages `ms` were picked up for request k of rank r and joined its queue. */
  ghost predicate Joined(cfg: Config, s: State, s': State, r: nat, k: nat, ms: seq<Msg>)
    requires cfg.Valid() && AllShaped(cfg, s) && AllShaped(cfg, s') && IsLink(cfg, r, k)
  {
    Facing(cfg, r, k);
    var q, l := Peer(cfg, r, k), PeerSlot(cfg, r, k);
    && s'[r].got[k] == s[r].got[k] && s'[r].queue[k] == s[r].queue[k] + ms
    && s'[q].picked[l] == s[q].picked[l] + |ms|
  }

  /** What picking up a message does to the facing request, and to any other. */
  lemma PickupJoins(cfg: Config, s: State, r: nat, k: nat, s': State, x: nat, y: nat)
    requires cfg.Valid() && AllShaped(cfg, s) && AllShaped(cfg, s')
    requires Pickup(cfg, s, r, k) == Some(s') && IsLink(cfg, x, y)
    ensures if x == Peer(cfg, r, k) && y == PeerSlot(cfg, r, k)
            then var p, q := s[r], s[r].send[k]; Joined(cfg, s, s', x, y, [Msg(q.tag, Inside(p.x[q.buf][q.row]))])
            else Joined(cfg, s, s', x, y, [])
  {
    Facing(cfg, r, k);
    Facing(cfg, x, y);
    if x != Peer(cfg, r, k) || y != PeerSlot(cfg, r, k) {
      OtherLink(cfg, r, k, x, y);
    }
  }

  lemma PickupLink(cfg: Config, s: State, r: nat, k: nat, s': State, x: nat, y: nat)
    requires cfg.Valid() && Inv(cfg, s) && Pickup(cfg, s, r, k) == Some(s') && IsLink(cfg, x, y) && AllShaped(cfg, s')
    ensures LinkInv(cfg, s', x, y)
  {
    hide RankInv, Message, Joined, LinkInv;
    assert LinkInv(cfg, s, x, y);
    PickupJoins(cfg, s, r, k, s', x, y);
    if x == Peer(cfg, r, k) && y == PeerSlot(cfg, r, k) {
      Facing(cfg, r, k);
      Facing(cfg, x, y);
      PickedMessage(cfg, s[r], r, k, x, y);
      var m := Message(cfg, x, y, s[r].picked[k] + 1);
      JoinedLink(cfg, s, s', x, y, [m]);
    } else {
      JoinedLink(cfg, s, s', x, y, []);
    }
  }

  lemma JoinedLink(cfg: Config, s: State, s': State, r: nat, k: nat, ms: seq<Msg>)
    requires cfg.Valid() && AllShaped(cfg, s) && AllShaped(cfg, s') && IsLink(cfg, r, k)
    requires LinkInv(cfg, s, r, k) && Joined(cfg, s, s', r, k, ms) && |ms| <= 1
    requires (Facing(cfg, r, k);
              ms != [] ==> ms[0] == Message(cfg, r, k, s[Peer(cfg, r, k)].picked[PeerSlot(cfg, r, k)] + 1))
    ensures LinkInv(cfg, s', r, k)
  {
    hide Message;
  }

  lemma PickedMessage(cfg: Config, p: Rank, r: nat, k: nat, q: nat, l: nat)
    requires cfg.Valid() && RankInv(cfg, r, p) && IsLink(cfg, r, k) && IsLink(cfg, q, l) && p.send[k].Pending?
    requires r == Peer(cfg, q, l) && k == PeerSlot(cfg, q, l)
    ensures Msg(p.send[k].tag, Inside(p.x[p.send[k].buf][p.send[k].row])) == Message(cfg, q, l, p.picked[k] + 1)
  {
    SenderKeeps(cfg, r, k, p);
    Facing(cfg, q, l);
  }

  /** Distinct requests have distinct other ends. */
  lemma OtherLink(cfg: Config, r: nat, k: nat, x: nat, y: nat)
    requires cfg.Valid() && IsLink(cfg, r, k) && IsLink(cfg, x, y) && (x != Peer(cfg, r, k) || y != PeerSlot(cfg, r, k))
    ensures Peer(cfg, x, y) != r || PeerSlot(cfg, x, y) != k
  {
    Facing(cfg, x, y);
  }

  /** The message found by its tag is the first of the queue, and its row is the one missing. */
  lemma ReceiverKeeps(cfg: Config, r: nat, k: nat, p: Rank)
    requires cfg.Valid() && RankInv(cfg, r, p) && IsLink(cfg, r, k) && p.recv[k].Pending?
    ensures p.recv[k] == Pending(p.iz, RecvRow(cfg, r, k), p.it) && p.got[k] + 1 == p.it
    ensures p.it >= 1 && Local(cfg, r, RecvRow(cfg, r, k)) && !Owned(cfg, r, RecvRow(cfg, r, k))
  {
    Sizes(cfg, r);
  }

  lemma OverlayInside(cfg: Config, row: Row, want: Row)
    requires |row| == |want| >= 2 && ZeroEnds(row) && ZeroEnds(want)
    ensures Overlay(row, Inside(want)) == want
  {
  }

  lemma DeliveredRow(cfg: Config, r: nat, k: nat, p: Rank)
    requires cfg.Valid() && RankInv(cfg, r, p) && IsLink(cfg, r, k) && p.recv[k].Pending?
    requires Local(cfg, r, RecvRow(cfg, r, k))
    ensures var g := RecvRow(cfg, r, k); var want := Want(cfg, p.it, r, g);
      && Overlay(p.x[p.iz][g], Message(cfg, r, k, p.it).data) == want
      && |want| == cfg.pl.ny && ZeroEnds(want) && !cfg.pl.Border(Offset(cfg, r) + g)
  {
    var g := RecvRow(cfg, r, k);
    ReceiverKeeps(cfg, r, k, p);
    InPlate(cfg, r, g);
    AtEnds(cfg.pl, p.it, Offset(cfg, r) + g);
    OverlayInside(cfg, p.x[p.iz][g], Want(cfg, p.it, r, g));
  }

  lemma DeliveredData(cfg: Config, r: nat, k: nat, p: Rank, p': Rank, row: Row)
    requires cfg.Valid() && RankInv(cfg, r, p) && IsLink(cfg, r, k) && p.recv[k].Pending? && |p'.queue| == 2
    requires Local(cfg, r, RecvRow(cfg, r, k))
    requires row == Overlay(p.x[p.iz][RecvRow(cfg, r, k)], Message(cfg, r, k, p.it).data)
    requires p' == p.(recv := p.recv[k := Complete], got := p.got[k := p.it], queue := p'.queue,
                      x := p.x[p.iz := p.x[p.iz][RecvRow(cfg, r, k) := row]])
    ensures RankInv(cfg, r, p')
  {
    hide Want, Plate.Border, Offset, DoneRow, Message, Overlay;
    var g := RecvRow(cfg, r, k);
    ReceiverKeeps(cfg, r, k, p);
    DeliveredRow(cfg, r, k, p);
    assert p'.x[p'.iz] == p.x[p.iz][g := row] && p'.x[1 - p.iz] == p.x[1 - p.iz];
    assert Grid(cfg, r, p'.x[p'.iz]) && Frame(cfg, r, p'.x[p'.iz]);
    assert Shaped(cfg, r, p');
    assert forall i :: Known(cfg, r, p', i) ==> i == g || Known(cfg, r, p, i);
    assert Data(cfg, r, p');
    hide Data, Shaped;
  }

  lemma DeliverKeeps(cfg: Config, s: State, r: nat, k: nat, s': State)
    requires cfg.Valid() && Inv(cfg, s) && Deliver(cfg, s, r, k) == Some(s')
    ensures Inv(cfg, s')
  {
    hide RankInv, Message, Links, LinkInv;
    DeliverRanks(cfg, s, r, k, s');
    RanksShaped(cfg, s');
    forall x: nat, y: nat | IsLink(cfg, x, y)
      ensures LinkInv(cfg, s', x, y)
    {
      DeliverLink(cfg, s, r, k, s', x, y);
    }
    assert Links(cfg, s') by { AllLinks(cfg, s'); }
  }

  lemma AllLinks(cfg: Config, s: State)
    requires cfg.Valid() && AllShaped(cfg, s)
    requires forall x: nat, y: nat :: IsLink(cfg, x, y) ==> LinkInv(cfg, s, x, y)
    ensures Links(cfg, s)
  {
  }

  lemma DeliverRanks(cfg: Config, s: State, r: nat, k: nat, s': State)
    requires cfg.Valid() && Inv(cfg, s) && Deliver(cfg, s, r, k) == Some(s')
    ensures Ranks(cfg, s')
  {
    hide RankInv, Message, Links, Overlay;
    var p := s[r];
    ReceiverKeeps(cfg, r, k, p);
    HeadMatches(cfg, s, r, k);
    DeliveredData(cfg, r, k, p, s'[r], Overlay(p.x[p.iz][RecvRow(cfg, r, k)], p.queue[k][0].data));
  }

  /** From s to s' the first `n` messages to request k of rank r were delivered. */
  ghost predicate Passed(cfg: Config, s: State, s': State, r: nat, k: nat, n: nat)
    requires cfg.Valid() && AllShaped(cfg, s) && AllShaped(cfg, s') && IsLink(cfg, r, k)
  {
    Facing(cfg, r, k);
    var q, l := Peer(cfg, r, k), PeerSlot(cfg, r, k);
    && n <= |s[r].queue[k]| && s'[r].got[k] == s[r].got[k] + n && s'[r].queue[k] == s[r].queue[k][n..]
    && s'[q].picked[l] == s[q].picked[l]
  }

  lemma DeliverTakes(cfg: Config, s: State, r: nat, k: nat, s': State, x: nat, y: nat)
    requires cfg.Valid() && Inv(cfg, s) && Deliver(cfg, s, r, k) == Some(s') && AllShaped(cfg, s') && IsLink(cfg, x, y)
    ensures Passed(cfg, s, s', x, y, if x == r && y == k then 1 else 0)
  {
    hide RankInv, LinkInv, Message, Overlay, Match;
    Facing(cfg, x, y);
    if x == r && y == k {
      HeadMatches(cfg, s, r, k);
      var q := s[r].queue[k];
      assert Without(q, 0) == q[1..];
    }
  }

  lemma PassedLink(cfg: Config, s: State, s': State, r: nat, k: nat, n: nat)
    requires cfg.Valid() && AllShaped(cfg, s) && AllShaped(cfg, s') && IsLink(cfg, r, k)
    requires LinkInv(cfg, s, r, k) && Passed(cfg, s, s', r, k, n)
    ensures LinkInv(cfg, s', r, k)
  {
    hide Message;
    var q, got := s[r].queue[k], s[r].got[k];
    forall x | 0 <= x < |q| - n
      ensures q[n..][x] == Message(cfg, r, k, got + n + 1 + x)
    {
      assert q[n + x] == Message(cfg, r, k, got + 1 + (n + x));
    }
  }

  lemma DeliverLink(cfg: Config, s: State, r: nat, k: nat, s': State, x: nat, y: nat)
    requires cfg.Valid() && Inv(cfg, s) && Deliver(cfg, s, r, k) == Some(s') && AllShaped(cfg, s') && IsLink(cfg, x, y)
    ensures LinkInv(cfg, s', x, y)
  {
    hide RankInv, LinkInv, Deliver;
    DeliverTakes(cfg, s, r, k, s', x, y);
    assert LinkInv(cfg, s, x, y);
    PassedLink(cfg, s, s', x, y, if x == r && y == k then 1 else 0);
  }

  lemma HeadMatches(cfg: Config, s: State, r: nat, k: nat)
    requires cfg.Valid() && Inv(cfg, s) && IsLink(cfg, r, k) && s[r].recv[k].Pending? && |s[r].queue[k]| > 0
    ensures Match(s[r].queue[k], s[r].recv[k].tag) == 0 && s[r].queue[k][0] == Message(cfg, r, k, s[r].it)
  {
    ReceiverKeeps(cfg, r, k, s[r]);
    assert LinkInv(cfg, s, r, k);
  }

  // ---------- every run ----------

  /** The state after a sequence of moves, when every one of them is possible. */
  ghost function After(cfg: Config, mvs: seq<Move>): (o: Option<State>)
    requires cfg.Valid()
    ensures o.Some? ==> Inv(cfg, o.value)
  {
    if |mvs| == 0 then
      InitInv(cfg);
      Some(Init(cfg))
    else
      match After(cfg, mvs[..|mvs| - 1])
      case None => None
      case Some(s) =>
        var o := Fire(cfg, s, mvs[|mvs| - 1]);
        if o.Some? then
          FireKeeps(cfg, s, mvs[|mvs| - 1]);
          o
        else None
  }

  lemma RanksOf(cfg: Config, s: State)
    requires cfg.Valid() && Inv(cfg, s)
    ensures |s| == cfg.np
  {
  }

  /** Neighbouring ranks are never more than one iteration apart. */
  lemma InStep(cfg: Config, mvs: seq<Move>, r: nat)
    requires cfg.Valid() && After(cfg, mvs).Some? && r + 1 < cfg.np
    ensures var s := After(cfg, mvs).value; |s| == cfg.np && s[r].it <= s[r + 1].it + 1 && s[r + 1].it <= s[r].it + 1
  {
    hide Inv;
    var s := After(cfg, mvs).value;
    assert |s| == cfg.np by { RanksOf(cfg, s); }
    Behind(cfg, s, r, if r == 0 then 0 else 1);
    Behind(cfg, s, r + 1, 0);
  }

  lemma Behind(cfg: Config, s: State, r: nat, k: nat)
    requires cfg.Valid() && Inv(cfg, s) && IsLink(cfg, r, k)
    ensures 0 <= Peer(cfg, r, k) < cfg.np && PeerSlot(cfg, r, k) < 2
    ensures var q := s[Peer(cfg, r, k)]; q.picked[PeerSlot(cfg, r, k)] <= q.it <= q.picked[PeerSlot(cfg, r, k)] + 1
    ensures s[r].got[k] <= s[r].it <= s[r].got[k] + 1 && s[r].got[k] <= s[Peer(cfg, r, k)].picked[PeerSlot(cfg, r, k)]
  {
    Facing(cfg, r, k);
    assert LinkInv(cfg, s, r, k);
    assert RankInv(cfg, r, s[r]) && RankInv(cfg, Peer(cfg, r, k), s[Peer(cfg, r, k)]);
  }

  /** The row that a rank's next step computes, if it computes one. */
  ghost function Computes(cfg: Config, r: nat, pc: Pc): Option<int>
    requires cfg.np > 0
  {
    match pc
    case First(i) => if i < Height(cfg, r) - 1 then Some(i) else None
    case Inner(i) => if i < EndNX(cfg, r) then Some(i) else None
    case Edge(k) => Some(EdgeRow(cfg, r, k))
    case _ => None
  }

  /** Row i and the rows around it are rows of the plate of this iteration. */
  ghost predicate Fresh(cfg: Config, r: nat, p: Rank, i: int)
    requires cfg.Valid() && r < cfg.np
  {
    Shaped(cfg, r, p) && 0 < i < Height(cfg, r) - 1
    && forall x :: i - 1 <= x <= i + 1 ==> p.x[p.iz][x] == Want(cfg, p.it, r, x)
  }

  /** Whenever a row is computed, the three rows it is computed from are the plate's rows of this iteration. */
  lemma ReadsFresh(cfg: Config, mvs: seq<Move>, r: nat, i: int)
    requires cfg.Valid() && After(cfg, mvs).Some? && r < cfg.np
    requires Computes(cfg, r, After(cfg, mvs).value[r].pc) == Some(i)
    ensures Fresh(cfg, r, After(cfg, mvs).value[r], i)
  {
    FreshRows(cfg, r, After(cfg, mvs).value[r], i);
  }

  lemma FreshRows(cfg: Config, r: nat, p: Rank, i: int)
    requires cfg.Valid() && RankInv(cfg, r, p) && Computes(cfg, r, p.pc) == Some(i)
    ensures Fresh(cfg, r, p, i)
  {
    Sizes(cfg, r);
    if p.pc.Edge? {
      EdgeKnown(cfg, r, p, p.pc.k);
    }
    assert Known(cfg, r, p, i - 1) && Known(cfg, r, p, i) && Known(cfg, r, p, i + 1);
  }

  /**
    No request in progress is disturbed by computing row i: a row is written into the
    other buffer than any request uses, and no row that is read can still change.
   */
  ghost predicate Undisturbed(p: Rank, i: int, k: nat)
    requires |p.send| == |p.recv| == 2 && k < 2
  {
    && (p.send[k].Pending? ==> p.send[k].buf == p.iz)
    && (p.recv[k].Pending? ==> p.recv[k].buf == p.iz && !(i - 1 <= p.recv[k].row <= i + 1))
  }

  lemma NoConflict(cfg: Config, mvs: seq<Move>, r: nat, i: int, k: nat)
    requires cfg.Valid() && After(cfg, mvs).Some? && IsLink(cfg, r, k)
    requires Computes(cfg, r, After(cfg, mvs).value[r].pc) == Some(i)
    ensures Undisturbed(After(cfg, mvs).value[r], i, k)
  {
    RequestsApart(cfg, r, After(cfg, mvs).value[r], i, k);
  }

  lemma RequestsApart(cfg: Config, r: nat, p: Rank, i: int, k: nat)
    requires cfg.Valid() && RankInv(cfg, r, p) && IsLink(cfg, r, k) && Computes(cfg, r, p.pc) == Some(i)
    ensures Undisturbed(p, i, k)
  {
    hide Data;
    Sizes(cfg, r);
  }

  // ---------- no deadlock ----------

  /**
    A move that is possible even when a send waits for the matching receive: a message is
    picked up only once the other end has posted its receive.
   */
  ghost predicate Prompt(cfg: Config, s: State, mv: Move)
    requires cfg.Valid() && AllShaped(cfg, s)
  {
    && Fire(cfg, s, mv).Some?
    && (mv.PickUp? ==> (Facing(cfg, mv.r, mv.k);
                        s[Peer(cfg, mv.r, mv.k)].recv[PeerSlot(cfg, mv.r, mv.k)].Pending?
                        && s[Peer(cfg, mv.r, mv.k)].recv[PeerSlot(cfg, mv.r, mv.k)].tag == s[mv.r].send[mv.k].tag))
  }

  lemma Slowest(s: State) returns (r: nat)
    requires |s| > 0
    ensures r < |s| && forall x :: 0 <= x < |s| ==> s[r].it <= s[x].it
  {
    r := 0;
    var n := 1;
    while n < |s|
      invariant 1 <= n <= |s| && r < n && forall x :: 0 <= x < n ==> s[r].it <= s[x].it
    {
      if s[n].it < s[r].it { r := n; }
      n := n + 1;
    }
  }

  /** Until every rank has ended some move is possible, with or without buffering of messages. */
  lemma NoDeadlock(cfg: Config, mvs: seq<Move>) returns (mv: Move)
    requires cfg.Valid() && After(cfg, mvs).Some? && !AllEnded(After(cfg, mvs).value)
    ensures Prompt(cfg, After(cfg, mvs).value, mv) && After(cfg, mvs + [mv]).Some?
  {
    var s := After(cfg, mvs).value;
    mv := CanMove(cfg, s);
    assert (mvs + [mv])[..|mvs|] == mvs;
  }

  lemma CanMove(cfg: Config, s: State) returns (mv: Move)
    requires cfg.Valid() && Inv(cfg, s) && !AllEnded(s)
    ensures Prompt(cfg, s, mv)
  {
    var r := Slowest(s);
    NotEnded(cfg, s, r);
    if RankStep(cfg, r, s[r]).Some? {
      mv := Step(r);
    } else if s[r].pc.WaitRecv? {
      mv := RecvCanMove(cfg, s, r, s[r].pc.k);
    } else {
      mv := SendCanMove(cfg, s, r, s[r].pc.k);
    }
  }

  lemma NotEnded(cfg: Config, s: State, r: nat)
    requires cfg.Valid() && Inv(cfg, s) && !AllEnded(s) && r < cfg.np && forall x :: 0 <= x < |s| ==> s[r].it <= s[x].it
    ensures !s[r].pc.Ended?
  {
    var x :| 0 <= x < |s| && !s[x].pc.Ended?;
    assert RankInv(cfg, r, s[r]) && RankInv(cfg, x, s[x]);
  }

  lemma RecvCanMove(cfg: Config, s: State, r: nat, k: nat) returns (mv: Move)
    requires cfg.Valid() && Inv(cfg, s) && r < cfg.np && s[r].pc == WaitRecv(k) && s[r].recv[k].Pending?
    requires forall x :: 0 <= x < |s| ==> s[r].it <= s[x].it
    ensures Prompt(cfg, s, mv)
  {
    hide Data, Message, Prompt, Requests;
    assert RankInv(cfg, r, s[r]);
    ReceiverKeeps(cfg, r, k, s[r]);
    Facing(cfg, r, k);
    Behind(cfg, s, r, k);
    assert LinkInv(cfg, s, r, k);
    if |s[r].queue[k]| > 0 {
      mv := PutDown(r, k);
      DeliverPrompt(cfg, s, r, k);
    } else {
      mv := PeerSends(cfg, s, Peer(cfg, r, k), PeerSlot(cfg, r, k), s[r].it);
    }
  }

  lemma DeliverPrompt(cfg: Config, s: State, r: nat, k: nat)
    requires cfg.Valid() && Inv(cfg, s) && IsLink(cfg, r, k) && s[r].recv[k].Pending? && |s[r].queue[k]| > 0
    ensures Prompt(cfg, s, PutDown(r, k))
  {
    hide Data, LinkInv;
    assert RankInv(cfg, r, s[r]);
    ReceiverKeeps(cfg, r, k, s[r]);
    HeadMatches(cfg, s, r, k);
    hide Want;
    assert |s[r].queue[k][0].data| == cfg.pl.ny - 2;
  }

  /** A rank that has not sent its message of iteration `it` can post, or has posted, the send. */
  lemma PeerSends(cfg: Config, s: State, q: nat, l: nat, it: nat) returns (mv: Move)
    requires cfg.Valid() && Inv(cfg, s) && IsLink(cfg, q, l) && s[q].it >= it && s[q].picked[l] + 1 == it < cfg.steps
    requires (Facing(cfg, q, l); var p := s[Peer(cfg, q, l)].recv[PeerSlot(cfg, q, l)]; p.Pending? && p.tag == it)
    ensures Prompt(cfg, s, mv)
  {
    var p := s[q];
    Facing(cfg, q, l);
    assert RankInv(cfg, q, p);
    if SendStage(cfg, q, p.pc, l).Unposted? {
      mv := Step(q);
    } else {
      mv := PickUp(q, l);
    }
  }

  lemma SendCanMove(cfg: Config, s: State, r: nat, k: nat) returns (mv: Move)
    requires cfg.Valid() && Inv(cfg, s) && r < cfg.np && s[r].pc == WaitSend(k) && s[r].send[k].Pending?
    requires forall x :: 0 <= x < |s| ==> s[r].it <= s[x].it
    ensures Prompt(cfg, s, mv)
  {
    hide Data, Links, Want;
    SenderKeeps(cfg, r, k, s[r]);
    Facing(cfg, r, k);
    var q, l := Peer(cfg, r, k), PeerSlot(cfg, r, k);
    Behind(cfg, s, q, l);
    assert RankInv(cfg, q, s[q]);
    if RecvStage(cfg, q, s[q].pc, l).Unposted? {
      mv := Step(q);
    } else {
      mv := PickUp(r, k);
    }
  }
}
