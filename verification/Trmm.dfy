/**
  B := alpha*A'*B for a triangular A: the sequential triple loop
  (omp2hmppExamples/trmm/trmm.c), and the version in which the loop over j is cut at the
  diagonal into three loops whose iterations run in parallel
  (allSystemExamples/trmm-ALL-.c).
 */
module Trmm {
  import opened Options

  /** The bit pattern of a double. */
  type Cell = int

  /** `acc(b, a, x)` is b + alpha * a * x, whatever its rounding; `b0` is B before the loops. */
  datatype Problem = Problem(n: nat, acc: (Cell, Cell, Cell) -> Cell, a: seq<seq<Cell>>, b0: seq<seq<Cell>>)
  {
    ghost predicate Valid() { Square(n, a) && Square(n, b0) }
  }

  ghost predicate Square(n: nat, m: seq<seq<Cell>>) {
    |m| == n && forall r :: 0 <= r < n ==> |m[r]| == n
  }

  // ---------- what the loops compute ----------

  /** Element (i, j) of the result. */
  ghost function Final(p: Problem, i: nat, j: nat): Cell
    requires p.Valid() && i < p.n && j < p.n
    decreases i, j, p.n + 1
  {
    Sum(p, i, j, i)
  }

  /** The element of B that step k of (i, j) multiplies: of the result up to row i, of the given matrix below it. */
  ghost function Operand(p: Problem, i: nat, j: nat, k: nat): Cell
    requires p.Valid() && k < i < p.n && j < p.n
    decreases i, j, k, 0
  {
    if j <= i then Final(p, j, k) else p.b0[j][k]
  }

  /** Element (i, j) after the first m steps of its inner loop. */
  ghost function Sum(p: Problem, i: nat, j: nat, m: nat): Cell
    requires p.Valid() && m <= i < p.n && j < p.n
    decreases i, j, m
  {
    if m == 0 then p.b0[i][j] else p.acc(Sum(p, i, j, m - 1), p.a[i][m - 1], Operand(p, i, j, m - 1))
  }

  // ---------- what that is, for exact arithmetic ----------

  /** The first n products of the entries of two rows, added up. */
  ghost function Dot(a: seq<Cell>, x: seq<Cell>, n: nat): int
    requires n <= |a| && n <= |x|
  {
    if n == 0 then 0 else Dot(a, x, n - 1) + a[n - 1] * x[n - 1]
  }

  /** The update is exact: v + alpha * a * x. */
  ghost predicate Exact(p: Problem, alpha: int) {
    forall v, a, x :: p.acc(v, a, x) == v + alpha * a * x
  }

  /**
    Row i of the result gets alpha times row i of A below the diagonal times the rows of B,
    those up to i in their final form.
   */
  ghost predicate Product(p: Problem, alpha: int, c: seq<seq<Cell>>)
    requires p.Valid() && Square(p.n, c)
  {
    forall i, j :: 0 <= i < p.n && 0 <= j < p.n ==>
      c[i][j] == p.b0[i][j] + alpha * Dot(p.a[i], if j <= i then c[j] else p.b0[j], i)
  }

  ghost predicate IsFinal(p: Problem, c: seq<seq<Cell>>)
    requires p.Valid() && Square(p.n, c)
  {
    forall x, y :: 0 <= x < p.n && 0 <= y < p.n ==> c[x][y] == Final(p, x, y)
  }

  lemma {:induction false} SumIsDot(p: Problem, alpha: int, c: seq<seq<Cell>>, i: nat, j: nat, m: nat)
    requires p.Valid() && Square(p.n, c) && Exact(p, alpha) && IsFinal(p, c) && m <= i < p.n && j < p.n
    ensures Sum(p, i, j, m) == p.b0[i][j] + alpha * Dot(p.a[i], if j <= i then c[j] else p.b0[j], m)
  {
    var x := if j <= i then c[j] else p.b0[j];
    if m > 0 {
      SumIsDot(p, alpha, c, i, j, m - 1);
      assert Operand(p, i, j, m - 1) == x[m - 1];
      Distribute(alpha, Dot(p.a[i], x, m - 1), p.a[i][m - 1], x[m - 1]);
    }
  }

  lemma Distribute(alpha: int, d: int, a: int, x: int)
    ensures alpha * (d + a * x) == alpha * d + alpha * a * x
  {
  }

  /** What the loops compute is the product in place. */
  lemma IsProduct(p: Problem, alpha: int, c: seq<seq<Cell>>)
    requires p.Valid() && Square(p.n, c) && Exact(p, alpha) && IsFinal(p, c)
    ensures Product(p, alpha, c)
  {
    hide Exact;
    forall i, j | 0 <= i < p.n && 0 <= j < p.n
      ensures c[i][j] == p.b0[i][j] + alpha * Dot(p.a[i], if j <= i then c[j] else p.b0[j], i)
    {
      SumIsDot(p, alpha, c, i, j, i);
    }
  }

  /** Row i takes i steps: an update that adds one each time adds i in all. */
  lemma {:induction false} StepsTaken(p: Problem, i: nat, j: nat, m: nat)
    requires p.Valid() && m <= i < p.n && j < p.n && forall v, a, x :: p.acc(v, a, x) == v + 1
    ensures Sum(p, i, j, m) == p.b0[i][j] + m
  {
    if m > 0 {
      StepsTaken(p, i, j, m - 1);
    }
  }

  // ---------- the sequential program ----------

  /** Rows below r are finished, row r is finished up to column c, and the rest is as given, except at (r, c). */
  ghost predicate Reached(p: Problem, b: array2<Cell>, r: nat, c: nat)
    requires p.Valid() && b.Length0 == b.Length1 == p.n
    reads b
  {
    forall x, y :: 0 <= x < p.n && 0 <= y < p.n && !(x == r && y == c) ==>
      b[x, y] == (if x < r || (x == r && y < c) then Final(p, x, y) else p.b0[x][y])
  }

  ghost function Rows(b: array2<Cell>): (c: seq<seq<Cell>>)
    reads b
    ensures |c| == b.Length0 && forall x :: 0 <= x < |c| ==> |c[x]| == b.Length1
    ensures forall x, y :: 0 <= x < |c| && 0 <= y < b.Length1 ==> c[x][y] == b[x, y]
  {
    seq(b.Length0, x requires 0 <= x < b.Length0 reads b =>
      seq(b.Length1, y requires 0 <= y < b.Length1 reads b => b[x, y]))
  }

  method Sequential(p: Problem, b: array2<Cell>)
    requires p.Valid() && b.Length0 == b.Length1 == p.n
    requires forall x, y :: 0 <= x < p.n && 0 <= y < p.n ==> b[x, y] == p.b0[x][y]
    modifies b
    ensures forall x, y :: 0 <= x < p.n && 0 <= y < p.n ==> b[x, y] == Final(p, x, y)
    ensures forall alpha :: Exact(p, alpha) ==> Product(p, alpha, Rows(b))
    ensures (forall v, a, x :: p.acc(v, a, x) == v + 1) ==>
      forall i, j :: 0 <= i < p.n && 0 <= j < p.n ==> b[i, j] == p.b0[i][j] + i
  {
    Loops(p, b);
    forall alpha | Exact(p, alpha)
      ensures Product(p, alpha, Rows(b))
    {
      IsProduct(p, alpha, Rows(b));
    }
    if forall v, a, x :: p.acc(v, a, x) == v + 1 {
      forall i, j | 0 <= i < p.n && 0 <= j < p.n
        ensures b[i, j] == p.b0[i][j] + i
      {
        StepsTaken(p, i, j, i);
      }
    }
  }

  /** The three nested loops. */
  method Loops(p: Problem, b: array2<Cell>)
    requires p.Valid() && b.Length0 == b.Length1 == p.n
    requires forall x, y :: 0 <= x < p.n && 0 <= y < p.n ==> b[x, y] == p.b0[x][y]
    modifies b
    ensures forall x, y :: 0 <= x < p.n && 0 <= y < p.n ==> b[x, y] == Final(p, x, y)
  {
    var i := 1;
    while i < p.n
      invariant 1 <= i && (i <= p.n || p.n == 0)
      invariant forall x, y :: 0 <= x < p.n && 0 <= y < p.n ==>
        b[x, y] == (if x < i then Final(p, x, y) else p.b0[x][y])
    {
      var j := 0;
      while j < p.n
        invariant 0 <= j <= p.n
        invariant Reached(p, b, i, j) && (j < p.n ==> b[i, j] == p.b0[i][j])
      {
        var k := 0;
        while k < i
          invariant 0 <= k <= i
          invariant Reached(p, b, i, j) && b[i, j] == Sum(p, i, j, k)
        {
          assert b[j, k] == Operand(p, i, j, k);
          b[i, j] := p.acc(b[i, j], p.a[i][k], b[j, k]);
          k := k + 1;
        }
        j := j + 1;
      }
      i := i + 1;
    }
  }

  // ---------- the split program ----------

  /**
    At row i, in the parallel loop number `part` (0: j < i, 1: j = i, 2: j > i). Iteration
    j has done `done[j]` of its steps; `loaded[j]` is the value the next step has computed
    and not yet stored.
   */
  datatype State = State(b: seq<seq<Cell>>, i: nat, part: nat, done: seq<nat>, loaded: seq<Option<Cell>>)

  /** One half of a step of iteration j, or the end of a parallel loop once all its iterations are done. */
  datatype Move = Run(j: nat) | Join

  function Lo(i: nat, part: nat): nat { if part == 0 then 0 else if part == 1 then i else i + 1 }
  function Hi(n: nat, i: nat, part: nat): nat { if part == 0 then i else if part == 1 then i + 1 else n }

  ghost predicate Shaped(p: Problem, s: State) {
    Square(p.n, s.b) && |s.done| == |s.loaded| == p.n && s.part < 3 && s.i >= 1
  }

  function Fresh(n: nat): (s: (seq<nat>, seq<Option<Cell>>)) {
    (seq(n, _ => 0), seq(n, _ => None))
  }

  function Init(p: Problem): State {
    State(p.b0, 1, 0, Fresh(p.n).0, Fresh(p.n).1)
  }

  ghost function Fire(p: Problem, s: State, mv: Move): Option<State>
    requires p.Valid() && Shaped(p, s)
  {
    if s.i >= p.n then None
    else
      match mv
      case Run(j) =>
        if !(Lo(s.i, s.part) <= j < Hi(p.n, s.i, s.part)) || s.done[j] >= s.i then None
        else if s.loaded[j].None? then
          var k := s.done[j];
          Some(s.(loaded := s.loaded[j := Some(p.acc(s.b[s.i][j], p.a[s.i][k], s.b[j][k]))]))
        else
          Some(s.(b := s.b[s.i := s.b[s.i][j := s.loaded[j].value]], done := s.done[j := s.done[j] + 1],
            loaded := s.loaded[j := None]))
      case Join =>
        if exists j :: Lo(s.i, s.part) <= j < Hi(p.n, s.i, s.part) && s.done[j] < s.i then None
        else if s.part < 2 then Some(s.(part := s.part + 1))
        else Some(State(s.b, s.i + 1, 0, Fresh(p.n).0, Fresh(p.n).1))
  }

  // ---------- what every interleaving keeps ----------

  /** Element (i, j) of the row being computed. */
  ghost predicate Active(p: Problem, s: State, j: nat)
    requires p.Valid() && Shaped(p, s) && s.i < p.n && j < p.n
  {
    && s.done[j] <= s.i && s.b[s.i][j] == Sum(p, s.i, j, s.done[j])
    && (s.loaded[j].Some? ==> s.done[j] < s.i && s.loaded[j].value == Sum(p, s.i, j, s.done[j] + 1))
    && (j < Lo(s.i, s.part) ==> s.done[j] == s.i)
    && (j >= Hi(p.n, s.i, s.part) ==> s.done[j] == 0 && s.loaded[j].None?)
  }

  ghost predicate Inv(p: Problem, s: State)
    requires p.Valid()
  {
    && Shaped(p, s) && (s.i <= p.n || p.n == 0)
    && (forall x, y :: 0 <= x < p.n && 0 <= y < p.n && x < s.i ==> s.b[x][y] == Final(p, x, y))
    && (forall x, y :: 0 <= x < p.n && 0 <= y < p.n && x > s.i ==> s.b[x][y] == p.b0[x][y])
    && (s.i < p.n ==> forall j :: 0 <= j < p.n ==> Active(p, s, j))
  }

  /** What an iteration reads is what the sequential loop reads, whatever the other iterations are doing. */
  lemma ReadsOperand(p: Problem, s: State, j: nat)
    requires p.Valid() && Inv(p, s) && s.i < p.n && Lo(s.i, s.part) <= j < Hi(p.n, s.i, s.part) && s.done[j] < s.i
    ensures s.b[j][s.done[j]] == Operand(p, s.i, j, s.done[j])
  {
    var k := s.done[j];
    if j == s.i {
      assert s.part == 1 && Active(p, s, k);
    }
  }

  lemma FireKeeps(p: Problem, s: State, mv: Move)
    requires p.Valid() && Inv(p, s) && Fire(p, s, mv).Some?
    ensures Inv(p, Fire(p, s, mv).value)
  {
    match mv
    case Run(j) => RunKeeps(p, s, j, Fire(p, s, mv).value);
    case Join => JoinKeeps(p, s, Fire(p, s, mv).value);
  }

  lemma RunKeeps(p: Problem, s: State, j: nat, s': State)
    requires p.Valid() && Inv(p, s) && Fire(p, s, Run(j)) == Some(s')
    ensures Inv(p, s')
  {
    ReadsOperand(p, s, j);
    assert Active(p, s, j);
    hide Sum, Operand, Final;
    forall x | 0 <= x < p.n
      ensures Active(p, s', x)
    {
      assert Active(p, s, x);
      if x == j {
        SumStep(p, s.i, j, s.done[j]);
      }
    }
  }

  lemma SumStep(p: Problem, i: nat, j: nat, k: nat)
    requires p.Valid() && k < i < p.n && j < p.n
    ensures Sum(p, i, j, k + 1) == p.acc(Sum(p, i, j, k), p.a[i][k], Operand(p, i, j, k))
  {
  }

  lemma JoinKeeps(p: Problem, s: State, s': State)
    requires p.Valid() && Inv(p, s) && Fire(p, s, Join) == Some(s')
    ensures Inv(p, s')
  {
    if s.part < 2 {
      forall x | 0 <= x < p.n
        ensures Active(p, s', x)
      {
        assert Active(p, s, x);
      }
    } else {
      forall y | 0 <= y < p.n
        ensures s.b[s.i][y] == Final(p, s.i, y)
      {
        assert Active(p, s, y);
      }
    }
  }

  // ---------- every schedule ----------

  lemma FireShaped(p: Problem, s: State, mv: Move)
    requires p.Valid() && Shaped(p, s) && Fire(p, s, mv).Some?
    ensures Shaped(p, Fire(p, s, mv).value)
  {
  }

  /** The state after a schedule, when every one of its moves is possible. */
  ghost function After(p: Problem, mvs: seq<Move>): (o: Option<State>)
    requires p.Valid()
    ensures o.Some? ==> Shaped(p, o.value)
  {
    if |mvs| == 0 then Some(Init(p))
    else
      var n := |mvs| - 1;
      var before := After(p, mvs[..n]);
      if before.None? || Fire(p, before.value, mvs[n]).None? then None
      else
        FireShaped(p, before.value, mvs[n]);
        Fire(p, before.value, mvs[n])
  }

  lemma InitInv(p: Problem)
    requires p.Valid()
    ensures Inv(p, Init(p))
  {
  }

  /** Every schedule keeps each element a partial sum of the sequential loop. */
  lemma {:induction false} ScheduleKeeps(p: Problem, mvs: seq<Move>)
    requires p.Valid() && After(p, mvs).Some?
    ensures Inv(p, After(p, mvs).value)
  {
    if |mvs| == 0 {
      InitInv(p);
    } else {
      var n := |mvs| - 1;
      ScheduleKeeps(p, mvs[..n]);
      FireKeeps(p, After(p, mvs[..n]).value, mvs[n]);
    }
  }

  /** However the iterations of the parallel loops interleave, the result is that of the sequential loops. */
  lemma SplitIsSequential(p: Problem, mvs: seq<Move>, x: nat, y: nat)
    requires p.Valid() && After(p, mvs).Some? && After(p, mvs).value.i >= p.n && x < p.n && y < p.n
    ensures After(p, mvs).value.b[x][y] == Final(p, x, y)
  {
    ScheduleKeeps(p, mvs);
  }

  /** And so it is the product in place, in which row i takes i steps. */
  lemma SplitIsProduct(p: Problem, mvs: seq<Move>)
    requires p.Valid() && After(p, mvs).Some? && After(p, mvs).value.i >= p.n
    ensures forall alpha :: Exact(p, alpha) ==> Product(p, alpha, After(p, mvs).value.b)
    ensures (forall v, a, x :: p.acc(v, a, x) == v + 1) ==>
      forall i, j :: 0 <= i < p.n && 0 <= j < p.n ==> After(p, mvs).value.b[i][j] == p.b0[i][j] + i
  {
    var c := After(p, mvs).value.b;
    forall x, y | 0 <= x < p.n && 0 <= y < p.n
      ensures c[x][y] == Final(p, x, y)
    {
      SplitIsSequential(p, mvs, x, y);
    }
    forall alpha | Exact(p, alpha)
      ensures Product(p, alpha, c)
    {
      IsProduct(p, alpha, c);
    }
    if forall v, a, x :: p.acc(v, a, x) == v + 1 {
      forall i, j | 0 <= i < p.n && 0 <= j < p.n
        ensures c[i][j] == p.b0[i][j] + i
      {
        StepsTaken(p, i, j, i);
      }
    }
  }

  /** Any finished schedule of the split program leaves the matrix that the sequential program leaves. */
  method SplitAgainstSequential(p: Problem, ghost mvs: seq<Move>, s: State, b: array2<Cell>)
    requires p.Valid() && After(p, mvs) == Some(s) && s.i >= p.n
    requires b.Length0 == b.Length1 == p.n && forall x, y :: 0 <= x < p.n && 0 <= y < p.n ==> b[x, y] == p.b0[x][y]
    modifies b
    ensures forall x, y :: 0 <= x < p.n && 0 <= y < p.n ==> b[x, y] == s.b[x][y]
  {
    hide Final;
    Sequential(p, b);
    forall x, y | 0 <= x < p.n && 0 <= y < p.n
      ensures s.b[x][y] == Final(p, x, y)
    {
      SplitIsSequential(p, mvs, x, y);
    }
  }

  /** Until the last row is done some iteration can go on or the parallel loop can end. */
  lemma CanMove(p: Problem, mvs: seq<Move>) returns (mv: Move)
    requires p.Valid() && After(p, mvs).Some? && After(p, mvs).value.i < p.n
    ensures After(p, mvs + [mv]).Some?
  {
    var s := After(p, mvs).value;
    if j :| Lo(s.i, s.part) <= j < Hi(p.n, s.i, s.part) && s.done[j] < s.i {
      mv := Run(j);
    } else {
      mv := Join;
    }
    assert (mvs + [mv])[..|mvs|] == mvs;
  }

  // ---------- every schedule ends ----------

  /** Half steps left in iteration j of the row being computed. */
  ghost function LeftIn(s: State, j: nat): int
    requires |s.done| == |s.loaded| && j < |s.done|
  {
    2 * (s.i - s.done[j]) - if s.loaded[j].Some? then 1 else 0
  }

  ghost function LeftUpTo(s: State, m: nat): int
    requires |s.done| == |s.loaded| && m <= |s.done|
  {
    if m == 0 then 0 else LeftUpTo(s, m - 1) + LeftIn(s, m - 1)
  }

  /** Half steps and joins of the rows from i on. */
  ghost function RowsLeft(n: nat, i: nat): nat
    decreases if i < n then n - i else 0
  {
    if i >= n then 0 else 2 * i * n + 3 + RowsLeft(n, i + 1)
  }

  ghost function Left(p: Problem, s: State): int
    requires p.Valid() && Shaped(p, s)
  {
    if s.i >= p.n then 0 else LeftUpTo(s, p.n) + 3 - s.part + RowsLeft(p.n, s.i + 1)
  }

  /** One half step lowers the sum by one. */
  lemma {:induction false} LeftStep(s: State, s': State, j: nat, m: nat)
    requires |s.done| == |s.loaded| == |s'.done| == |s'.loaded| && m <= |s.done| && j < |s.done| && s'.i == s.i
    requires LeftIn(s', j) == LeftIn(s, j) - 1
    requires forall x :: 0 <= x < |s.done| && x != j ==> s'.done[x] == s.done[x] && s'.loaded[x] == s.loaded[x]
    ensures LeftUpTo(s', m) == LeftUpTo(s, m) - if j < m then 1 else 0
  {
    if m > 0 {
      LeftStep(s, s', j, m - 1);
    }
  }

  lemma {:induction false} LeftAll(s: State, m: nat, each: int)
    requires |s.done| == |s.loaded| && m <= |s.done| && forall j :: 0 <= j < |s.done| ==> LeftIn(s, j) == each
    ensures LeftUpTo(s, m) == each * m
  {
    if m > 0 {
      LeftAll(s, m - 1, each);
    }
  }

  lemma {:induction false} LeftNat(s: State, m: nat)
    requires |s.done| == |s.loaded| && m <= |s.done| && forall j :: 0 <= j < |s.done| ==> LeftIn(s, j) >= 0
    ensures LeftUpTo(s, m) >= 0
  {
    if m > 0 {
      LeftNat(s, m - 1);
    }
  }

  lemma FireDecreases(p: Problem, s: State, mv: Move)
    requires p.Valid() && Inv(p, s) && Fire(p, s, mv).Some? && Inv(p, Fire(p, s, mv).value)
    ensures 0 <= Left(p, Fire(p, s, mv).value) < Left(p, s)
  {
    hide Sum, Final;
    var s' := Fire(p, s, mv).value;
    forall j | s'.i < p.n && 0 <= j < p.n ensures LeftIn(s', j) >= 0 { assert Active(p, s', j); }
    if s'.i < p.n { LeftNat(s', p.n); }
    match mv
    case Run(j) => LeftStep(s, s', j, p.n);
    case Join =>
      if s.part < 2 {
        SameLeft(s, s', p.n);
      } else {
        forall j | 0 <= j < p.n ensures LeftIn(s, j) == 0 { assert Active(p, s, j); }
        LeftAll(s, p.n, 0);
        LeftAll(s', p.n, 2 * s'.i);
      }
  }

  lemma {:induction false} SameLeft(s: State, s': State, m: nat)
    requires |s.done| == |s.loaded| && s'.done == s.done && s'.loaded == s.loaded && s'.i == s.i && m <= |s.done|
    ensures LeftUpTo(s', m) == LeftUpTo(s, m)
  {
    if m > 0 {
      SameLeft(s, s', m - 1);
    }
  }

  /** No schedule has more moves than the program has half steps and joins. */
  lemma {:induction false} RunLength(p: Problem, mvs: seq<Move>)
    requires p.Valid() && After(p, mvs).Some?
    ensures |mvs| + Left(p, After(p, mvs).value) <= RowsLeft(p.n, 1) && Left(p, After(p, mvs).value) >= 0
  {
    if |mvs| == 0 {
      var s := Init(p);
      if p.n > 1 {
        LeftAll(s, p.n, 2);
      }
    } else {
      var n := |mvs| - 1;
      RunLength(p, mvs[..n]);
      ScheduleKeeps(p, mvs[..n]);
      ScheduleKeeps(p, mvs);
      FireDecreases(p, After(p, mvs[..n]).value, mvs[n]);
    }
  }
}
