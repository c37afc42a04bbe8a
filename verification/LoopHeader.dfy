/**
  normalizeLoops/forNormalization/forNormalization.cpp: rewriting the header of a for loop
  so that it counts up with a strict bound. A header is taken as already parsed.
 */
module LoopHeader {
  import opened Multiples

  datatype Relation = Lt | Le | Gt | Ge

  /** for (v = init; v rel bound; v = v + step). */
  datatype Header = Header(init: int, rel: Relation, bound: int, step: int)
  {
    /** The step goes toward the bound. */
    ghost predicate Counts() { if rel.Lt? || rel.Le? then step > 0 else step < 0 }

    ghost predicate Holds(v: int) {
      match rel case Lt => v < bound case Le => v <= bound case Gt => v > bound case Ge => v >= bound
    }

    /** The length of the step, and how far the bound is ahead. */
    ghost function Stride(): int { if step < 0 then -step else step }
    ghost function Span(): int { if rel.Lt? || rel.Le? then bound - init else init - bound }
  }

  /** The values the loop variable takes, in order, when the body does not change it. */
  ghost function Values(h: Header): seq<int>
    requires h.Counts()
    decreases if h.Holds(h.init) then h.Span() + 1 else 0
  {
    if h.Holds(h.init) then [h.init] + Values(h.(init := h.init + h.step)) else []
  }

  /** getSimplifiedMathExpression on v++, v-- and v = v + c, v = v - c: the step, with its sign turned when inverted. */
  function Simplified(step: int, doInverse: bool): int { if doInverse then -step else step }

  /** The header a loop ends up with. */
  ghost function Normal(h: Header): (n: Header)
    ensures h.Counts() ==> n.Counts() && n.rel.Lt? && n.step == h.Stride()
  {
    match h.rel
    case Lt => h
    case Le => Header(h.init, Lt, h.bound + h.step, h.step)
    case Gt => Header(h.bound, Lt, h.init, -h.step)
    case Ge => Header(h.bound, Lt, h.init - h.step, -h.step)
  }

  // ---------- which values, and how many ----------

  /** x lies on the steps that start at init. */
  ghost predicate OnStep(h: Header, x: int)
    requires h.Stride() > 0
  {
    var ahead := if h.step > 0 then x - h.init else h.init - x;
    ahead >= 0 && ahead % h.Stride() == 0
  }

  lemma ModStep(a: int, c: int)
    requires c > 0
    ensures (a - c) % c == a % c
    ensures 0 <= a < c ==> a % c == a
  {
    var q, r := a / c, a % c;
    assert a - c == (q - 1) * c + r;
    DivUnique(a - c, c, q - 1, r);
    if 0 <= a < c { DivUnique(a, c, 0, a); }
  }

  /** The loop visits exactly the values on its steps for which the condition holds. */
  lemma {:induction false} Visits(h: Header, x: int)
    requires h.Counts()
    ensures x in Values(h) <==> OnStep(h, x) && h.Holds(x)
    decreases if h.Holds(h.init) then h.Span() + 1 else 0
  {
    var ahead := if h.step > 0 then x - h.init else h.init - x;
    ModStep(ahead, h.Stride());
    if h.Holds(h.init) {
      var next := h.(init := h.init + h.step);
      Visits(next, x);
      assert (if next.step > 0 then x - next.init else next.init - x) == ahead - h.Stride();
    }
  }

  /** The same without the names for it. */
  lemma VisitsExactly(h: Header, x: int)
    requires h.Counts()
    ensures x in Values(h) <==>
      match h.rel
      case Lt => h.init <= x < h.bound && (x - h.init) % h.step == 0
      case Le => h.init <= x <= h.bound && (x - h.init) % h.step == 0
      case Gt => h.bound < x <= h.init && (h.init - x) % -h.step == 0
      case Ge => h.bound <= x <= h.init && (h.init - x) % -h.step == 0
  {
    hide Values;
    Visits(h, x);
  }

  /** Trips up to a bound that is not included: the distance in steps, rounded up. */
  ghost function StrictTrips(span: int, c: int): int
    requires c > 0
  {
    if span <= 0 then 0 else (span + c - 1) / c
  }

  /** Trips up to a bound that is included. */
  ghost function LooseTrips(span: int, c: int): int
    requires c > 0
  {
    if span < 0 then 0 else span / c + 1
  }

  ghost function Trips(h: Header): int
    requires h.Stride() > 0
  {
    if h.rel.Lt? || h.rel.Gt? then StrictTrips(h.Span(), h.Stride()) else LooseTrips(h.Span(), h.Stride())
  }

  lemma DivStep(a: int, c: int)
    requires c > 0
    ensures (a - c) / c == a / c - 1
    ensures 0 <= a < c ==> a / c == 0
  {
    var q, r := a / c, a % c;
    assert a - c == (q - 1) * c + r;
    DivUnique(a - c, c, q - 1, r);
    if 0 <= a < c { DivUnique(a, c, 0, a); }
  }

  lemma {:induction false} CountsTrips(h: Header)
    requires h.Counts()
    ensures |Values(h)| == Trips(h)
    decreases if h.Holds(h.init) then h.Span() + 1 else 0
  {
    if h.Holds(h.init) {
      hide StrictTrips, LooseTrips;
      var next := h.(init := h.init + h.step);
      CountsTrips(next);
      OneTrip(h.Span(), h.Stride());
      assert next.Span() == h.Span() - h.Stride();
    }
  }

  /** One trip less to go when the span is one step shorter. */
  lemma OneTrip(span: int, c: int)
    requires c > 0
    ensures span > 0 ==> StrictTrips(span, c) == 1 + StrictTrips(span - c, c)
    ensures span >= 0 ==> LooseTrips(span, c) == 1 + LooseTrips(span - c, c)
  {
    DivStep(span, c);
    DivStep(span + c - 1, c);
    DivStep(span - 1, c);
  }

  // ---------- normalisation ----------

  ghost predicate Ascending(s: seq<int>) {
    forall i, j :: 0 <= i < j < |s| ==> s[i] < s[j]
  }

  /** What a loop that counts up to a strict bound visits. */
  lemma CountsUp(n: Header)
    requires n.Counts() && n.rel.Lt?
    ensures Ascending(Values(n))
    ensures forall x :: x in Values(n) <==> n.init <= x < n.bound && (x - n.init) % n.step == 0
  {
    UpInOrder(n);
    forall x
      ensures x in Values(n) <==> n.init <= x < n.bound && (x - n.init) % n.step == 0
    {
      Visits(n, x);
    }
  }

  lemma {:induction false} UpInOrder(n: Header)
    requires n.Counts() && n.rel.Lt?
    ensures Ascending(Values(n)) && forall x :: x in Values(n) ==> x >= n.init
    decreases if n.Holds(n.init) then n.Span() + 1 else 0
  {
    if n.Holds(n.init) {
      var next := n.(init := n.init + n.step);
      UpInOrder(next);
      LeastFirst(n.init, Values(next));
    }
  }

  lemma LeastFirst(x: int, s: seq<int>)
    requires Ascending(s) && forall y :: y in s ==> x < y
    ensures Ascending([x] + s) && forall y :: y in [x] + s ==> x <= y
  {
    forall i, j | 0 <= i < j < |s| + 1
      ensures ([x] + s)[i] < ([x] + s)[j]
    {
      assert ([x] + s)[j] == s[j - 1] && s[j - 1] in s;
      assert i > 0 ==> ([x] + s)[i] == s[i - 1];
    }
  }

  /**
    normalizeFor: the new header, and whether the loop is replaced at all. The loop it makes
    counts up, from the bound of a downward loop to where that started, and past an included
    end by less than a step.
   */
  method NormalizeFor(h: Header) returns (n: Header, hasChanges: bool)
    ensures n == Normal(h) && (hasChanges <==> !h.rel.Lt?)
    ensures h.Counts() ==> n.Counts() && Ascending(Values(n)) && forall x :: x in Values(n) <==>
      match h.rel
      case Lt => h.init <= x < h.bound && (x - h.init) % h.step == 0
      case Le => h.init <= x < h.bound + h.step && (x - h.init) % h.step == 0
      case Gt => h.bound <= x < h.init && (x - h.bound) % -h.step == 0
      case Ge => h.bound <= x < h.init - h.step && (x - h.bound) % -h.step == 0
  {
    var initValue, conditionToWork, mathExpression := h.init, h.bound, h.step;
    hasChanges := false;
    if h.rel.Gt? || h.rel.Ge? {
      hasChanges := true;
      mathExpression := Simplified(h.step, true);
      if h.rel.Ge? {
        initValue := initValue + mathExpression;
      }
      var tempCondition := conditionToWork;
      conditionToWork := initValue;
      initValue := tempCondition;
    } else if h.rel.Le? {
      hasChanges := true;
      mathExpression := Simplified(h.step, false);
      conditionToWork := conditionToWork + mathExpression;
    }
    n := if hasChanges then Header(initValue, Lt, conditionToWork, mathExpression) else h;
    if h.Counts() {
      CountsUp(n);
    }
  }

  // ---------- what normalisation keeps ----------

  /** The bound is reached exactly, or is more than one step out of reach. */
  ghost predicate Exact(h: Header)
    requires h.Stride() > 0
  {
    h.Span() % h.Stride() == 0 || h.Span() <= -h.Stride()
  }

  /**
    A strict loop keeps its number of trips whatever its step; one whose bound is included
    keeps it exactly when the step divides the span, or there is nothing to do by a whole step.
   */
  lemma SameTripsIff(h: Header)
    requires h.Counts()
    ensures |Values(Normal(h))| == |Values(h)| <==> h.rel.Lt? || h.rel.Gt? || Exact(h)
  {
    hide Values, StrictTrips, LooseTrips;
    CountsTrips(h);
    CountsTrips(Normal(h));
    if h.rel.Le? || h.rel.Ge? {
      assert Normal(h).Span() == h.Span() + h.Stride();
      TripsWithBound(h.Span(), h.Stride());
    }
  }

  /** One step more, rounded up, against the bound included. */
  lemma TripsWithBound(span: int, c: int)
    requires c > 0
    ensures StrictTrips(span + c, c) == LooseTrips(span, c) <==> span % c == 0 || span <= -c
  {
    var q, r := span / c, span % c;
    assert span == q * c + r;
    Signs(q, c);
    if r == 0 {
      DivUnique(span + c + c - 1, c, q + 1, c - 1);
    } else {
      DivUnique(span + c + c - 1, c, q + 2, r - 1);
    }
  }

  lemma Signs(q: int, c: int)
    requires c > 0
    ensures q <= -1 ==> q * c <= -c
    ensures q <= -2 ==> q * c <= -2 * c
    ensures q >= 0 ==> q * c >= 0
    ensures q >= -1 ==> q * c >= -c
    ensures (q + 1) * c == q * c + c && (q + 2) * c == q * c + 2 * c
  {
  }

  /** The loop and its normal form visit the same values. */
  ghost predicate SameValues(h: Header)
    requires h.Counts()
  {
    forall x :: x in Values(h) <==> x in Values(Normal(h))
  }

  /**
    Exactly when the values stay the same: a loop down to a strict bound is shifted, so
    that it visits the bound itself, unless it makes no trip at all.
   */
  lemma SameValuesIff(h: Header)
    requires h.Counts()
    ensures SameValues(h) <==>
      match h.rel case Lt => true case Gt => h.init <= h.bound case Le => Exact(h) case Ge => Exact(h)
  {
    match h.rel
    case Lt =>
    case Gt => StrictDownIff(h);
    case Le => UpIff(h);
    case Ge => DownIff(h);
  }

  lemma StrictDownIff(h: Header)
    requires h.Counts() && h.rel.Gt?
    ensures SameValues(h) <==> h.init <= h.bound
  {
    Visits(h, h.bound);
    Visits(Normal(h), h.bound);
    ModStep(0, h.Stride());
  }

  lemma UpIff(h: Header)
    requires h.Counts() && h.rel.Le?
    ensures SameValues(h) <==> Exact(h)
  {
    var c, n := h.step, Normal(h);
    if Exact(h) {
      forall x
        ensures x in Values(h) <==> x in Values(n)
      {
        Visits(h, x);
        Visits(n, x);
        if x - h.init >= 0 && (x - h.init) % c == 0 && h.bound < x < h.bound + c {
          NoneBetween(h.Span(), c, x - h.init);
        }
      }
    } else {
      var x := Beyond(h.Span(), c);
      Visits(h, h.init + x);
      Visits(n, h.init + x);
    }
  }

  /** Between a multiple of c and the next one there is no other. */
  lemma NoneBetween(span: int, c: int, x: int)
    requires c > 0 && (span % c == 0 || span <= -c) && span < x < span + c && x >= 0
    ensures x % c != 0
  {
    if span % c == 0 {
      var q := span / c;
      assert x == q * c + (x - span);
      DivUnique(x, c, q, x - span);
    }
  }

  /** The first multiple of c past an inexact span. */
  lemma Beyond(span: int, c: int) returns (x: int)
    requires c > 0 && span % c != 0 && span > -c
    ensures span < x < span + c && x >= 0 && x % c == 0
  {
    var q := span / c;
    assert span == q * c + span % c;
    x := (q + 1) * c;
    DivUnique(x, c, q + 1, 0);
    assert q <= -2 ==> q * c <= -2 * c;
    assert q >= -1 ==> (q + 1) * c >= 0;
  }

  lemma DownIff(h: Header)
    requires h.Counts() && h.rel.Ge?
    ensures SameValues(h) <==> Exact(h)
  {
    var c, n, span := h.Stride(), Normal(h), h.Span();
    if Exact(h) {
      forall x
        ensures x in Values(h) <==> x in Values(n)
      {
        Visits(h, x);
        Visits(n, x);
        if span % c == 0 {
          Mirror(span, c, h.init - x);
        }
        if x > h.init && x < h.init + c && x >= h.bound {
          NoneBetween(span, c, x - h.bound);
        }
      }
    } else {
      var x := Beyond(span, c);
      Visits(h, h.bound + x);
      Visits(n, h.bound + x);
    }
  }

  /** Counting from either end of an exact span meets the same values. */
  lemma Mirror(span: int, c: int, a: int)
    requires c > 0 && span % c == 0
    ensures a % c == 0 <==> (span - a) % c == 0
  {
    var q, p, r := span / c, a / c, a % c;
    assert span == q * c && a == p * c + r;
    if r == 0 {
      assert span - a == (q - p) * c;
      DivUnique(span - a, c, q - p, 0);
    } else {
      assert span - a == (q - p - 1) * c + (c - r);
      DivUnique(span - a, c, q - p - 1, c - r);
    }
  }
}
