/** Loops whose next position depends only on the present one: when they end, and when two of them agree. */
module Orbits {
  import opened Options

  type Next = nat -> Option<nat>

  /** The position after k turns; None once the loop has ended. */
  function After(next: Next, x: nat, k: nat): Option<nat>
    decreases k
  {
    if k == 0 then Some(x)
    else
      match next(x)
      case None => None
      case Some(y) => After(next, y, k - 1)
  }

  predicate HaltsIn(next: Next, x: nat, k: nat)
    decreases k
  {
    match next(x)
    case None => true
    case Some(y) => k > 0 && HaltsIn(next, y, k - 1)
  }

  ghost predicate Halts(next: Next, x: nat) {
    exists k: nat :: HaltsIn(next, x, k)
  }

  lemma HaltsStep(next: Next, x: nat)
    ensures Halts(next, x) <==> next(x).None? || Halts(next, next(x).value)
  {
    match next(x) {
      case None =>
        assert HaltsIn(next, x, 0);
      case Some(y) =>
        if Halts(next, x) {
          var k: nat :| HaltsIn(next, x, k);
          assert HaltsIn(next, y, k - 1);
        }
        if Halts(next, y) {
          var k: nat :| HaltsIn(next, y, k);
          assert HaltsIn(next, x, k + 1);
        }
    }
  }

  function Count(next: Next, x: nat, k: nat): nat
    requires HaltsIn(next, x, k)
    decreases k
  {
    match next(x)
    case None => 0
    case Some(y) => 1 + Count(next, y, k - 1)
  }

  lemma {:induction false} CountSame(next: Next, x: nat, k: nat, m: nat)
    requires HaltsIn(next, x, k) && HaltsIn(next, x, m)
    ensures Count(next, x, k) == Count(next, x, m)
    decreases k
  {
    if next(x).Some? {
      CountSame(next, next(x).value, k - 1, m - 1);
    }
  }

  /** How many turns are left. */
  ghost function Turns(next: Next, x: nat): nat
    requires Halts(next, x)
  {
    var k: nat :| HaltsIn(next, x, k);
    Count(next, x, k)
  }

  lemma TurnsStep(next: Next, x: nat)
    requires Halts(next, x)
    ensures next(x).None? ==> Turns(next, x) == 0
    ensures next(x).Some? ==> Halts(next, next(x).value) && Turns(next, x) == Turns(next, next(x).value) + 1
  {
    HaltsStep(next, x);
    var k: nat :| HaltsIn(next, x, k) && Turns(next, x) == Count(next, x, k);
    if next(x).Some? {
      var y := next(x).value;
      var m: nat :| HaltsIn(next, y, m) && Turns(next, y) == Count(next, y, m);
      CountSame(next, y, k - 1, m);
      assert Count(next, x, k) == 1 + Count(next, y, k - 1);
    }
  }

  /** A loop that ends is within k turns of its end exactly when Turns says so. */
  lemma {:induction false} TurnsExact(next: Next, x: nat, k: nat)
    requires Halts(next, x)
    ensures HaltsIn(next, x, k) <==> Turns(next, x) <= k
    decreases k
  {
    TurnsStep(next, x);
    if next(x).Some? && k > 0 {
      TurnsExact(next, next(x).value, k - 1);
    }
  }

  /** A loop that comes back to where it was never ends. */
  lemma {:induction false} TurnsAfter(next: Next, x: nat, k: nat)
    requires Halts(next, x) && After(next, x, k).Some?
    ensures Halts(next, After(next, x, k).value)
    ensures Turns(next, x) == Turns(next, After(next, x, k).value) + k
    decreases k
  {
    if k > 0 {
      TurnsStep(next, x);
      TurnsAfter(next, next(x).value, k - 1);
    }
  }

  ghost predicate Repeats(next: Next, x: nat) {
    exists i: nat, j: nat :: i < j && After(next, x, i).Some? && After(next, x, i) == After(next, x, j)
  }

  /** All positions a loop moves to lie below the bound. */
  ghost predicate Within(next: Next, bound: nat) {
    forall y: nat :: next(y).Some? ==> next(y).value < bound
  }

  lemma {:induction false} AfterStep(next: Next, x: nat, k: nat)
    ensures After(next, x, k + 1) == match After(next, x, k) case None => None case Some(y) => next(y)
    decreases k
  {
    if k > 0 && next(x).Some? {
      AfterStep(next, next(x).value, k - 1);
    }
  }

  lemma {:induction false} NotYetHalted(next: Next, x: nat, k: nat)
    ensures HaltsIn(next, x, k) <==> After(next, x, k + 1).None?
    decreases k
  {
    if next(x).Some? && k > 0 {
      NotYetHalted(next, next(x).value, k - 1);
    }
  }

  /** The positions reached in turns 1 .. k, when none of them is reached twice. */
  ghost function Visited(next: Next, x: nat, k: nat): set<nat> {
    set i: nat | 1 <= i <= k && After(next, x, i).Some? :: After(next, x, i).value
  }

  lemma {:induction false} VisitedGrows(next: Next, x: nat, k: nat)
    requires After(next, x, k).Some? && !Repeats(next, x)
    ensures |Visited(next, x, k)| == k
    decreases k
  {
    if k == 0 {
      assert Visited(next, x, 0) == {};
    } else {
      AfterStep(next, x, k - 1);
      VisitedGrows(next, x, k - 1);
      var y := After(next, x, k).value;
      assert Visited(next, x, k) == Visited(next, x, k - 1) + {y};
      assert forall i: nat :: 1 <= i <= k - 1 ==> After(next, x, i) != After(next, x, k);
    }
  }

  lemma {:induction false} SmallSet(s: set<nat>, bound: nat)
    requires forall y :: y in s ==> y < bound
    ensures |s| <= bound
  {
    if bound > 0 {
      SmallSet(s - {bound - 1}, bound - 1);
    } else {
      assert s == {};
    }
  }

  /** The exact condition: over a finite range, the loop ends if and only if it never comes to a position twice. */
  lemma HaltsIffNoRepeat(next: Next, x: nat, bound: nat)
    requires Within(next, bound)
    ensures Halts(next, x) <==> !Repeats(next, x)
    ensures Halts(next, x) <==> HaltsIn(next, x, bound)
  {
    if Repeats(next, x) && Halts(next, x) {
      var i: nat, j: nat :| i < j && After(next, x, i).Some? && After(next, x, i) == After(next, x, j);
      TurnsAfter(next, x, i);
      TurnsAfter(next, x, j);
    }
    if !Repeats(next, x) && !HaltsIn(next, x, bound) {
      NotYetHalted(next, x, bound);
      VisitedGrows(next, x, bound + 1);
      var visited := Visited(next, x, bound + 1);
      forall y | y in visited ensures y < bound {
        var i: nat :| 1 <= i <= bound + 1 && After(next, x, i).Some? && After(next, x, i).value == y;
        AfterStep(next, x, i - 1);
      }
      SmallSet(visited, bound);
    }
  }

  /** A measure that drops at every turn ends the loop. */
  lemma {:induction false} DescentHalts(next: Next, rank: nat -> nat, x: nat)
    requires forall y: nat :: next(y).Some? ==> rank(next(y).value) < rank(y)
    ensures Halts(next, x)
    decreases rank(x)
  {
    HaltsStep(next, x);
    if next(x).Some? {
      DescentHalts(next, rank, next(x).value);
    }
  }

  /** The measure drops at every turn of the loop from x. */
  ghost predicate Descends(next: Next, rank: nat -> nat, x: nat) {
    forall k: nat :: After(next, x, k).Some? ==> DropsAt(next, rank, After(next, x, k).value)
  }

  ghost predicate DropsAt(next: Next, rank: nat -> nat, x: nat) {
    next(x).Some? ==> rank(next(x).value) < rank(x)
  }

  lemma {:induction false} DescendingLoopHalts(next: Next, rank: nat -> nat, x: nat)
    requires Descends(next, rank, x)
    ensures Halts(next, x)
    decreases rank(x)
  {
    HaltsStep(next, x);
    assert After(next, x, 0) == Some(x);
    assert DropsAt(next, rank, After(next, x, 0).value);
    if next(x).Some? {
      var y := next(x).value;
      forall k: nat | After(next, y, k).Some? ensures DropsAt(next, rank, After(next, y, k).value) {
        assert After(next, x, k + 1) == After(next, y, k);
      }
      DescendingLoopHalts(next, rank, y);
    }
  }

  ghost predicate SameOrbit(f: Next, g: Next, x: nat) {
    forall k: nat :: After(f, x, k) == After(g, x, k)
  }

  ghost predicate AgreeOn(f: Next, g: Next, x: nat) {
    forall k: nat :: After(f, x, k).Some? ==> f(After(f, x, k).value) == g(After(f, x, k).value)
  }

  lemma SameOrbitFlipped(f: Next, g: Next, x: nat)
    requires SameOrbit(f, g, x)
    ensures SameOrbit(g, f, x)
  {
    forall k: nat ensures After(g, x, k) == After(f, x, k) {
      assert After(f, x, k) == After(g, x, k);
    }
  }

  /** Two loops visit the same positions exactly when they agree at every position the first one visits. */
  lemma SameOrbitIff(f: Next, g: Next, x: nat)
    ensures SameOrbit(f, g, x) <==> AgreeOn(f, g, x)
  {
    if SameOrbit(f, g, x) {
      forall k: nat | After(f, x, k).Some? ensures f(After(f, x, k).value) == g(After(f, x, k).value) {
        SameStep(f, g, x, k);
      }
      assert AgreeOn(f, g, x);
    }
    if AgreeOn(f, g, x) {
      forall k: nat ensures After(f, x, k) == After(g, x, k) {
        SameSoFar(f, g, x, k);
      }
      assert SameOrbit(f, g, x);
    }
  }

  lemma SameStep(f: Next, g: Next, x: nat, k: nat)
    requires After(f, x, k).Some? && After(f, x, k) == After(g, x, k) && After(f, x, k + 1) == After(g, x, k + 1)
    ensures f(After(f, x, k).value) == g(After(f, x, k).value)
  {
    AfterStep(f, x, k);
    AfterStep(g, x, k);
  }

  lemma {:induction false} SameSoFar(f: Next, g: Next, x: nat, k: nat)
    requires AgreeOn(f, g, x)
    ensures After(f, x, k) == After(g, x, k)
    decreases k
  {
    if k > 0 {
      SameSoFar(f, g, x, k - 1);
      AfterStep(f, x, k - 1);
      AfterStep(g, x, k - 1);
    }
  }

  /** All positions from x to the end of the loop, in order. */
  ghost function Path(next: Next, x: nat): (path: seq<nat>)
    requires Halts(next, x)
    ensures |path| == Turns(next, x) + 1 && path[0] == x
    decreases Turns(next, x)
  {
    TurnsStep(next, x);
    if next(x).None? then [x] else [x] + Path(next, next(x).value)
  }

  /** A path follows the steps of the loop and stops where there is none. */
  lemma {:induction false} PathSteps(next: Next, x: nat, k: nat)
    requires Halts(next, x) && k < |Path(next, x)|
    ensures next(Path(next, x)[k]) == if k + 1 < |Path(next, x)| then Some(Path(next, x)[k + 1]) else None
    decreases k
  {
    TurnsStep(next, x);
    if k > 0 {
      PathSteps(next, next(x).value, k - 1);
    }
  }

  /** From every position on a path the loop ends. */
  lemma {:induction false} PathHalts(next: Next, x: nat, k: nat)
    requires Halts(next, x) && k < |Path(next, x)|
    ensures Halts(next, Path(next, x)[k])
    decreases k
  {
    TurnsStep(next, x);
    if k > 0 {
      PathHalts(next, next(x).value, k - 1);
    }
  }

  lemma {:induction false} SameOrbitSamePath(f: Next, g: Next, x: nat)
    requires Halts(f, x) && SameOrbit(f, g, x)
    ensures Halts(g, x) && Path(g, x) == Path(f, x)
    decreases Turns(f, x)
  {
    TurnsStep(f, x);
    assert After(f, x, 0) == After(g, x, 0);
    SameStep(f, g, x, 0);
    HaltsStep(g, x);
    if f(x).Some? {
      var y := f(x).value;
      forall k: nat ensures After(f, y, k) == After(g, y, k) {
        assert After(f, x, k + 1) == After(g, x, k + 1);
      }
      SameOrbitSamePath(f, g, y);
      TurnsStep(g, x);
    }
  }

  /** The path lists the positions turn by turn. */
  lemma {:induction false} PathAfter(next: Next, x: nat, k: nat)
    requires Halts(next, x)
    ensures After(next, x, k) == if k < |Path(next, x)| then Some(Path(next, x)[k]) else None
    decreases k
  {
    TurnsStep(next, x);
    if k > 0 && next(x).Some? {
      PathAfter(next, next(x).value, k - 1);
    }
  }

  lemma SamePathSameOrbit(f: Next, g: Next, x: nat)
    requires Halts(f, x) && Halts(g, x) && Path(f, x) == Path(g, x)
    ensures SameOrbit(f, g, x)
  {
    forall k: nat ensures After(f, x, k) == After(g, x, k) {
      PathAfter(f, x, k);
      PathAfter(g, x, k);
    }
  }
}
