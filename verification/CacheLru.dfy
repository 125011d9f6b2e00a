/** How far the replacement of labs/cachelab/csim.c is the least-recently-used policy its comments call it. */
module CacheLru {
  import opened CacheSim
  import opened CacheProperties

  function Without(q: seq<int>, tag: int): seq<int> {
    if q == [] then [] else if q[0] == tag then q[1..] else [q[0]] + Without(q[1..], tag)
  }

  /** Least recently used replacement: the tags of a set, the one longest unused first. */
  function LruStep(E: nat, q: seq<int>, tag: int): seq<int> {
    (if tag in q then Without(q, tag) else if |q| == E && q != [] then q[1..] else q) + [tag]
  }

  function LruRun(E: nat, tags: seq<int>): seq<int> {
    if tags == [] then [] else LruStep(E, LruRun(E, tags[..|tags| - 1]), tags[|tags| - 1])
  }

  /** Line w[p] holds tag q[p]; the counts grow with p; no other line is valid. */
  ghost predicate Ordered(ls: seq<Line>, q: seq<int>, w: seq<nat>) {
    && |w| == |q| == FirstEmpty(ls)
    && (forall p :: 0 <= p < |w| ==> w[p] < |ls| && Hit(ls[w[p]], q[p]))
    && (forall p, r :: 0 <= p < r < |w| ==> ls[w[p]].count < ls[w[r]].count && q[p] != q[r])
    && (forall i :: 0 <= i < FirstEmpty(ls) ==> i in w)
  }

  lemma OrderedHolds(ls: seq<Line>, q: seq<int>, w: seq<nat>, u: int)
    requires SetInv(ls) && Ordered(ls, q, w)
    ensures Has(ls, u) <==> u in q
  {
    if Has(ls, u) {
      var i :| 0 <= i < |ls| && Hit(ls[i], u);
      assert i in w;
    }
    if u in q {
      var p :| 0 <= p < |q| && q[p] == u;
      assert Hit(ls[w[p]], u);
    }
  }

  lemma Appended(ls: seq<Line>, q: seq<int>, w: seq<nat>, line: Line, r: seq<Line>)
    requires var n := FirstEmpty(ls); n < |ls| && r == ls[n := line] && FirstEmpty(r) == n + 1
    requires Ordered(ls, q, w)
    requires line.valid && line.tag !in q && forall i :: 0 <= i < |ls| ==> ls[i].count < line.count
    ensures Ordered(r, q + [line.tag], w + [FirstEmpty(ls)])
  {
    var n := FirstEmpty(ls);
    var w' := w + [n];
    assert forall p :: 0 <= p < n ==> w'[p] == w[p] && w[p] != n && r[w[p]] == ls[w[p]];
    forall i | 0 <= i < n + 1 ensures i in w' {
      assert i < n ==> i in w;
      assert w'[n] == n;
    }
  }

  lemma FillOrdered(E: nat, ls: seq<Line>, q: seq<int>, w: seq<nat>, tag: int)
    requires SetInv(ls) && |ls| == E && Ordered(ls, q, w) && !Has(ls, tag) && FirstEmpty(ls) < E
    ensures Ordered(AccessSet(ls, tag).lines, LruStep(E, q, tag), w + [FirstEmpty(ls)])
  {
    AtMostOneMatch(ls, tag);
    AccessEffect(ls, tag);
    OrderedHolds(ls, q, w, tag);
    Appended(ls, q, w, Line(true, tag, Max(ls) + 1), AccessSet(ls, tag).lines);
  }

  /** When the set is full the victim is the line whose tag has waited longest. */
  lemma VictimIsOldest(ls: seq<Line>, q: seq<int>, w: seq<nat>)
    requires ls != [] && Ordered(ls, q, w) && FirstEmpty(ls) == |ls|
    ensures w[0] == Lru(ls)
  {
    var v := Lru(ls);
    assert v in w;
    var p :| 0 <= p < |w| && w[p] == v;
    assert ls[v].count <= ls[w[0]].count;
  }

  /** The oldest line w[0] is now `line`, r, and comes last in w' and q'; the others moved up. */
  ghost predicate Rotated(ls: seq<Line>, q: seq<int>, w: seq<nat>, line: Line, r: seq<Line>, q': seq<int>, w': seq<nat>)
    requires Ordered(ls, q, w) && w != []
  {
    var n := |w| - 1;
    && |r| == |ls| && |q'| == |w'| == n + 1
    && (forall p :: 0 <= p < n ==> w'[p] == w[p + 1] && q'[p] == q[p + 1] && r[w[p + 1]] == ls[w[p + 1]])
    && w'[n] == w[0] && q'[n] == line.tag && r[w[0]] == line
    && forall i :: i in w ==> i in w'
  }

  lemma Rotate(ls: seq<Line>, q: seq<int>, w: seq<nat>, line: Line)
    requires Ordered(ls, q, w) && w != []
    ensures Rotated(ls, q, w, line, ls[w[0] := line], q[1..] + [line.tag], w[1..] + [w[0]])
  {
    assert forall p :: 0 < p < |w| ==> w[p] != w[0];
    assert w == [w[0]] + w[1..];
  }

  /** The oldest line refilled with a new tag and a count of its own above the others becomes the youngest. */
  lemma Refilled(ls: seq<Line>, q: seq<int>, w: seq<nat>, line: Line, r: seq<Line>, q': seq<int>, w': seq<nat>)
    requires ls != [] && Ordered(ls, q, w) && FirstEmpty(ls) == |ls| == FirstEmpty(r)
    requires Rotated(ls, q, w, line, r, q', w')
    requires line.valid && line.tag !in q && forall i :: 0 <= i < |ls| ==> ls[i].count < line.count
    ensures Ordered(r, q', w')
  {
  }

  lemma EvictOrdered(E: nat, ls: seq<Line>, q: seq<int>, w: seq<nat>, tag: int)
    requires SetInv(ls) && |ls| == E && Ordered(ls, q, w) && !Has(ls, tag) && FirstEmpty(ls) == E
    ensures w != [] && Ordered(AccessSet(ls, tag).lines, LruStep(E, q, tag), w[1..] + [w[0]])
  {
    AtMostOneMatch(ls, tag);
    OrderedHolds(ls, q, w, tag);
    VictimIsOldest(ls, q, w);
    var line := Line(true, tag, Max(ls) + 1);
    Rotate(ls, q, w, line);
    AccessEffect(ls, tag);
    Refilled(ls, q, w, line, ls[w[0] := line], q[1..] + [tag], w[1..] + [w[0]]);
  }

  lemma {:induction false} WithoutLast(q: seq<int>)
    requires q != [] && q[|q| - 1] !in q[..|q| - 1]
    ensures Without(q, q[|q| - 1]) == q[..|q| - 1]
  {
    if |q| > 1 {
      assert q[1..][..|q| - 2] == q[..|q| - 1][1..];
      WithoutLast(q[1..]);
      assert q[..|q| - 1] == [q[0]] + q[1..][..|q| - 2];
    }
  }

  /** Using the youngest line again changes nothing but its count. */
  lemma YoungestAgain(ls: seq<Line>, q: seq<int>, w: seq<nat>, r: seq<Line>)
    requires Ordered(ls, q, w) && q != [] && SetInv(ls) && r == Touched(ls, q[|q| - 1])
      && FirstEmpty(r) == FirstEmpty(ls)
    ensures Ordered(r, q, w)
  {
    var n := |q| - 1;
    assert forall p :: 0 <= p < n ==> r[w[p]] == ls[w[p]];
    assert r[w[n]] == ls[w[n]].(count := ls[w[n]].count + 1);
  }

  lemma RepeatOrdered(E: nat, ls: seq<Line>, q: seq<int>, w: seq<nat>)
    requires SetInv(ls) && |ls| == E && Ordered(ls, q, w) && q != []
    ensures Ordered(AccessSet(ls, q[|q| - 1]).lines, LruStep(E, q, q[|q| - 1]), w)
  {
    var n := |q| - 1;
    OrderedHolds(ls, q, w, q[n]);
    HitEffect(ls, q[n]);
    YoungestAgain(ls, q, w, Touched(ls, q[n]));
    assert forall p :: 0 <= p < n ==> q[p] != q[n];
    WithoutLast(q);
    assert q[..n] + [q[n]] == q;
  }

  /** Every hit of the run is a repetition of the access just before it, as the second half of an M is. */
  predicate HitsRepeat(E: nat, tags: seq<int>)
    requires 0 < E
  {
    tags == [] ||
    (var n := |tags| - 1;
     && HitsRepeat(E, tags[..n])
     && (AccessSet(RunSet(EmptySet(E), tags[..n]).lines, tags[n]).hits == 0 || (n > 0 && tags[n - 1] == tags[n])))
  }

  /** Such runs replace the least recently used line. */
  lemma {:induction false} OrderedRun(E: nat, tags: seq<int>) returns (w: seq<nat>)
    requires 0 < E && HitsRepeat(E, tags)
    ensures SetInv(RunSet(EmptySet(E), tags).lines)
    ensures Ordered(RunSet(EmptySet(E), tags).lines, LruRun(E, tags), w)
    ensures tags != [] ==> LruRun(E, tags) != [] && LruRun(E, tags)[|LruRun(E, tags)| - 1] == tags[|tags| - 1]
  {
    EvictsIffMoreTagsThanLines(E, tags);
    w := [];
    if tags != [] {
      var front, tag := tags[..|tags| - 1], tags[|tags| - 1];
      w := OrderedRun(E, front);
      var ls, q := RunSet(EmptySet(E), front).lines, LruRun(E, front);
      AccessEffect(ls, tag);
      if Has(ls, tag) {
        RepeatOrdered(E, ls, q, w);
      } else if FirstEmpty(ls) < E {
        FillOrdered(E, ls, q, w, tag);
        w := w + [FirstEmpty(ls)];
      } else {
        EvictOrdered(E, ls, q, w, tag);
        w := w[1..] + [w[0]];
      }
    }
  }

  /** The set holds the tags that least-recently-used replacement would have kept. */
  ghost predicate AgreesWithLru(E: nat, tags: seq<int>)
    requires 0 < E
  {
    forall u :: Has(RunSet(EmptySet(E), tags).lines, u) <==> u in LruRun(E, tags)
  }

  lemma LruWhenHitsRepeat(E: nat, tags: seq<int>)
    requires 0 < E && HitsRepeat(E, tags)
    ensures AgreesWithLru(E, tags)
  {
    var w := OrderedRun(E, tags);
    forall u ensures Has(RunSet(EmptySet(E), tags).lines, u) <==> u in LruRun(E, tags) {
      OrderedHolds(RunSet(EmptySet(E), tags).lines, LruRun(E, tags), w, u);
    }
  }

  lemma {:induction false} OneLineHitsRepeat(tags: seq<int>)
    ensures HitsRepeat(1, tags)
  {
    if tags != [] {
      var front := tags[..|tags| - 1];
      OneLineHitsRepeat(front);
      DirectMappedHitsIffRepeated(front, tags[|tags| - 1]);
    }
  }

  /** The tags 1 to n. */
  function UpTo(n: nat): seq<int> {
    seq(n, i => i + 1)
  }

  function Filled(E: nat, n: nat): (ls: seq<Line>)
    ensures |ls| == E
  {
    seq(E, i requires 0 <= i < E => if i < n then Line(true, i + 1, i + 1) else Line(false, 0, 0))
  }

  lemma FillOne(E: nat, n: nat)
    requires n < E
    ensures AccessSet(Filled(E, n), n + 1).lines == Filled(E, n + 1)
  {
    var ls := Filled(E, n);
    NoMatchNoTouch(ls, n + 1);
    assert n < |ls| && !ls[n].valid && FirstEmpty(ls) == n;
    var m := Max(ls);
    assert ls[if n == 0 then 0 else n - 1].count == n;
    assert m == n;
    assert ls[n := Line(true, n + 1, n + 1)] == Filled(E, n + 1);
  }

  lemma {:induction false} FillingUp(E: nat, n: nat)
    requires 0 < E && n <= E
    ensures RunSet(EmptySet(E), UpTo(n)).lines == Filled(E, n) && LruRun(E, UpTo(n)) == UpTo(n)
  {
    if n == 0 {
      assert Filled(E, 0) == EmptySet(E);
    } else {
      FillingUp(E, n - 1);
      assert UpTo(n)[..n - 1] == UpTo(n - 1);
      FillOne(E, n - 1);
      assert UpTo(n - 1) + [n] == UpTo(n);
    }
  }

  /** After 1 to E, tag 1 is asked for k times more. */
  function Hot(E: nat, k: nat): (ls: seq<Line>)
    requires 0 < E
    ensures |ls| == E
  {
    Filled(E, E)[0 := Line(true, 1, 1 + k)]
  }

  lemma HotLines(E: nat, k: nat)
    requires 0 < E
    ensures SetInv(Hot(E, k)) && Hit(Hot(E, k)[0], 1) && FirstEmpty(Hot(E, k)) == E
    ensures forall i :: 0 < i < E ==> Hot(E, k)[i] == Line(true, i + 1, i + 1)
  {
  }

  lemma HitAgain(E: nat, k: nat)
    requires 0 < E
    ensures AccessSet(Hot(E, k), 1).lines == Hot(E, k + 1)
  {
    var ls := Hot(E, k);
    HotLines(E, k);
    assert Has(ls, 1);
    HitEffect(ls, 1);
    assert Touched(ls, 1) == Hot(E, k + 1);
  }

  function Repeat(tag: int, k: nat): seq<int> {
    seq(k, _ => tag)
  }

  lemma {:induction false} GettingHot(E: nat, k: nat)
    requires 0 < E
    ensures RunSet(EmptySet(E), UpTo(E) + Repeat(1, k)).lines == Hot(E, k)
  {
    if k == 0 {
      FillingUp(E, E);
      assert UpTo(E) + Repeat(1, 0) == UpTo(E) && Filled(E, E) == Hot(E, 0);
    } else {
      GettingHot(E, k - 1);
      HitAgain(E, k - 1);
      var tags := UpTo(E) + Repeat(1, k);
      assert tags[..|tags| - 1] == UpTo(E) + Repeat(1, k - 1) && tags[|tags| - 1] == 1;
    }
  }

  /** Which line of such a set goes. */
  lemma HotVictim(E: nat, k: nat)
    requires 2 <= E
    ensures Lru(Hot(E, k)) == if k < 2 then 0 else 1
  {
    var ls := Hot(E, k);
    HotLines(E, k);
    assert ls[0].count == 1 + k && ls[1].count == 2;
    ScanResultsUnique(ls, if k < 2 then 0 else 1, Max(ls));
  }

  /** A tag asked for k times more after the set was filled outlives the next miss if and only if k is at least 2: then
      its count is above that of the tag filled next. */
  lemma HotTagSurvivesIff(E: nat, k: nat)
    requires 2 <= E
    ensures Has(RunSet(EmptySet(E), UpTo(E) + Repeat(1, k) + [E + 1]).lines, 1) <==> 2 <= k
  {
    var tags := UpTo(E) + Repeat(1, k) + [E + 1];
    assert tags[..|tags| - 1] == UpTo(E) + Repeat(1, k);
    GettingHot(E, k);
    var ls := Hot(E, k);
    HotLines(E, k);
    HotVictim(E, k);
    assert !Has(ls, E + 1);
    AccessEffect(ls, E + 1);
    AccessHolds(ls, E + 1, 1);
    assert Has(ls, 1);
  }

  lemma ReferenceKeepsOne(E: nat)
    requires 2 <= E
    ensures 1 in LruStep(E, LruStep(E, UpTo(E), 1), E + 1)
  {
    var q := UpTo(E);
    assert Without(q, 1) == q[1..];
    var r := q[1..] + [1];
    assert r[|r| - 1] == r[1..][|r| - 2] == 1;
  }

  /** After 1 to E and 1 again, tag 1 has just been used. */
  lemma HitLineIsEvicted(E: nat)
    requires 2 <= E
    ensures var tags := UpTo(E) + [1] + [E + 1];
      !Has(RunSet(EmptySet(E), tags).lines, 1) && 1 in LruRun(E, tags)
  {
    FillingUp(E, E);
    var q := UpTo(E);
    var t1, t2 := q + [1], q + [1] + [E + 1];
    assert t1[..|q|] == q && t2[..|t1|] == t1;
    assert Repeat(1, 1) == [1];
    HotTagSurvivesIff(E, 1);
    ReferenceKeepsOne(E);
  }

  /** On all traces the policy is least-recently-used exactly when there is nothing to choose. */
  lemma LruIffDirectMapped(E: nat)
    requires 0 < E
    ensures (forall tags :: AgreesWithLru(E, tags)) <==> E == 1
  {
    if E == 1 {
      forall tags ensures AgreesWithLru(E, tags) {
        OneLineHitsRepeat(tags);
        LruWhenHitsRepeat(1, tags);
      }
    } else {
      HitLineIsEvicted(E);
      assert !AgreesWithLru(E, UpTo(E) + [1] + [E + 1]);
    }
  }
}
