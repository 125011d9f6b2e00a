/** What the cache simulator of labs/cachelab/csim.c keeps over every trace, and what its counters mean. */
module CacheProperties {
  import opened CacheSim

  /** The tag is in the set. */
  ghost predicate Has(ls: seq<Line>, tag: int) {
    exists i :: 0 <= i < |ls| && Hit(ls[i], tag)
  }

  predicate Distinct(ls: seq<Line>) {
    forall i, j :: 0 <= i < j < |ls| && ls[i].valid && ls[j].valid ==> ls[i].tag != ls[j].tag
  }

  /** The valid lines of a set form a prefix and hold pairwise different tags. */
  predicate SetInv(ls: seq<Line>) {
    && ls != []
    && Distinct(ls)
    && forall i :: FirstEmpty(ls) <= i < |ls| ==> !ls[i].valid
  }

  /** The scan that does not stop counts at most one hit. */
  lemma {:induction false} AtMostOneMatch(ls: seq<Line>, tag: int)
    requires Distinct(ls)
    ensures Matches(ls, tag) == if Has(ls, tag) then 1 else 0
  {
    if ls != [] {
      var front, last := ls[..|ls| - 1], ls[|ls| - 1];
      AtMostOneMatch(front, tag);
      assert forall i :: 0 <= i < |front| ==> front[i] == ls[i];
      if Hit(last, tag) {
        assert ls[|ls| - 1] == last;
      }
    }
  }

  lemma HitEffect(ls: seq<Line>, tag: int)
    requires SetInv(ls) && Has(ls, tag)
    ensures var o := AccessSet(ls, tag);
      && o == Outcome(Touched(ls, tag), 1, 0, 0)
      && SetInv(o.lines) && FirstEmpty(o.lines) == FirstEmpty(ls)
      && forall u :: Has(o.lines, u) <==> Has(ls, u)
  {
    AtMostOneMatch(ls, tag);
    var r := Touched(ls, tag);
    assert forall i :: 0 <= i < |ls| ==> r[i].valid == ls[i].valid && r[i].tag == ls[i].tag;
    forall u ensures Has(r, u) <==> Has(ls, u) {
      if Has(ls, u) {
        var i :| 0 <= i < |ls| && Hit(ls[i], u);
        assert Hit(r[i], u);
      }
      if Has(r, u) {
        var i :| 0 <= i < |r| && Hit(r[i], u);
        assert Hit(ls[i], u);
      }
    }
  }

  /** Putting a new tag into line v, the first invalid one or a victim. */
  lemma PutEffect(ls: seq<Line>, v: nat, line: Line)
    requires SetInv(ls) && v <= FirstEmpty(ls) && v < |ls| && line.valid && !Has(ls, line.tag)
    ensures var r := ls[v := line];
      && SetInv(r)
      && FirstEmpty(r) == FirstEmpty(ls) + (if ls[v].valid then 0 else 1)
      && Has(r, line.tag)
      && forall u :: u != line.tag ==> (Has(r, u) <==> Has(ls, u) && !Hit(ls[v], u))
  {
    var r := ls[v := line];
    assert forall i :: 0 <= i < |ls| && ls[i].valid ==> Hit(ls[i], ls[i].tag);
    assert Hit(r[v], line.tag);
    var n := FirstEmpty(ls) + if ls[v].valid then 0 else 1;
    assert n < |r| ==> !r[n].valid;
    forall u | u != line.tag ensures Has(r, u) <==> Has(ls, u) && !Hit(ls[v], u) {
      if Has(ls, u) && !Hit(ls[v], u) {
        var i :| 0 <= i < |ls| && Hit(ls[i], u);
        assert Hit(r[i], u);
      }
      if Has(r, u) {
        var i :| 0 <= i < |r| && Hit(r[i], u);
        assert Hit(ls[i], u);
      }
    }
  }

  /** One access: it hits exactly when the tag is there, fills while there is room, and evicts one tag otherwise. */
  lemma AccessEffect(ls: seq<Line>, tag: int)
    requires SetInv(ls)
    ensures var o := AccessSet(ls, tag);
      && SetInv(o.lines) && |o.lines| == |ls|
      && o.hits == (if Has(ls, tag) then 1 else 0)
      && o.misses == 1 - o.hits
      && o.evictions == (if !Has(ls, tag) && FirstEmpty(ls) == |ls| then 1 else 0)
      && FirstEmpty(o.lines) == FirstEmpty(ls) + o.misses - o.evictions
  {
    if Has(ls, tag) {
      HitEffect(ls, tag);
    } else {
      AtMostOneMatch(ls, tag);
      var n := FirstEmpty(ls);
      if n == |ls| {
        PutEffect(ls, Lru(ls), ls[Lru(ls)].(tag := tag, count := Max(ls) + 1));
      } else {
        PutEffect(ls, n, Line(true, tag, Max(ls) + 1));
      }
    }
  }

  /** What the set holds afterwards. */
  lemma AccessHolds(ls: seq<Line>, tag: int, u: int)
    requires SetInv(ls)
    ensures var o := AccessSet(ls, tag);
      Has(o.lines, u) <==> u == tag || (Has(ls, u) && !(o.evictions == 1 && u == ls[Lru(ls)].tag))
  {
    if Has(ls, tag) {
      HitEffect(ls, tag);
    } else {
      AtMostOneMatch(ls, tag);
      var n := FirstEmpty(ls);
      if n == |ls| {
        PutEffect(ls, Lru(ls), ls[Lru(ls)].(tag := tag, count := Max(ls) + 1));
      } else {
        PutEffect(ls, n, Line(true, tag, Max(ls) + 1));
      }
    }
  }

  /** A run of accesses to one set. */
  function RunSet(ls: seq<Line>, tags: seq<int>): (o: Outcome)
    requires ls != []
    ensures |o.lines| == |ls|
  {
    if tags == [] then Outcome(ls, 0, 0, 0) else
      var p := RunSet(ls, tags[..|tags| - 1]);
      var o := AccessSet(p.lines, tags[|tags| - 1]);
      Outcome(o.lines, p.hits + o.hits, p.misses + o.misses, p.evictions + o.evictions)
  }

  function Seen(tags: seq<int>): set<int> {
    set t | t in tags
  }

  lemma SeenMore(tags: seq<int>)
    requires tags != []
    ensures var front, last := tags[..|tags| - 1], tags[|tags| - 1];
      && Seen(tags) == Seen(front) + {last}
      && |Seen(tags)| == |Seen(front)| + (if last in Seen(front) then 0 else 1)
  {
    var front, last := tags[..|tags| - 1], tags[|tags| - 1];
    assert tags == front + [last];
    assert Seen(tags) == Seen(front) + {last};
    if last in Seen(front) {
      assert Seen(tags) == Seen(front);
    }
  }

  /** The bookkeeping of one set over a run that started empty. */
  ghost predicate RunInv(E: nat, tags: seq<int>, o: Outcome) {
    && SetInv(o.lines) && |o.lines| == E
    && o.hits + o.misses == |tags|
    && FirstEmpty(o.lines) + o.evictions == o.misses
    && |Seen(tags)| <= o.misses
    && (o.evictions == 0 <==> |Seen(tags)| <= E)
    && (o.evictions == 0 ==> o.misses == |Seen(tags)|)
    && (forall u :: Has(o.lines, u) ==> u in Seen(tags))
    && (o.evictions == 0 ==> forall u :: u in Seen(tags) ==> Has(o.lines, u))
  }

  lemma RunInvKept(E: nat, front: seq<int>, tags: seq<int>, tag: int, p: Outcome)
    requires RunInv(E, front, p) && tags == front + [tag]
    ensures var o := AccessSet(p.lines, tag);
      RunInv(E, tags, Outcome(o.lines, p.hits + o.hits, p.misses + o.misses, p.evictions + o.evictions))
  {
    assert tags[..|tags| - 1] == front;
    SeenMore(tags);
    AccessEffect(p.lines, tag);
    var o := AccessSet(p.lines, tag);
    assert tag in Seen(front) && p.evictions == 0 ==> Has(p.lines, tag);
    forall u ensures Has(o.lines, u) ==> u in Seen(tags) {
      AccessHolds(p.lines, tag, u);
    }
    forall u | u in Seen(tags) && p.evictions + o.evictions == 0 ensures Has(o.lines, u) {
      AccessHolds(p.lines, tag, u);
    }
  }

  /**
   A set of E lines: nothing is evicted exactly when at most E different tags come by, and then each of them misses
   once. Whatever comes by, the valid lines are the misses that evicted nothing.
   */
  lemma {:induction false} EvictsIffMoreTagsThanLines(E: nat, tags: seq<int>)
    requires 0 < E
    ensures RunInv(E, tags, RunSet(EmptySet(E), tags))
  {
    if tags != [] {
      var front := tags[..|tags| - 1];
      EvictsIffMoreTagsThanLines(E, front);
      RunInvKept(E, front, tags, tags[|tags| - 1], RunSet(EmptySet(E), front));
    }
  }

  /** With one line a set, an access hits exactly when the access before it in the set had the same tag. */
  lemma DirectMappedHitsIffRepeated(tags: seq<int>, tag: int)
    ensures var o := AccessSet(RunSet(EmptySet(1), tags).lines, tag);
      o.hits == if tags != [] && tags[|tags| - 1] == tag then 1 else 0
  {
    EvictsIffMoreTagsThanLines(1, tags);
    var p := RunSet(EmptySet(1), tags).lines;
    AccessEffect(p, tag);
    if tags != [] {
      var last := tags[|tags| - 1];
      EvictsIffMoreTagsThanLines(1, tags[..|tags| - 1]);
      AccessHolds(RunSet(EmptySet(1), tags[..|tags| - 1]).lines, last, last);
    }
  }

  /** An access right after one to the same tag hits: the second half of every M. */
  lemma SecondAccessHits(ls: seq<Line>, tag: int)
    requires SetInv(ls)
    ensures var o := AccessSet(AccessSet(ls, tag).lines, tag); o.hits == 1 && o.misses == 0 && o.evictions == 0
  {
    AccessEffect(ls, tag);
    AccessHolds(ls, tag, tag);
    AccessEffect(AccessSet(ls, tag).lines, tag);
  }

  /** How many lines have been used more than `count`. */
  function Above(ls: seq<Line>, count: nat): (n: nat)
    ensures n <= |ls|
  {
    if ls == [] then 0 else Above(ls[..|ls| - 1], count) + if ls[|ls| - 1].count > count then 1 else 0
  }

  lemma {:induction false} AboveUpdate(ls: seq<Line>, v: nat, line: Line, count: nat)
    requires v < |ls|
    ensures Above(ls[v := line], count) <= Above(ls, count) + 1
    ensures line.count <= count || ls[v].count > count ==> Above(ls[v := line], count) <= Above(ls, count)
  {
    var last := |ls| - 1;
    if v < last {
      AboveUpdate(ls[..last], v, line, count);
      assert ls[v := line][..last] == ls[..last][v := line];
    } else {
      assert ls[v := line][..last] == ls[..last];
    }
  }

  /** A line that all others exceed has them all above it. */
  lemma {:induction false} AllAbove(ls: seq<Line>, v: nat)
    requires v < |ls| && forall i :: 0 <= i < |ls| && i != v ==> ls[i].count > ls[v].count
    ensures Above(ls, ls[v].count) == |ls| - 1
  {
    var last := |ls| - 1;
    if v < last {
      var front := ls[..last];
      assert forall i :: 0 <= i < last ==> front[i] == ls[i];
      AllAbove(front, v);
    } else {
      AboveAll(ls[..last], ls[last].count);
    }
  }

  lemma {:induction false} AboveAll(ls: seq<Line>, count: nat)
    requires forall i :: 0 <= i < |ls| ==> ls[i].count > count
    ensures Above(ls, count) == |ls|
  {
    if ls != [] {
      AboveAll(ls[..|ls| - 1], count);
    }
  }

  lemma {:induction false} AboveNone(ls: seq<Line>, count: nat)
    requires forall i :: 0 <= i < |ls| ==> ls[i].count <= count
    ensures Above(ls, count) == 0
  {
    if ls != [] {
      AboveNone(ls[..|ls| - 1], count);
    }
  }

  /** Line v was filled, and at most k lines have been filled since; its count is its own. */
  ghost predicate Young(ls: seq<Line>, v: int, tag: int, k: nat) {
    && 0 <= v < |ls| && Hit(ls[v], tag)
    && (forall i :: 0 <= i < |ls| && i != v ==> ls[i].count != ls[v].count)
    && Above(ls, ls[v].count) <= k
  }

  /** A missing access leaves a line alone that fewer than E - 1 others are above. */
  lemma MissSparesTheYoung(ls: seq<Line>, v: nat, tag: int, k: nat, other: int)
    requires SetInv(ls) && Young(ls, v, tag, k) && k + 1 < |ls| && !Has(ls, other)
    ensures Young(AccessSet(ls, other).lines, v, tag, k + 1)
  {
    AtMostOneMatch(ls, other);
    var n := FirstEmpty(ls);
    if n == |ls| {
      var w := Lru(ls);
      if w == v {
        AllAbove(ls, v);
        assert false;
      }
      AboveUpdate(ls, w, ls[w].(tag := other, count := Max(ls) + 1), ls[v].count);
    } else {
      AboveUpdate(ls, n, Line(true, other, Max(ls) + 1), ls[v].count);
    }
  }

  /** A miss leaves its own line the youngest. */
  lemma MissMakesYoung(ls: seq<Line>, tag: int) returns (v: nat)
    requires SetInv(ls) && !Has(ls, tag)
    ensures Young(AccessSet(ls, tag).lines, v, tag, 0)
  {
    AtMostOneMatch(ls, tag);
    var n := FirstEmpty(ls);
    v := if n == |ls| then Lru(ls) else n;
    AboveNone(AccessSet(ls, tag).lines, Max(ls) + 1);
  }

  /** Replacement is in order of filling as long as nothing hits: a tag just filled survives the next E - 1 misses. */
  lemma SurvivesMisses(ls: seq<Line>, tag: int, others: seq<int>)
    requires SetInv(ls) && !Has(ls, tag) && |others| < |ls|
    requires RunSet(AccessSet(ls, tag).lines, others).hits == 0
    ensures Has(RunSet(AccessSet(ls, tag).lines, others).lines, tag)
  {
    var v := MissMakesYoung(ls, tag);
    AccessEffect(ls, tag);
    YoungSurvives(AccessSet(ls, tag).lines, v, tag, others);
  }

  lemma {:induction false} YoungSurvives(ls: seq<Line>, v: nat, tag: int, others: seq<int>)
    requires SetInv(ls) && Young(ls, v, tag, 0) && |others| < |ls| && RunSet(ls, others).hits == 0
    ensures var o := RunSet(ls, others); SetInv(o.lines) && Young(o.lines, v, tag, |others|)
  {
    if others != [] {
      var front, last := others[..|others| - 1], others[|others| - 1];
      YoungSurvives(ls, v, tag, front);
      AccessEffect(RunSet(ls, front).lines, last);
      MissSparesTheYoung(RunSet(ls, front).lines, v, tag, |front|, last);
    }
  }
}
