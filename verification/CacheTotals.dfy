/** The counters printed by labs/cachelab/csim.c at the end of a trace, over all sets together. */
module CacheTotals {
  import opened CacheSim
  import opened CacheProperties
  import opened Arithmetic
  import opened Sums

  /** The tags that reach set k. */
  function TagsOf(g: Geometry, addresses: seq<int>, k: nat): seq<int> {
    if addresses == [] then [] else
      var front, last := addresses[..|addresses| - 1], addresses[|addresses| - 1];
      TagsOf(g, front, k) + if Index(g, last) == k then [Tag(g, last)] else []
  }

  function Counter(g: Geometry, addresses: seq<int>, k: nat): Outcome
    requires 0 < g.E
  {
    RunSet(EmptySet(g.E), TagsOf(g, addresses, k))
  }

  lemma InitialFits(g: Geometry)
    requires 0 < g.E
    ensures Fits(g, Initial(g))
  {
  }

  /** One more tag at the end of a run on one set. */
  lemma RunSetOn(ls: seq<Line>, tags: seq<int>, tag: int)
    requires ls != []
    ensures var p := RunSet(ls, tags); var o := AccessSet(p.lines, tag);
      RunSet(ls, tags + [tag]) == Outcome(o.lines, p.hits + o.hits, p.misses + o.misses, p.evictions + o.evictions)
  {
    assert (tags + [tag])[..|tags|] == tags;
  }

  function Final(g: Geometry, addresses: seq<int>): (s: Sim)
    requires 0 < g.E
    ensures Fits(g, s)
  {
    InitialFits(g);
    Run(g, Initial(g), addresses)
  }

  /** The sets do not influence one another: each ends as if its own accesses had been all. */
  lemma {:induction false} SetsAreIndependent(g: Geometry, addresses: seq<int>, k: nat)
    requires 0 < g.E && k < Pow2(g.s)
    ensures Final(g, addresses).sets[k] == Counter(g, addresses, k).lines
  {
    if addresses != [] {
      var front, last := addresses[..|addresses| - 1], addresses[|addresses| - 1];
      SetsAreIndependent(g, front, k);
      if Index(g, last) == k {
        RunSetOn(EmptySet(g.E), TagsOf(g, front, k), Tag(g, last));
      } else {
        assert TagsOf(g, addresses, k) == TagsOf(g, front, k);
      }
    }
  }

  /** One access, seen from the counters. */
  lemma FinalStep(g: Geometry, front: seq<int>, a: int)
    requires 0 < g.E
    ensures var s, s' := Final(g, front), Final(g, front + [a]); var ls := s.sets[Index(g, a)];
      && SetInv(ls) && |ls| == g.E
      && s'.sets == s.sets[Index(g, a) := AccessSet(ls, Tag(g, a)).lines]
      && s'.hits == s.hits + (if Has(ls, Tag(g, a)) then 1 else 0)
      && s'.misses == s.misses + (if Has(ls, Tag(g, a)) then 0 else 1)
      && s'.evictions == s.evictions + AccessSet(ls, Tag(g, a)).evictions
  {
    var k := Index(g, a);
    SetsAreIndependent(g, front, k);
    EvictsIffMoreTagsThanLines(g.E, TagsOf(g, front, k));
    InitialFits(g);
    RunOn(g, Initial(g), front, a);
    AccessEffect(Final(g, front).sets[k], Tag(g, a));
  }

  function Valid(ls: seq<Line>): nat {
    FirstEmpty(ls)
  }

  lemma {:induction false} NothingValidAtFirst(E: nat, n: nat)
    requires 0 < E
    ensures Sum(Valid, seq(n, _ => EmptySet(E))) == 0
  {
    SumZero(Valid, seq(n, _ => EmptySet(E)));
  }

  /** Every access is a hit or a miss, and the lines in use are the misses that evicted nothing. */
  lemma {:induction false} CountersAddUp(g: Geometry, addresses: seq<int>)
    requires 0 < g.E
    ensures var s := Final(g, addresses);
      s.hits + s.misses == |addresses| && Sum(Valid, s.sets) + s.evictions == s.misses
  {
    if addresses == [] {
      NothingValidAtFirst(g.E, Pow2(g.s));
    } else {
      var front, a := addresses[..|addresses| - 1], addresses[|addresses| - 1];
      assert addresses == front + [a];
      CountersAddUp(g, front);
      FinalStep(g, front, a);
      var s := Final(g, front);
      AccessEffect(s.sets[Index(g, a)], Tag(g, a));
      SumUpdate(Valid, s.sets, Index(g, a), AccessSet(s.sets[Index(g, a)], Tag(g, a)).lines);
    }
  }

  function Blocks(g: Geometry, addresses: seq<int>): set<int> {
    set a | a in addresses :: a / Pow2(g.b)
  }

  lemma {:induction false} TagSeenIffBlockTouched(g: Geometry, addresses: seq<int>, a: int)
    ensures Tag(g, a) in Seen(TagsOf(g, addresses, Index(g, a))) <==> a / Pow2(g.b) in Blocks(g, addresses)
  {
    if addresses != [] {
      var front, last := addresses[..|addresses| - 1], addresses[|addresses| - 1];
      TagSeenIffBlockTouched(g, front, a);
      FieldsNameTheBlock(g, a, last);
      BlocksMore(g, front, last);
      assert addresses == front + [last];
    }
  }

  lemma BlocksMore(g: Geometry, front: seq<int>, a: int)
    ensures var block := a / Pow2(g.b); var bs := Blocks(g, front);
      && Blocks(g, front + [a]) == bs + {block}
      && |Blocks(g, front + [a])| == |bs| + (if block in bs then 0 else 1)
  {
    var block, bs := a / Pow2(g.b), Blocks(g, front);
    var more := front + [a];
    assert more[|front|] == a && a in more;
    assert forall x :: x in front ==> x in more;
    assert forall x :: x in more ==> x in front || x == a;
    assert Blocks(g, more) == bs + {block};
    if block in bs {
      assert bs + {block} == bs;
    }
  }

  /** Each block misses at least once, and just once if nothing is ever evicted. */
  lemma {:induction false} MissesCountBlocks(g: Geometry, addresses: seq<int>)
    requires 0 < g.E
    ensures var s := Final(g, addresses);
      |Blocks(g, addresses)| <= s.misses && (s.evictions == 0 ==> s.misses == |Blocks(g, addresses)|)
  {
    if addresses != [] {
      var front, a := addresses[..|addresses| - 1], addresses[|addresses| - 1];
      assert addresses == front + [a];
      var k := Index(g, a);
      MissesCountBlocks(g, front);
      FinalStep(g, front, a);
      BlocksMore(g, front, a);
      TagSeenIffBlockTouched(g, front, a);
      SetsAreIndependent(g, front, k);
      EvictsIffMoreTagsThanLines(g.E, TagsOf(g, front, k));
      SetEvictions(g, front, k);
    }
  }

  /** A set's own evictions are among all. */
  lemma {:induction false} SetEvictions(g: Geometry, addresses: seq<int>, k: nat)
    requires 0 < g.E && k < Pow2(g.s)
    ensures Counter(g, addresses, k).evictions <= Final(g, addresses).evictions
  {
    if addresses != [] {
      var front, a := addresses[..|addresses| - 1], addresses[|addresses| - 1];
      assert addresses == front + [a];
      SetEvictions(g, front, k);
      FinalStep(g, front, a);
      SetsAreIndependent(g, front, k);
      if Index(g, a) == k {
        RunSetOn(EmptySet(g.E), TagsOf(g, front, k), Tag(g, a));
      } else {
        assert TagsOf(g, addresses, k) == TagsOf(g, front, k);
      }
    }
  }

  /** If anything was evicted at all, some set evicted. */
  lemma {:induction false} SomeSetEvicted(g: Geometry, addresses: seq<int>) returns (k: nat)
    requires 0 < g.E && Final(g, addresses).evictions > 0
    ensures k < Pow2(g.s) && Counter(g, addresses, k).evictions > 0
  {
    var front, a := addresses[..|addresses| - 1], addresses[|addresses| - 1];
    assert addresses == front + [a];
    FinalStep(g, front, a);
    k := Index(g, a);
    if Final(g, front).evictions > 0 {
      k := SomeSetEvicted(g, front);
    }
    SetsAreIndependent(g, front, Index(g, a));
    if Index(g, a) == k {
      RunSetOn(EmptySet(g.E), TagsOf(g, front, k), Tag(g, a));
    } else {
      assert TagsOf(g, addresses, k) == TagsOf(g, front, k);
    }
  }

  lemma SetEvictsIff(g: Geometry, addresses: seq<int>, k: nat)
    requires 0 < g.E
    ensures Counter(g, addresses, k).evictions == 0 <==> |Seen(TagsOf(g, addresses, k))| <= g.E
  {
    EvictsIffMoreTagsThanLines(g.E, TagsOf(g, addresses, k));
  }

  /** A trace runs without evictions exactly when no set sees more than E different tags. */
  lemma NoEvictionsIff(g: Geometry, addresses: seq<int>)
    requires 0 < g.E
    ensures Final(g, addresses).evictions == 0 <==>
      forall k: nat :: k < Pow2(g.s) ==> |Seen(TagsOf(g, addresses, k))| <= g.E
  {
    if Final(g, addresses).evictions > 0 {
      var k := SomeSetEvicted(g, addresses);
      SetEvictsIff(g, addresses, k);
    } else {
      forall k: nat | k < Pow2(g.s) ensures |Seen(TagsOf(g, addresses, k))| <= g.E {
        SetEvictions(g, addresses, k);
        SetEvictsIff(g, addresses, k);
      }
    }
  }

  /** How many lines of a trace have this command. */
  function Lines(trace: seq<Reference>, cmd: char): nat {
    if trace == [] then 0 else
      Lines(trace[..|trace| - 1], cmd) + if trace[|trace| - 1].cmd == cmd then 1 else 0
  }

  /** Each load and store asks for one access, each modification for two. */
  lemma {:induction false} AccessesCounted(trace: seq<Reference>)
    ensures |Accesses(trace)| == Lines(trace, 'L') + Lines(trace, 'S') + 2 * Lines(trace, 'M')
  {
    if trace != [] {
      AccessesCounted(trace[..|trace| - 1]);
    }
  }

  predicate IsData(r: Reference) {
    r.cmd == 'L' || r.cmd == 'S' || r.cmd == 'M'
  }

  /** The blocks that the data lines of a trace name. */
  function Named(g: Geometry, trace: seq<Reference>): set<int> {
    if trace == [] then {} else
      var r := trace[|trace| - 1];
      Named(g, trace[..|trace| - 1]) + if IsData(r) then {r.address / Pow2(g.b)} else {}
  }

  lemma BlocksAsked(g: Geometry, before: seq<int>, r: Reference)
    ensures Blocks(g, before + Asked(r)) == Blocks(g, before) + if IsData(r) then {r.address / Pow2(g.b)} else {}
  {
    if IsData(r) {
      BlocksMore(g, before, r.address);
      if r.cmd == 'M' {
        BlocksMore(g, before + [r.address], r.address);
        assert before + Asked(r) == before + [r.address] + [r.address];
      }
    } else {
      assert before + Asked(r) == before;
    }
  }

  lemma {:induction false} TouchedAreNamed(g: Geometry, trace: seq<Reference>)
    ensures Blocks(g, Accesses(trace)) == Named(g, trace)
  {
    if trace != [] {
      var front, r := trace[..|trace| - 1], trace[|trace| - 1];
      TouchedAreNamed(g, front);
      BlocksAsked(g, Accesses(front), r);
    }
  }

  lemma HitsGrow(g: Geometry, front: seq<int>, r: Reference)
    requires 0 < g.E
    ensures Final(g, front + Asked(r)).hits >= Final(g, front).hits + if r.cmd == 'M' then 1 else 0
  {
    if r.cmd == 'M' {
      var mid := front + [r.address];
      assert front + Asked(r) == mid + [r.address];
      FinalStep(g, front, r.address);
      FinalStep(g, mid, r.address);
      var ls := Final(g, front).sets[Index(g, r.address)];
      SecondAccessHits(ls, Tag(g, r.address));
      AccessHolds(ls, Tag(g, r.address), Tag(g, r.address));
    } else if r.cmd == 'L' || r.cmd == 'S' {
      assert front + Asked(r) == front + [r.address];
      FinalStep(g, front, r.address);
    } else {
      assert front + Asked(r) == front;
    }
  }

  /** Every M hits at its second access. */
  lemma {:induction false} EveryModifyHits(g: Geometry, trace: seq<Reference>)
    requires 0 < g.E
    ensures Lines(trace, 'M') <= Final(g, Accesses(trace)).hits
  {
    if trace != [] {
      var front := trace[..|trace| - 1];
      EveryModifyHits(g, front);
      HitsGrow(g, Accesses(front), trace[|trace| - 1]);
    }
  }

  /** main: what is printed at the end of a trace. */
  method Summary(g: Geometry, trace: seq<Reference>) returns (hits: nat, misses: nat, evictions: nat)
    requires 0 < g.E
    ensures var s := Final(g, Accesses(trace)); hits == s.hits && misses == s.misses && evictions == s.evictions
    ensures hits + misses == Lines(trace, 'L') + Lines(trace, 'S') + 2 * Lines(trace, 'M')
    ensures Lines(trace, 'M') <= hits && evictions <= misses
    ensures |Named(g, trace)| <= misses && (evictions == 0 ==> misses == |Named(g, trace)|)
  {
    var cache := new Cache(g);
    cache.Simulate(trace);
    CountersAddUp(g, Accesses(trace));
    EveryModifyHits(g, trace);
    AccessesCounted(trace);
    TouchedAreNamed(g, trace);
    MissesCountBlocks(g, Accesses(trace));
    return cache.hits, cache.misses, cache.evictions;
  }
}
