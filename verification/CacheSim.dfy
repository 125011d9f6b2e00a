/** The cache simulator of labs/cachelab/csim.c, with the two address fields it is meant to extract. */
module CacheSim {
  import opened Arithmetic

  datatype Line = Line(valid: bool, tag: int, count: nat)

  /** Size of the cache: 2^s sets of E lines holding blocks of 2^b bytes. */
  datatype Geometry = Geometry(s: nat, E: nat, b: nat)

  function Tag(g: Geometry, address: int): int {
    address / Pow2(g.s + g.b)
  }

  function Index(g: Geometry, address: int): (k: nat)
    ensures k < Pow2(g.s)
  {
    address / Pow2(g.b) % Pow2(g.s)
  }

  function Hit(line: Line, tag: int): bool {
    line.valid && line.tag == tag
  }

  /** How many lines answer to the tag: the scan does not stop at the first. */
  function Matches(ls: seq<Line>, tag: int): nat {
    if ls == [] then 0 else Matches(ls[..|ls| - 1], tag) + if Hit(ls[|ls| - 1], tag) then 1 else 0
  }

  function Bumped(line: Line, tag: int): Line {
    if Hit(line, tag) then line.(count := line.count + 1) else line
  }

  function Touched(ls: seq<Line>, tag: int): (r: seq<Line>)
    ensures |r| == |ls|
  {
    seq(|ls|, i requires 0 <= i < |ls| => Bumped(ls[i], tag))
  }

  /** Length of the part before the first invalid line. */
  function FirstEmpty(ls: seq<Line>): (n: nat)
    ensures n <= |ls| && (n < |ls| ==> !ls[n].valid)
    ensures forall i :: 0 <= i < n ==> ls[i].valid
  {
    if ls == [] || !ls[0].valid then 0 else 1 + FirstEmpty(ls[1..])
  }

  /** The first line whose count no other line undercuts. */
  ghost predicate IsLru(ls: seq<Line>, v: int) {
    && 0 <= v < |ls|
    && (forall i :: 0 <= i < v ==> ls[v].count < ls[i].count)
    && (forall i :: v <= i < |ls| ==> ls[v].count <= ls[i].count)
  }

  ghost predicate IsMax(ls: seq<Line>, m: int) {
    && (forall i :: 0 <= i < |ls| ==> ls[i].count <= m)
    && (exists i :: 0 <= i < |ls| && ls[i].count == m)
  }

  function Lru(ls: seq<Line>): (v: nat)
    requires ls != []
    ensures IsLru(ls, v)
  {
    if |ls| == 1 then 0 else
      var v := Lru(ls[..|ls| - 1]);
      assert forall i :: 0 <= i < |ls| - 1 ==> ls[..|ls| - 1][i] == ls[i];
      if ls[v].count <= ls[|ls| - 1].count then v else |ls| - 1
  }

  function Max(ls: seq<Line>): (m: nat)
    requires ls != []
    ensures IsMax(ls, m)
  {
    if |ls| == 1 then assert ls[0].count == ls[0].count; ls[0].count else
      var m := Max(ls[..|ls| - 1]);
      assert forall i :: 0 <= i < |ls| - 1 ==> ls[..|ls| - 1][i] == ls[i];
      if ls[|ls| - 1].count <= m then m else assert ls[|ls| - 1].count == ls[|ls| - 1].count; ls[|ls| - 1].count
  }

  /** What the scans of findLRU and Lru/Max find is the same. */
  lemma ScanResultsUnique(ls: seq<Line>, v: int, m: int)
    requires ls != [] && IsLru(ls, v) && IsMax(ls, m)
    ensures v == Lru(ls) && m == Max(ls)
  {
  }

  /** One set after an access: its lines, and by how much the three counters go up. */
  datatype Outcome = Outcome(lines: seq<Line>, hits: nat, misses: nat, evictions: nat)

  function AccessSet(ls: seq<Line>, tag: int): (o: Outcome)
    requires ls != []
    ensures |o.lines| == |ls|
  {
    var m := Matches(ls, tag);
    if m > 0 then Outcome(Touched(ls, tag), m, 0, 0) else
      var n := FirstEmpty(ls);
      if n == |ls| then
        var v := Lru(ls);
        Outcome(ls[v := ls[v].(tag := tag, count := Max(ls) + 1)], 0, 1, 1)
      else
        Outcome(ls[n := Line(true, tag, Max(ls) + 1)], 0, 1, 0)
  }

  /** The whole cache with its counters. */
  datatype Sim = Sim(sets: seq<seq<Line>>, hits: nat, misses: nat, evictions: nat)

  predicate Fits(g: Geometry, s: Sim) {
    0 < g.E && |s.sets| == Pow2(g.s) && forall ls <- s.sets :: |ls| == g.E
  }

  function Access(g: Geometry, s: Sim, address: int): (s': Sim)
    requires Fits(g, s)
    ensures Fits(g, s')
  {
    var k := Index(g, address);
    var o := AccessSet(s.sets[k], Tag(g, address));
    Sim(s.sets[k := o.lines], s.hits + o.hits, s.misses + o.misses, s.evictions + o.evictions)
  }

  /** A line of the trace file: what it does and to which address. Its size is not used. */
  datatype Reference = Reference(cmd: char, address: int)

  /** The data accesses one line asks for: instruction fetches and unknown commands none, M two. */
  function Asked(r: Reference): seq<int> {
    match r.cmd
    case 'L' => [r.address]
    case 'S' => [r.address]
    case 'M' => [r.address, r.address]
    case _ => []
  }

  function Accesses(trace: seq<Reference>): seq<int> {
    if trace == [] then [] else Accesses(trace[..|trace| - 1]) + Asked(trace[|trace| - 1])
  }

  function Run(g: Geometry, s: Sim, addresses: seq<int>): (s': Sim)
    requires Fits(g, s)
    ensures Fits(g, s')
  {
    if addresses == [] then s else Access(g, Run(g, s, addresses[..|addresses| - 1]), addresses[|addresses| - 1])
  }

  function EmptySet(E: nat): seq<Line> {
    seq(E, _ => Line(false, 0, 0))
  }

  /** initializeCache. */
  function Initial(g: Geometry): (s: Sim) {
    Sim(seq(Pow2(g.s), _ => EmptySet(g.E)), 0, 0, 0)
  }

  /** Two addresses agree on both fields exactly when they lie in the same block. */
  lemma FieldsNameTheBlock(g: Geometry, a: int, a': int)
    ensures Tag(g, a) == Tag(g, a') && Index(g, a) == Index(g, a') <==> a / Pow2(g.b) == a' / Pow2(g.b)
  {
    Pow2Add(g.s, g.b);
    QuotientTwice(a, Pow2(g.b), Pow2(g.s));
    QuotientTwice(a', Pow2(g.b), Pow2(g.s));
  }

  lemma QuotientTwice(a: int, p: nat, q: nat)
    requires 0 < p && 0 < q
    ensures 0 < q * p && a / (q * p) == a / p / q
    ensures a / p == q * (a / p / q) + a / p % q
  {
    var u := a / p;
    var h, l := u / q, u % q;
    assert a == p * u + a % p;
    assert u == q * h + l;
    assert p * (q * h + l) == (q * p) * h + p * l by { Assoc(p, q, h); }
    var r := p * l + a % p;
    MulMonotone(p, l, q - 1);
    assert p * (q - 1) == q * p - p;
    MulBounds(p, q);
    DivMod(q * p, h, r, a);
  }

  class Cache {
    const g: Geometry
    const lines: array2<Line>
    var hits: nat
    var misses: nat
    var evictions: nat

    ghost predicate Valid() {
      0 < g.E && lines.Length0 == Pow2(g.s) && lines.Length1 == g.E
    }

    ghost function Set(k: nat): (ls: seq<Line>)
      requires Valid() && k < lines.Length0
      reads lines
      ensures |ls| == g.E
    {
      seq(g.E, i requires 0 <= i < g.E reads lines => lines[k, i])
    }

    ghost function Abs(): (s: Sim)
      requires Valid()
      reads this, lines
      ensures Fits(g, s)
    {
      Sim(seq(Pow2(g.s), k requires 0 <= k < lines.Length0 reads lines => Set(k)), hits, misses, evictions)
    }

    /** initializeCache */
    constructor (g: Geometry)
      requires 0 < g.E
      ensures Valid() && this.g == g && fresh(lines) && Abs() == Initial(g)
    {
      this.g := g;
      lines := new Line[Pow2(g.s), g.E]((i, j) => Line(false, 0, 0));
      hits, misses, evictions := 0, 0, 0;
      new;
      assert forall k :: 0 <= k < Pow2(g.s) ==> Set(k) == EmptySet(g.E);
    }

    /** findEmptyLine */
    method FindEmptyLine(k: nat) returns (i: int)
      requires Valid() && k < lines.Length0
      ensures var n := FirstEmpty(Set(k)); i == if n < g.E then n else -1
    {
      i := 0;
      while i < g.E
        invariant 0 <= i <= g.E
        invariant forall j :: 0 <= j < i ==> Set(k)[j].valid
      {
        if !lines[k, i].valid {
          assert !Set(k)[i].valid;
          return;
        }
        assert Set(k)[i].valid;
        i := i + 1;
      }
      i := -1;
    }

    /** findLRU: the line to evict, and the smallest and largest counts. */
    method FindLru(k: nat) returns (lru: nat, minUsed: nat, maxUsed: nat)
      requires Valid() && k < lines.Length0
      ensures lru == Lru(Set(k)) && minUsed == Set(k)[lru].count && maxUsed == Max(Set(k))
    {
      ghost var ls := Set(k);
      lru, minUsed, maxUsed := 0, lines[k, 0].count, lines[k, 0].count;
      assert ls[0].count == maxUsed;
      var line := 0;
      while line < g.E
        invariant 0 <= line <= g.E && 0 <= lru < g.E && minUsed == ls[lru].count
        invariant line == 0 ==> lru == 0
        invariant forall i :: 0 <= i < lru ==> minUsed < ls[i].count
        invariant forall i :: lru <= i < line ==> minUsed <= ls[i].count
        invariant forall i :: 0 <= i < line ==> ls[i].count <= maxUsed
        invariant exists i :: 0 <= i < g.E && ls[i].count == maxUsed
      {
        var current := lines[k, line];
        assert current == ls[line];
        if minUsed > current.count {
          lru := line;
          minUsed := current.count;
        }
        if maxUsed < current.count {
          maxUsed := current.count;
        }
        line := line + 1;
      }
      ScanResultsUnique(ls, lru, maxUsed);
    }

    /** All sets but one stay as they were. */
    twostate predicate OthersKept(k: nat)
      reads lines
    {
      forall i, j :: 0 <= i < lines.Length0 && 0 <= j < lines.Length1 && i != k ==> lines[i, j] == old(lines[i, j])
    }

    /** cacheSimulate, the scan for the tag. */
    method Scan(k: nat, tag: int) returns (hit: bool, full: bool)
      requires Valid() && k < lines.Length0
      modifies this`hits, lines
      ensures OthersKept(k) && Set(k) == Touched(old(Set(k)), tag)
      ensures hits == old(hits) + Matches(old(Set(k)), tag)
      ensures hit <==> Matches(old(Set(k)), tag) > 0
      ensures full <==> FirstEmpty(old(Set(k))) == g.E
    {
      ghost var ls := Set(k);
      hit, full := false, true;
      var line := 0;
      while line < g.E
        invariant 0 <= line <= g.E && OthersKept(k)
        invariant forall j :: 0 <= j < g.E ==> lines[k, j] == if j < line then Bumped(ls[j], tag) else ls[j]
        invariant hits == old(hits) + Matches(ls[..line], tag)
        invariant hit <==> Matches(ls[..line], tag) > 0
        invariant full <==> forall j :: 0 <= j < line ==> ls[j].valid
      {
        assert ls[..line + 1][..line] == ls[..line];
        var current := lines[k, line];
        if current.valid {
          if current.tag == tag {
            hit := true;
            hits := hits + 1;
            lines[k, line] := current.(count := current.count + 1);
          }
        } else if full {
          full := false;
        }
        line := line + 1;
      }
      assert ls[..g.E] == ls;
    }

    /** cacheSimulate, after a miss: the line is put where it belongs. */
    method Fill(k: nat, tag: int, full: bool)
      requires Valid() && k < lines.Length0
      requires full <==> FirstEmpty(Set(k)) == g.E
      requires Matches(Set(k), tag) == 0
      modifies this`evictions, lines
      ensures OthersKept(k)
      ensures var o := AccessSet(old(Set(k)), tag); Set(k) == o.lines && evictions == old(evictions) + o.evictions
    {
      ghost var ls := Set(k);
      var lru, minUsed, maxUsed := FindLru(k);
      if full {
        evictions := evictions + 1;
        lines[k, lru] := lines[k, lru].(tag := tag, count := maxUsed + 1);
        assert Set(k) == ls[lru := ls[lru].(tag := tag, count := maxUsed + 1)];
      } else {
        var i := FindEmptyLine(k);
        lines[k, i] := Line(true, tag, maxUsed + 1);
        assert Set(k) == ls[i := Line(true, tag, maxUsed + 1)];
      }
    }

    /** cacheSimulate */
    method CacheSimulate(address: int)
      requires Valid()
      modifies this, lines
      ensures Abs() == Access(g, old(Abs()), address)
    {
      ghost var s := Abs();
      var k := Index(g, address);
      var tag := Tag(g, address);
      assert s.sets[k] == Set(k);
      var hit, full := Scan(k, tag);
      if !hit {
        NoMatchNoTouch(s.sets[k], tag);
        misses := misses + 1;
        Fill(k, tag, full);
      }
      assert forall i :: 0 <= i < |s.sets| && i != k ==> Set(i) == s.sets[i];
      assert Abs().sets == Access(g, s, address).sets;
    }

    /** The switch of the trace loop. */
    method Perform(r: Reference)
      requires Valid()
      modifies this, lines
      ensures Abs() == Run(g, old(Abs()), Asked(r))
    {
      ghost var s := Abs();
      match r.cmd {
        case 'I' =>
        case 'L' =>
          CacheSimulate(r.address);
          RunOn(g, s, [], r.address);
        case 'S' =>
          CacheSimulate(r.address);
          RunOn(g, s, [], r.address);
        case 'M' =>
          CacheSimulate(r.address);
          CacheSimulate(r.address);
          RunOn(g, s, [], r.address);
          RunOn(g, s, [r.address], r.address);
        case _ =>
      }
    }

    /** The trace loop of main. */
    method Simulate(trace: seq<Reference>)
      requires Valid()
      modifies this, lines
      ensures Abs() == Run(g, old(Abs()), Accesses(trace))
    {
      ghost var s := Abs();
      var i := 0;
      while i < |trace|
        invariant 0 <= i <= |trace|
        invariant Abs() == Run(g, s, Accesses(trace[..i]))
      {
        RunAppend(g, s, Accesses(trace[..i]), Asked(trace[i]));
        assert trace[..i + 1][..i] == trace[..i];
        Perform(trace[i]);
        i := i + 1;
      }
      assert trace[..i] == trace;
    }
  }

  lemma RunOn(g: Geometry, s: Sim, before: seq<int>, address: int)
    requires Fits(g, s)
    ensures Run(g, s, before + [address]) == Access(g, Run(g, s, before), address)
  {
    assert (before + [address])[..|before|] == before;
  }

  lemma {:induction false} RunAppend(g: Geometry, s: Sim, before: seq<int>, more: seq<int>)
    requires Fits(g, s)
    ensures Run(g, s, before + more) == Run(g, Run(g, s, before), more)
  {
    if more == [] {
      assert before + more == before;
    } else {
      var front, last := more[..|more| - 1], more[|more| - 1];
      RunAppend(g, s, before, front);
      assert more == front + [last];
      assert before + more == (before + front) + [last];
      RunOn(g, s, before + front, last);
      RunOn(g, Run(g, s, before), front, last);
    }
  }

  /** A tag that no line answers to changes nothing in the scan. */
  lemma {:induction false} NoMatchNoTouch(ls: seq<Line>, tag: int)
    ensures Matches(ls, tag) == 0 <==> forall i :: 0 <= i < |ls| ==> !Hit(ls[i], tag)
    ensures Matches(ls, tag) == 0 ==> Touched(ls, tag) == ls
  {
    if ls != [] {
      var front := ls[..|ls| - 1];
      NoMatchNoTouch(front, tag);
      assert forall i :: 0 <= i < |front| ==> front[i] == ls[i];
    }
  }
}
