/** Whole traces of the cache simulator over recency lists. */
module CacheTraces {
  import opened LruModel

  function Pow2(n: nat): (r: nat)
    ensures 0 < r
  {
    if n == 0 then 1 else 2 * Pow2(n - 1)
  }

  /** a >> n */
  function Shift(a: nat, n: nat): nat
    decreases n
  {
    if n == 0 then a else Shift(a / 2, n - 1)
  }

  /** The n low bits of a. */
  function Low(a: nat, n: nat): (r: nat)
    ensures r < Pow2(n)
    decreases n
  {
    if n == 0 then 0 else a % 2 + 2 * Low(a / 2, n - 1)
  }

  /** s set-index bits, e lines a set, b block-offset bits. */
  datatype Geometry = Geometry(s: nat, e: nat, b: nat) {
    function Sets(): (r: nat)
      ensures 0 < r
    {
      Pow2(s)
    }

    function SetOf(addr: nat): (r: nat)
      ensures r < Sets()
    {
      Low(Shift(addr, b), s)
    }

    function TagOf(addr: nat): int { Shift(addr, s + b) }
  }

  lemma {:induction false} ShiftTwice(a: nat, m: nat, n: nat)
    ensures Shift(Shift(a, m), n) == Shift(a, n + m)
    decreases m
  {
    if m > 0 { ShiftTwice(a / 2, m - 1, n); }
  }

  lemma {:induction false} HighAndLow(u: nat, v: nat, n: nat)
    requires Shift(u, n) == Shift(v, n) && Low(u, n) == Low(v, n)
    ensures u == v
    decreases n
  {
    if n > 0 { HighAndLow(u / 2, v / 2, n - 1); }
  }

  /** Tag and set index together name exactly the block of an address. */
  lemma TagAndSetNameTheBlock(g: Geometry, x: nat, y: nat)
    ensures g.TagOf(x) == g.TagOf(y) && g.SetOf(x) == g.SetOf(y) <==> Shift(x, g.b) == Shift(y, g.b)
  {
    ShiftTwice(x, g.b, g.s);
    ShiftTwice(y, g.b, g.s);
    if g.TagOf(x) == g.TagOf(y) && g.SetOf(x) == g.SetOf(y) {
      HighAndLow(Shift(x, g.b), Shift(y, g.b), g.s);
    }
  }

  // ------------------------------------------------------ shifts and masks in numbers

  lemma PowersOfTwo(n: nat)
    ensures Pow2(0) == 1 && Pow2(n + 1) == 2 * Pow2(n)
  { }

  lemma QuotientIs(a: int, d: int, q: int, r: int)
    requires 0 <= r < d && a == d * q + r
    ensures a / d == q && a % d == r
  {
    var k := a / d - q;
    assert d * k == r - a % d;
    TimesAtLeast(d, k);
  }

  lemma TimesAtLeast(d: int, k: int)
    requires 0 < d
    ensures (k > 0 ==> d <= d * k) && (k < 0 ==> d * k <= -d)
  { }

  /** Halving and then dividing by d is dividing by 2d; the remainders belong together. */
  lemma HalveThenDivide(a: nat, d: nat)
    requires 0 < d
    ensures a / 2 / d == a / (2 * d) && a % 2 + 2 * (a / 2 % d) == a % (2 * d)
  {
    var h, c := a / 2, a % 2;
    var q, r := h / d, h % d;
    assert h == d * q + r;
    assert a == 2 * (d * q + r) + c;
    assert 2 * (d * q) == (2 * d) * q;
    QuotientIs(a, 2 * d, q, 2 * r + c);
  }

  lemma {:induction false} ShiftIsDivision(a: nat, n: nat)
    ensures Shift(a, n) == a / Pow2(n)
    decreases n
  {
    if n > 0 {
      ShiftIsDivision(a / 2, n - 1);
      HalveThenDivide(a, Pow2(n - 1));
    }
  }

  lemma {:induction false} LowIsRemainder(a: nat, n: nat)
    ensures Low(a, n) == a % Pow2(n)
    decreases n
  {
    if n > 0 {
      LowIsRemainder(a / 2, n - 1);
      HalveThenDivide(a, Pow2(n - 1));
    }
  }

  /** The set index is the block number modulo 2^s, the tag what is above it: two addresses share
      a set exactly when their block numbers are congruent. */
  lemma SetAndTagInNumbers(g: Geometry, addr: nat)
    ensures g.Sets() == Pow2(g.s)
    ensures g.SetOf(addr) == addr / Pow2(g.b) % Pow2(g.s)
    ensures g.TagOf(addr) == addr / Pow2(g.s + g.b)
  {
    ShiftIsDivision(addr, g.b);
    LowIsRemainder(Shift(addr, g.b), g.s);
    ShiftIsDivision(addr, g.s + g.b);
  }

  /** Instruction fetches and unknown letters are ignored. */
  datatype Op = Ignored | Load | Store | Modify
  datatype Access = Access(op: Op, addr: nat)

  /** sets: the tags each set holds, most recent first. */
  datatype Sim = Sim(sets: seq<seq<int>>, hits: int, misses: int, evicts: int)

  function Start(g: Geometry): Sim {
    Sim(seq(g.Sets(), _ => []), 0, 0, 0)
  }

  /** One load or store. */
  function Reference(g: Geometry, sim: Sim, addr: nat): Sim
    requires |sim.sets| == g.Sets()
  {
    var i, t := g.SetOf(addr), g.TagOf(addr);
    var q := sim.sets[i];
    var sets' := sim.sets[i := Touch(q, t, g.e)];
    if t in q then Sim(sets', sim.hits + 1, sim.misses, sim.evicts)
    else Sim(sets', sim.hits, sim.misses + 1, sim.evicts + if |q| == g.e then 1 else 0)
  }

  /** One line of the trace; a modify counts a hit and falls through to one reference. */
  function Step(g: Geometry, sim: Sim, a: Access): (sim': Sim)
    requires |sim.sets| == g.Sets()
    ensures |sim'.sets| == g.Sets()
  {
    match a.op
    case Ignored => sim
    case Modify => Reference(g, sim.(hits := sim.hits + 1), a.addr)
    case _ => Reference(g, sim, a.addr)
  }

  function Run(g: Geometry, trace: seq<Access>): (sim: Sim)
    ensures |sim.sets| == g.Sets()
  {
    if trace == [] then Start(g)
    else Step(g, Run(g, trace[..|trace| - 1]), trace[|trace| - 1])
  }

  /** What each kind of line does: nothing, one reference, or a hit and one reference. */
  lemma StepByOp(g: Geometry, sim: Sim, addr: nat)
    requires |sim.sets| == g.Sets()
    ensures Step(g, sim, Access(Ignored, addr)) == sim
    ensures Step(g, sim, Access(Load, addr)) == Reference(g, sim, addr)
    ensures Step(g, sim, Access(Store, addr)) == Reference(g, sim, addr)
    ensures Step(g, sim, Access(Modify, addr)) == Reference(g, sim.(hits := sim.hits + 1), addr)
  { }

  /** One reference touches its own set only; it counts one hit or one miss, and an eviction for a
      miss in a full set. */
  lemma ReferenceCounts(g: Geometry, sim: Sim, addr: nat)
    requires |sim.sets| == g.Sets()
    ensures var sim', i, t := Reference(g, sim, addr), addr / Pow2(g.b) % Pow2(g.s), addr / Pow2(g.s + g.b);
      && i < |sim.sets| == |sim'.sets|
      && sim'.hits == sim.hits + (if t in sim.sets[i] then 1 else 0)
      && sim'.misses == sim.misses + (if t in sim.sets[i] then 0 else 1)
      && sim'.evicts == sim.evicts + (if t !in sim.sets[i] && |sim.sets[i]| == g.e then 1 else 0)
      && forall j :: 0 <= j < |sim.sets| && j != i ==> sim'.sets[j] == sim.sets[j]
  {
    SetAndTagInNumbers(g, addr);
  }

  /** The tags a trace maps to set i, in order. */
  function TagsFor(g: Geometry, trace: seq<Access>, i: nat): seq<int> {
    if trace == [] then []
    else
      var a := trace[|trace| - 1];
      TagsFor(g, trace[..|trace| - 1], i) +
      (if a.op != Ignored && g.SetOf(a.addr) == i then [g.TagOf(a.addr)] else [])
  }

  // -------------------------------------------------------------- least recently used

  /** After every trace each set holds exactly its most recent min(e, seen) distinct
      tags, in order of use; so the next access hits iff its tag is among those. */
  lemma {:induction false} SetsHoldMostRecent(g: Geometry, trace: seq<Access>, i: nat)
    requires 1 <= g.e && i < g.Sets()
    ensures Run(g, trace).sets[i] == Take(Recency(TagsFor(g, trace, i)), g.e)
  {
    if trace != [] {
      var t', a := trace[..|trace| - 1], trace[|trace| - 1];
      SetsHoldMostRecent(g, t', i);
      var h := TagsFor(g, t', i);
      if a.op != Ignored && g.SetOf(a.addr) == i {
        var t := g.TagOf(a.addr);
        RecencyFacts(h);
        TouchCommutesWithTake(Recency(h), t, g.e);
        assert (h + [t])[..|h + [t]| - 1] == h;
        assert TagsFor(g, trace, i) == h + [t];
      } else {
        assert TagsFor(g, trace, i) == h;
      }
    }
  }

  /** The tags used more recently than t. */
  ghost function Newer(history: seq<int>, t: int): set<int> {
    set u | u in history && LastUse(history, t) < LastUse(history, u)
  }

  /** A tag is among the e most recent distinct tags iff it has been used and fewer
      than e tags have been used since its last use. */
  lemma RecentMeansFewNewer(history: seq<int>, t: int, e: nat)
    ensures t in Take(Recency(history), e) <==> t in history && |Newer(history, t)| < e
  {
    RecencyFacts(history);
    var q := Recency(history);
    if t in history {
      var k :| 0 <= k < |q| && q[k] == t;
      NewerCount(history, k);
      assert forall j :: 0 <= j < |Take(q, e)| ==> Take(q, e)[j] == q[j];
      assert k < |Take(q, e)| ==> Take(q, e)[k] == t;
    }
  }

  lemma NewerCount(history: seq<int>, k: nat)
    requires k < |Recency(history)|
    ensures |Newer(history, Recency(history)[k])| == k
  {
    var q := Recency(history);
    RecencyFacts(history);
    var first := set u | u in q[..k];
    FirstCount(q, k);
    forall u ensures u in Newer(history, q[k]) <==> u in first {
      if u in first {
        var i :| 0 <= i < k && q[..k][i] == u;
        RecencyByLastUse(history, i, k);
      } else if u in Newer(history, q[k]) {
        var i :| 0 <= i < |q| && q[i] == u;
        if i > k { RecencyByLastUse(history, k, i); }
      }
    }
    assert Newer(history, q[k]) == first;
  }

  lemma {:induction false} FirstCount(q: seq<int>, k: nat)
    requires Distinct(q) && k <= |q|
    ensures |set u | u in q[..k]| == k
  {
    if k > 0 {
      FirstCount(q, k - 1);
      var front := q[..k - 1];
      assert forall i :: 0 <= i < k - 1 ==> front[i] == q[i];
      assert q[..k] == front + [q[k - 1]];
      var before := set u | u in front;
      assert (set u | u in q[..k]) == before + {q[k - 1]} && q[k - 1] !in before;
    }
  }

  /** The access after a trace hits exactly when fewer than e other tags of its set have come since its last use. */
  lemma HitsAreRecent(g: Geometry, trace: seq<Access>, addr: nat)
    requires 1 <= g.e
    ensures var i, t, before := g.SetOf(addr), g.TagOf(addr), Run(g, trace);
      var history := TagsFor(g, trace, i);
      && (t in before.sets[i] <==> t in history && |Newer(history, t)| < g.e)
      && Reference(g, before, addr).hits == before.hits + (if t in history && |Newer(history, t)| < g.e then 1 else 0)
  {
    var i, t := g.SetOf(addr), g.TagOf(addr);
    SetsHoldMostRecent(g, trace, i);
    RecentMeansFewNewer(TagsFor(g, trace, i), t, g.e);
  }

  // -------------------------------------------------------------------- inclusion

  /** With one line more a set holds what it held before, in the same order, and maybe one older tag. */
  lemma SmallerSetIsPrefix(g: Geometry, trace: seq<Access>, i: nat)
    requires 1 <= g.e && i < g.Sets()
    ensures var big := g.(e := g.e + 1);
      Run(g, trace).sets[i] <= Run(big, trace).sets[i]
  {
    var big := g.(e := g.e + 1);
    SetsHoldMostRecent(g, trace, i);
    SetsHoldMostRecent(big, trace, i);
    SameTags(g, big, trace, i);
  }

  lemma {:induction false} SameTags(g: Geometry, g': Geometry, trace: seq<Access>, i: nat)
    requires g.s == g'.s && g.b == g'.b
    ensures TagsFor(g, trace, i) == TagsFor(g', trace, i)
  {
    if trace != [] { SameTags(g, g', trace[..|trace| - 1], i); }
  }

  /** Growing the sets by one line never loses a hit and never adds a miss. */
  lemma {:induction false} MoreLinesNeverHurt(g: Geometry, trace: seq<Access>)
    requires 1 <= g.e
    ensures var big := g.(e := g.e + 1);
      && Run(g, trace).hits <= Run(big, trace).hits
      && Run(big, trace).misses <= Run(g, trace).misses
  {
    if trace != [] {
      var t', a := trace[..|trace| - 1], trace[|trace| - 1];
      var big := g.(e := g.e + 1);
      MoreLinesNeverHurt(g, t');
      if a.op != Ignored {
        SmallerSetIsPrefix(g, t', g.SetOf(a.addr));
        assert g.TagOf(a.addr) in Run(g, t').sets[g.SetOf(a.addr)]
          ==> g.TagOf(a.addr) in Run(big, t').sets[g.SetOf(a.addr)];
      }
    }
  }

  // ----------------------------------------------------------- modify, and counting

  /** A modify is a load followed by a store of the same address: same sets, same counters. */
  lemma ModifyIsLoadThenStore(g: Geometry, sim: Sim, addr: nat)
    requires |sim.sets| == g.Sets() && 1 <= g.e
    requires forall i :: 0 <= i < |sim.sets| ==> Distinct(sim.sets[i]) && |sim.sets[i]| <= g.e
    ensures Step(g, sim, Access(Modify, addr)) ==
      Step(g, Step(g, sim, Access(Load, addr)), Access(Store, addr))
  {
    var i, t := g.SetOf(addr), g.TagOf(addr);
    var q := Touch(sim.sets[i], t, g.e);
    WithoutFacts(sim.sets[i], t);
    var w := Without(sim.sets[i], t);
    assert q[0] == t && q == [t] + q[1..];
    assert q[1..] <= w;
    assert t !in q[1..] by { assert forall j :: 0 <= j < |q[1..]| ==> q[1..][j] == w[j]; }
    WithoutFacts(q[1..], t);
    assert Without(q, t) == q[1..];
    assert Touch(q, t, g.e) == q;
  }

  lemma TouchKeepsDistinct(q: seq<int>, t: int, e: nat)
    requires Distinct(q) && |q| <= e && 1 <= e
    ensures Distinct(Touch(q, t, e)) && |Touch(q, t, e)| <= e
    ensures |Touch(q, t, e)| == |q| + if t in q || |q| == e then 0 else 1
  {
    WithoutFacts(q, t);
    var r := [t] + Without(q, t);
    forall i, j | 0 <= i < j < |r| ensures r[i] != r[j] {
      assert r[j] == Without(q, t)[j - 1] && r[j] in Without(q, t);
    }
  }

  lemma {:induction false} SetsStaySmall(g: Geometry, trace: seq<Access>, i: nat)
    requires 1 <= g.e && i < g.Sets()
    ensures Distinct(Run(g, trace).sets[i]) && |Run(g, trace).sets[i]| <= g.e
  {
    if trace != [] {
      SetsStaySmall(g, trace[..|trace| - 1], i);
      var a := trace[|trace| - 1];
      TouchKeepsDistinct(Run(g, trace[..|trace| - 1]).sets[i], g.TagOf(a.addr), g.e);
    }
  }

  function References(trace: seq<Access>): int {
    if trace == [] then 0
    else References(trace[..|trace| - 1]) + Weight(trace[|trace| - 1].op)
  }

  function Weight(op: Op): int {
    match op
    case Ignored => 0
    case Modify => 2
    case _ => 1
  }

  /** What one more line adds to the references, and to the tags of set i. */
  lemma OneMoreLine(g: Geometry, trace: seq<Access>, addr: nat, i: nat)
    ensures References(trace + [Access(Ignored, addr)]) == References(trace)
    ensures References(trace + [Access(Load, addr)]) == References(trace) + 1
    ensures References(trace + [Access(Store, addr)]) == References(trace) + 1
    ensures References(trace + [Access(Modify, addr)]) == References(trace) + 2
    ensures TagsFor(g, trace + [Access(Ignored, addr)], i) == TagsFor(g, trace, i)
    ensures forall op :: op != Ignored ==>
      TagsFor(g, trace + [Access(op, addr)], i)
        == TagsFor(g, trace, i) + if addr / Pow2(g.b) % Pow2(g.s) == i then [addr / Pow2(g.s + g.b)] else []
  {
    SetAndTagInNumbers(g, addr);
    forall op ensures (trace + [Access(op, addr)])[..|trace|] == trace { }
    assert (trace + [Access(Ignored, addr)])[..|trace|] == trace;
    assert (trace + [Access(Load, addr)])[..|trace|] == trace;
    assert (trace + [Access(Store, addr)])[..|trace|] == trace;
    assert (trace + [Access(Modify, addr)])[..|trace|] == trace;
  }

  /** The number of valid lines. */
  function Lines(sets: seq<seq<int>>): int {
    if sets == [] then 0 else |sets[0]| + Lines(sets[1..])
  }

  lemma {:induction false} LinesUpdate(sets: seq<seq<int>>, i: nat, q: seq<int>)
    requires i < |sets|
    ensures Lines(sets[i := q]) == Lines(sets) - |sets[i]| + |q|
  {
    if i > 0 {
      LinesUpdate(sets[1..], i - 1, q);
      assert sets[i := q][1..] == sets[1..][i - 1 := q];
    }
  }

  lemma {:induction false} LinesBound(sets: seq<seq<int>>, e: nat)
    requires forall i :: 0 <= i < |sets| ==> |sets[i]| <= e
    ensures 0 <= Lines(sets) <= |sets| * e
  {
    if sets != [] {
      LinesBound(sets[1..], e);
      assert |sets| * e == e + (|sets| - 1) * e;
    }
  }

  lemma {:induction false} EmptyLines(n: nat)
    ensures Lines(seq(n, _ => [])) == 0
  {
    if n > 0 {
      EmptyLines(n - 1);
      assert seq<seq<int>>(n, _ => [])[1..] == seq(n - 1, _ => []);
    }
  }

  /** Every load, store and half of a modify is a hit or a miss; the misses that did not
      evict fill the valid lines, of which there are at most 2^s * e. */
  lemma {:induction false} CountersBalance(g: Geometry, trace: seq<Access>)
    requires 1 <= g.e
    ensures var sim := Run(g, trace);
      && sim.hits + sim.misses == References(trace)
      && sim.misses - sim.evicts == Lines(sim.sets)
      && 0 <= Lines(sim.sets) <= g.Sets() * g.e
  {
    forall i | 0 <= i < g.Sets() ensures |Run(g, trace).sets[i]| <= g.e { SetsStaySmall(g, trace, i); }
    LinesBound(Run(g, trace).sets, g.e);
    if trace == [] {
      EmptyLines(g.Sets());
    } else {
      var t', a := trace[..|trace| - 1], trace[|trace| - 1];
      CountersBalance(g, t');
      var i, t, sim := g.SetOf(a.addr), g.TagOf(a.addr), Run(g, t');
      SetsStaySmall(g, t', i);
      TouchKeepsDistinct(sim.sets[i], t, g.e);
      LinesUpdate(sim.sets, i, Touch(sim.sets[i], t, g.e));
    }
  }
}
