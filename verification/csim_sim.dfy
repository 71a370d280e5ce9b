/** The cache simulator itself: lines with time stamps, scanned and overwritten in place. */
module CacheSimulator {
  import opened LruModel
  import opened CacheTraces

  datatype Line = Line(valid: bool, tag: int, age: int)

  const MAX_CLOCK: int := 0x7FFF_FFFF

  // -------------------------------------------------------- a set and its recency order

  ghost predicate Used(row: seq<Line>, order: seq<int>, clock: int, k: int) {
    0 <= k < |order| ==>
      0 <= order[k] < |row| && row[order[k]].valid && 1 <= row[order[k]].age <= clock
  }

  ghost predicate InOrder(row: seq<Line>, order: seq<int>, k: int, l: int) {
    0 <= k < l < |order| && 0 <= order[k] < |row| && 0 <= order[l] < |row| ==>
      row[order[l]].age < row[order[k]].age && row[order[k]].tag != row[order[l]].tag
  }

  ghost predicate Blank(row: seq<Line>, order: seq<int>, j: int) {
    0 <= j < |row| && j !in order ==> !row[j].valid && row[j].age == 0
  }

  /** order lists the valid lines, most recent first: ages fall along it, tags do not
      repeat, and every other line is empty with age 0. */
  ghost predicate RowOk(row: seq<Line>, order: seq<int>, clock: int) {
    && (forall k {:trigger Used(row, order, clock, k)} :: Used(row, order, clock, k))
    && (forall k, l {:trigger InOrder(row, order, k, l)} :: InOrder(row, order, k, l))
    && (forall j {:trigger Blank(row, order, j)} :: Blank(row, order, j))
  }

  ghost function Tags(row: seq<Line>, order: seq<int>): (q: seq<int>)
    ensures |q| == |order|
    ensures forall k :: 0 <= k < |order| && 0 <= order[k] < |row| ==> q[k] == row[order[k]].tag
  {
    seq(|order|, k requires 0 <= k < |order| => if 0 <= order[k] < |row| then row[order[k]].tag else 0)
  }

  lemma TagsDistinct(row: seq<Line>, order: seq<int>, clock: int)
    requires RowOk(row, order, clock)
    ensures Distinct(Tags(row, order)) && Distinct(order)
  {
    forall k, l | 0 <= k < l < |order| ensures Tags(row, order)[k] != Tags(row, order)[l] && order[k] != order[l] {
      assert Used(row, order, clock, k) && Used(row, order, clock, l) && InOrder(row, order, k, l);
    }
  }

  /** Distinct numbers below n are at most n, and n of them only if none is missing. */
  lemma {:induction false} Pigeonhole(q: seq<int>, n: nat)
    requires Distinct(q) && forall x :: x in q ==> 0 <= x < n
    ensures |q| <= n
    ensures |q| == n <==> forall j :: 0 <= j < n ==> j in q
    decreases n
  {
    assert |q| == 0 || q[0] in q;
    if n > 0 {
      var w := Without(q, n - 1);
      WithoutFacts(q, n - 1);
      Pigeonhole(w, n - 1);
      if |q| == n {
        forall j | 0 <= j < n ensures j in q { assert j < n - 1 ==> j in w; }
      }
    }
  }

  /** As many lines are in the order as there are lines exactly when none is empty. */
  lemma OrderCount(row: seq<Line>, order: seq<int>, clock: int)
    requires RowOk(row, order, clock)
    ensures |order| <= |row|
    ensures |order| == |row| <==> forall j :: 0 <= j < |row| ==> row[j].valid
  {
    TagsDistinct(row, order, clock);
    forall x | x in order ensures 0 <= x < |row| && row[x].valid { var _ := LineOf(row, order, clock, x); }
    Pigeonhole(order, |row|);
    forall j | 0 <= j < |row| ensures row[j].valid <==> j in order { assert Blank(row, order, j); }
  }

  lemma LineOf(row: seq<Line>, order: seq<int>, clock: int, v: int) returns (k: int)
    requires RowOk(row, order, clock) && (v in order || (0 <= v < |row| && (row[v].valid || row[v].age != 0)))
    ensures 0 <= k < |order| && order[k] == v && 0 <= v < |row| && row[v].valid && 1 <= row[v].age <= clock
    ensures row[v].tag in Tags(row, order)
  {
    assert Blank(row, order, v);
    k :| 0 <= k < |order| && order[k] == v;
    assert Used(row, order, clock, k);
    assert Tags(row, order)[k] == row[v].tag;
  }

  ghost function Drop(s: seq<int>, k: int): (r: seq<int>)
    requires 0 <= k < |s|
    ensures |r| == |s| - 1
    ensures forall i :: 0 <= i < k ==> r[i] == s[i]
    ensures forall i :: k <= i < |r| ==> r[i] == s[i + 1]
  {
    s[..k] + s[k + 1..]
  }

  /** Where place i of the order with its k-th line moved to the front comes from. */
  function From(i: int, k: int): int {
    if i == 0 then k else if i - 1 < k then i - 1 else i
  }

  lemma FrontPlace(order: seq<int>, k: int, i: int)
    requires 0 <= k < |order| && 0 <= i < |order|
    ensures 0 <= From(i, k) < |order| && ([order[k]] + Drop(order, k))[i] == order[From(i, k)]
  { }

  /** Line v, at place k of the order, is refilled now: it moves to the front. */
  lemma MoveToFront(row: seq<Line>, order: seq<int>, clock: int, k: int, t: int)
    requires RowOk(row, order, clock) && 0 <= k < |order|
    requires forall l :: 0 <= l < |order| && l != k ==> Tags(row, order)[l] != t
    ensures 0 <= order[k] < |row|
    ensures var row', order' := row[order[k] := Line(true, t, clock + 1)], [order[k]] + Drop(order, k);
      RowOk(row', order', clock + 1) && Tags(row', order') == [t] + Drop(Tags(row, order), k)
  {
    assert Used(row, order, clock, k);
    var v := order[k];
    var row', order', clock' := row[v := Line(true, t, clock + 1)], [v] + Drop(order, k), clock + 1;
    forall i ensures Used(row', order', clock', i) {
      if 0 <= i < |order'| {
        FrontPlace(order, k, i);
        assert Used(row, order, clock, From(i, k));
      }
    }
    forall i, l ensures InOrder(row', order', i, l) { FrontInOrder(row, order, clock, k, t, i, l); }
    forall j ensures Blank(row', order', j) { FrontBlank(row, order, clock, k, t, j); }
    FrontTags(row, order, clock, k, t);
  }

  lemma FrontInOrder(row: seq<Line>, order: seq<int>, clock: int, k: int, t: int, i: int, l: int)
    requires RowOk(row, order, clock) && 0 <= k < |order| && 0 <= order[k] < |row|
    requires forall l :: 0 <= l < |order| && l != k ==> Tags(row, order)[l] != t
    ensures InOrder(row[order[k] := Line(true, t, clock + 1)], [order[k]] + Drop(order, k), i, l)
  {
    var q := Tags(row, order);
    TagsDistinct(row, order, clock);
    if 0 <= i < l < |order| {
      FrontPlace(order, k, i);
      FrontPlace(order, k, l);
      assert Used(row, order, clock, From(l, k)) && InOrder(row, order, From(i, k), From(l, k));
      assert q[From(l, k)] != t;
    }
  }

  lemma FrontBlank(row: seq<Line>, order: seq<int>, clock: int, k: int, t: int, j: int)
    requires 0 <= k < |order| && 0 <= order[k] < |row| && Blank(row, order, j)
    ensures Blank(row[order[k] := Line(true, t, clock + 1)], [order[k]] + Drop(order, k), j)
  {
    var order' := [order[k]] + Drop(order, k);
    if j in order && j != order[k] {
      var i :| 0 <= i < |order| && order[i] == j;
      assert order'[if i < k then i + 1 else i] == j;
    }
  }

  lemma FrontTags(row: seq<Line>, order: seq<int>, clock: int, k: int, t: int)
    requires RowOk(row, order, clock) && 0 <= k < |order| && 0 <= order[k] < |row|
    ensures var row', order' := row[order[k] := Line(true, t, clock + 1)], [order[k]] + Drop(order, k);
      Tags(row', order') == [t] + Drop(Tags(row, order), k)
  {
    var row', order' := row[order[k] := Line(true, t, clock + 1)], [order[k]] + Drop(order, k);
    var q, q' := Tags(row, order), Tags(row', order');
    TagsDistinct(row, order, clock);
    forall i | 0 < i < |q'| ensures q'[i] == Drop(q, k)[i - 1] {
      FrontPlace(order, k, i);
      assert Used(row, order, clock, From(i, k));
    }
  }

  /** A hit moves the line's tag to the front. */
  lemma HitTouches(row: seq<Line>, order: seq<int>, clock: int, v: int) returns (order': seq<int>)
    requires RowOk(row, order, clock) && 0 <= v < |row| && row[v].valid
    ensures var row' := row[v := row[v].(age := clock + 1)];
      && RowOk(row', order', clock + 1)
      && Tags(row', order') == Touch(Tags(row, order), row[v].tag, |row|)
    ensures row[v].tag in Tags(row, order)
  {
    var k := LineOf(row, order, clock, v);
    var q := Tags(row, order);
    TagsDistinct(row, order, clock);
    MoveToFront(row, order, clock, k, row[v].tag);
    order' := [v] + Drop(order, k);
    WithoutAt(q, k);
    OrderCount(row, order, clock);
    assert row[v].(age := clock + 1) == Line(true, row[v].tag, clock + 1);
  }

  /** A miss that fills an empty line pushes its tag on the front. */
  lemma FillTouches(row: seq<Line>, order: seq<int>, clock: int, v: int, t: int) returns (order': seq<int>)
    requires RowOk(row, order, clock) && 0 <= v < |row| && !row[v].valid && 0 <= clock
    requires t !in Tags(row, order)
    ensures var row' := row[v := Line(true, t, clock + 1)];
      RowOk(row', order', clock + 1) && Tags(row', order') == Touch(Tags(row, order), t, |row|)
    ensures |order| < |row|
  {
    order' := [v] + order;
    var row', clock' := row[v := Line(true, t, clock + 1)], clock + 1;
    var q, q' := Tags(row, order), Tags(row', order');
    forall i | 0 <= i < |order| ensures order[i] != v && 0 <= order[i] < |row| { assert Used(row, order, clock, i); }
    forall i ensures Used(row', order', clock', i) {
      assert Used(row, order, clock, i - 1);
      assert 0 < i < |order'| ==> order'[i] == order[i - 1];
    }
    forall i, l ensures InOrder(row', order', i, l) {
      if 0 <= i < l < |order'| {
        assert order'[l] == order[l - 1] && Used(row, order, clock, l - 1);
        assert q[l - 1] in q;
        if i > 0 { assert order'[i] == order[i - 1] && InOrder(row, order, i - 1, l - 1); }
      }
    }
    forall j ensures Blank(row', order', j) {
      assert Blank(row, order, j);
      if j in order {
        var i :| 0 <= i < |order| && order[i] == j;
        assert order'[i + 1] == j;
      }
    }
    forall i | 0 < i < |q'| ensures q'[i] == q[i - 1] { assert order'[i] == order[i - 1]; }
    assert q' == [t] + q;
    WithoutFacts(q, t);
    OrderCount(row, order, clock);
  }

  /** A miss in a full set replaces the line of least age, which is the last of the order. */
  lemma EvictTouches(row: seq<Line>, order: seq<int>, clock: int, v: int, t: int) returns (order': seq<int>)
    requires RowOk(row, order, clock) && 0 <= v < |row| && row[v].valid
    requires forall j :: 0 <= j < |row| ==> row[v].age <= row[j].age
    requires t !in Tags(row, order)
    ensures var row' := row[v := Line(true, t, clock + 1)];
      RowOk(row', order', clock + 1) && Tags(row', order') == Touch(Tags(row, order), t, |row|)
    ensures |order| == |row|
  {
    var k := LineOf(row, order, clock, v);
    var q := Tags(row, order);
    var last := |order| - 1;
    assert Used(row, order, clock, last) && InOrder(row, order, k, last);
    assert k == last;
    forall l | 0 <= l < |q| && l != k ensures q[l] != t { assert q[l] in q; }
    MoveToFront(row, order, clock, k, t);
    order' := [v] + Drop(order, k);
    forall j | 0 <= j < |row| ensures row[j].valid {
      assert Blank(row, order, j);
      var _ := LineOf(row, order, clock, j);
    }
    OrderCount(row, order, clock);
    WithoutFacts(q, t);
    assert Drop(q, k) == q[..last];
    assert Take([t] + q, |row|) == [t] + q[..last];
  }

  // ------------------------------------------------------------------ the simulator

  class CacheSim {
    const g: Geometry
    const lines: array2<Line>
    var hits: int
    var misses: int
    var evicts: int
    var currTime: int
    ghost var orders: seq<seq<int>>

    ghost function Row(i: int): (r: seq<Line>)
      requires 0 <= i < lines.Length0
      reads lines
      ensures |r| == lines.Length1
    {
      seq(lines.Length1, j requires 0 <= j < lines.Length1 reads lines => lines[i, j])
    }

    ghost predicate Valid()
      reads this, lines
    {
      && lines.Length0 == g.Sets() == |orders| && lines.Length1 == g.e && 1 <= g.e
      && 0 <= currTime
      && forall i :: 0 <= i < g.Sets() ==> RowOk(Row(i), orders[i], currTime)
    }

    /** The recency lists and counters this simulator stands for. */
    ghost function Abstract(): Sim
      requires Valid()
      reads this, lines
    {
      var os := orders;
      Sim(seq(g.Sets(), i requires 0 <= i < |os| && i < lines.Length0 reads lines => Tags(Row(i), os[i])),
          hits, misses, evicts)
    }

    constructor (s: nat, e: nat, b: nat)
      requires 1 <= e
      ensures Valid() && fresh(lines) && g == Geometry(s, e, b)
      ensures Abstract() == Start(g) && currTime == 0
    {
      g := Geometry(s, e, b);
      lines := new Line[Pow2(s), e]((i, j) => Line(false, 0, 0));
      hits, misses, evicts, currTime := 0, 0, 0, 0;
      orders := seq(Pow2(s), i => []);
    }

    ghost predicate Shaped()
      reads this
    {
      lines.Length0 == g.Sets() && lines.Length1 == g.e && 1 <= g.e
    }

    /** The hit scan: the first valid line with the tag, if any. */
    method FindTag(index: nat, tag: int) returns (hit: bool, v: nat)
      requires Shaped() && index < g.Sets()
      ensures hit ==> v < g.e && Row(index)[v].valid && Row(index)[v].tag == tag
      ensures !hit ==> forall j :: 0 <= j < g.e && Row(index)[j].valid ==> Row(index)[j].tag != tag
    {
      hit, v := false, 0;
      for i := 0 to g.e
        invariant forall j :: 0 <= j < i && Row(index)[j].valid ==> Row(index)[j].tag != tag
        invariant !hit
      {
        if lines[index, i].tag == tag {
          if lines[index, i].valid {
            return true, i;
          }
        }
      }
    }

    /** The victim scan: the first line of least age. */
    method FindOldest(index: nat) returns (v: nat)
      requires Shaped() && index < g.Sets()
      ensures v < g.e
      ensures forall j :: 0 <= j < g.e ==> Row(index)[v].age <= Row(index)[j].age
      ensures forall j :: 0 <= j < v ==> Row(index)[v].age < Row(index)[j].age
    {
      v := 0;
      var minAge := lines[index, 0].age;
      for i := 0 to g.e
        invariant v < g.e && v <= i && minAge == Row(index)[v].age
        invariant forall j :: 0 <= j < i ==> minAge <= Row(index)[j].age
        invariant forall j :: 0 <= j < v ==> minAge < Row(index)[j].age
      {
        if lines[index, i].age < minAge {
          minAge := lines[index, i].age;
          v := i;
        }
      }
    }

    /** Only row index differs from what old rows rs say. */
    ghost predicate OnlyRow(rs: seq<seq<Line>>, index: int, row: seq<Line>)
      reads this, lines
    {
      && Shaped() && |rs| == g.Sets() && 0 <= index < |rs|
      && forall i :: 0 <= i < |rs| ==> Row(i) == if i == index then row else rs[i]
    }

    ghost function Rows(): (rs: seq<seq<Line>>)
      requires Shaped()
      reads this, lines
      ensures |rs| == g.Sets()
      ensures forall i :: 0 <= i < |rs| ==> rs[i] == Row(i)
    {
      seq(g.Sets(), i requires 0 <= i < lines.Length0 reads lines => Row(i))
    }

    /** A hit stamps its line; the other lines and rows stay. */
    method Stamp(index: nat, v: nat)
      requires Shaped() && index < g.Sets() && v < g.e
      modifies lines
      ensures OnlyRow(old(Rows()), index, old(Row(index))[v := old(Row(index))[v].(age := currTime)])
    {
      lines[index, v] := lines[index, v].(age := currTime);
      assert Row(index) == old(Row(index))[v := old(Row(index))[v].(age := currTime)];
      forall i | 0 <= i < g.Sets() && i != index ensures Row(i) == old(Row(i)) { }
    }

    /** A miss overwrites its victim; replacing a valid line counts an eviction. */
    method Refill(index: nat, v: nat, tag: int)
      requires Shaped() && index < g.Sets() && v < g.e
      modifies lines, `evicts
      ensures OnlyRow(old(Rows()), index, old(Row(index))[v := Line(true, tag, currTime)])
      ensures evicts == old(evicts) + if old(Row(index))[v].valid then 1 else 0
    {
      lines[index, v] := lines[index, v].(age := currTime);
      lines[index, v] := lines[index, v].(tag := tag);
      if lines[index, v].valid {
        evicts := evicts + 1;
      } else {
        lines[index, v] := lines[index, v].(valid := true);
      }
      assert Row(index) == old(Row(index))[v := Line(true, tag, currTime)];
      forall i | 0 <= i < g.Sets() && i != index ensures Row(i) == old(Row(i)) { }
    }

    /** The line found becomes the most recent. */
    method Hit(index: nat, v: nat, ghost row: seq<Line>, ghost order: seq<int>, ghost clock: int)
      returns (ghost order': seq<int>)
      requires Shaped() && index < g.Sets() && v < g.e && row == Row(index) && RowOk(row, order, clock) && row[v].valid
      requires 0 <= clock && currTime == clock + 1
      modifies lines, `hits
      ensures OnlyRow(old(Rows()), index, Row(index)) && RowOk(Row(index), order', clock + 1)
      ensures Tags(Row(index), order') == Touch(Tags(row, order), row[v].tag, g.e)
      ensures row[v].tag in Tags(row, order) && hits == old(hits) + 1
    {
      order' := HitTouches(row, order, clock, v);
      Stamp(index, v);
      hits := hits + 1;
    }

    /** The victim is the first line of least age: an empty line if there is one. */
    method Miss(index: nat, tag: int, ghost row: seq<Line>, ghost order: seq<int>, ghost clock: int)
      returns (ghost order': seq<int>)
      requires Shaped() && index < g.Sets() && row == Row(index) && RowOk(row, order, clock)
      requires 0 <= clock && currTime == clock + 1
      requires forall j :: 0 <= j < |row| && row[j].valid ==> row[j].tag != tag
      modifies lines, `misses, `evicts
      ensures OnlyRow(old(Rows()), index, Row(index)) && RowOk(Row(index), order', clock + 1)
      ensures Tags(Row(index), order') == Touch(Tags(row, order), tag, g.e)
      ensures tag !in Tags(row, order) && misses == old(misses) + 1
      ensures evicts == old(evicts) + if |order| == g.e then 1 else 0
    {
      NoLineNoTag(row, order, clock, tag);
      misses := misses + 1;
      var v := FindOldest(index);
      assert Row(index) == row;
      if row[v].valid {
        order' := EvictTouches(row, order, clock, v, tag);
      } else {
        order' := FillTouches(row, order, clock, v, tag);
      }
      Refill(index, v, tag);
    }

    /** One load or store. */
    method Refer(addr: nat)
      requires Valid() && currTime < MAX_CLOCK
      modifies this, lines
      ensures Valid() && currTime == old(currTime) + 1
      ensures Abstract() == Reference(g, old(Abstract()), addr)
    {
      ghost var clock, before, rs, os := currTime, Abstract(), Rows(), orders;
      currTime := currTime + 1;
      var index, tag := g.SetOf(addr), g.TagOf(addr);
      ghost var row, order, order' := Row(index), orders[index], [];
      assert RowOk(row, order, clock) && before.sets[index] == Tags(row, order);
      var hit, v := FindTag(index, tag);
      assert Row(index) == row;
      if hit {
        order' := Hit(index, v, row, order, clock);
      } else {
        order' := Miss(index, tag, row, order, clock);
      }
      ghost var row' := Row(index);
      orders := orders[index := order'];
      Refresh(rs, os, index, row', order', clock);
      assert Abstract().sets == before.sets[index := Tags(row', order')];
    }

    /** The rows not touched are as good a tick later. */
    lemma Refresh(rs: seq<seq<Line>>, os: seq<seq<int>>, index: int, row': seq<Line>, order': seq<int>, clock: int)
      requires OnlyRow(rs, index, row') && |os| == |rs| && orders == os[index := order']
      requires currTime == clock + 1 && 0 <= clock
      requires forall i :: 0 <= i < |rs| ==> RowOk(rs[i], os[i], clock)
      requires RowOk(row', order', clock + 1)
      ensures Valid()
    {
      forall i | 0 <= i < g.Sets() ensures RowOk(Row(i), orders[i], currTime) {
        if i != index { Later(rs[i], os[i], clock); }
      }
    }

    /** One line of the trace. */
    method Access(a: Access)
      requires Valid() && currTime < MAX_CLOCK
      modifies this, lines
      ensures Valid() && currTime <= old(currTime) + 1
      ensures Abstract() == Step(g, old(Abstract()), a)
    {
      match a.op
      case Ignored =>
      case Modify =>
        ghost var before := Abstract();
        hits := hits + 1;
        assert Abstract() == before.(hits := before.hits + 1);
        Refer(a.addr);
      case _ => Refer(a.addr);
    }

    /** The whole trace, from an empty cache. */
    method Simulate(trace: seq<Access>)
      requires Valid() && Abstract() == Start(g) && currTime + |trace| <= MAX_CLOCK
      modifies this, lines
      ensures Valid() && Abstract() == Run(g, trace)
      ensures hits == Run(g, trace).hits && misses == Run(g, trace).misses && evicts == Run(g, trace).evicts
    {
      for k := 0 to |trace|
        invariant Valid() && Abstract() == Run(g, trace[..k])
        invariant currTime <= old(currTime) + k
      {
        Access(trace[k]);
        assert trace[..k + 1][..k] == trace[..k];
      }
      assert trace[..|trace|] == trace;
    }
  }

  lemma Later(row: seq<Line>, order: seq<int>, clock: int)
    requires RowOk(row, order, clock)
    ensures RowOk(row, order, clock + 1)
  {
    var clock' := clock + 1;
    forall k ensures Used(row, order, clock', k) { assert Used(row, order, clock, k); }
  }

  lemma NoLineNoTag(row: seq<Line>, order: seq<int>, clock: int, t: int)
    requires RowOk(row, order, clock)
    requires forall j :: 0 <= j < |row| && row[j].valid ==> row[j].tag != t
    ensures t !in Tags(row, order)
  {
    forall k | 0 <= k < |order| ensures Tags(row, order)[k] != t { assert Used(row, order, clock, k); }
  }
}
