/** Least-recently-used sets in the abstract: recency lists and the stack property. */
module LruModel {

  // ---------------------------------------------------------------- recency lists

  ghost predicate Distinct<T>(q: seq<T>) {
    forall i, j :: 0 <= i < j < |q| ==> q[i] != q[j]
  }

  function Without<T(==)>(q: seq<T>, t: T): seq<T> {
    if q == [] then [] else if q[0] == t then Without(q[1..], t) else [q[0]] + Without(q[1..], t)
  }

  function Take<T>(q: seq<T>, e: nat): seq<T> {
    if |q| <= e then q else q[..e]
  }

  /** All tags of a history, most recent first. */
  function Recency<T(==)>(history: seq<T>): seq<T> {
    if history == [] then []
    else
      var t := history[|history| - 1];
      [t] + Without(Recency(history[..|history| - 1]), t)
  }

  /** One access to a set of e lines that holds q, most recent first. */
  function Touch<T(==)>(q: seq<T>, t: T, e: nat): seq<T> {
    Take([t] + Without(q, t), e)
  }

  lemma {:induction false} WithoutFacts<T>(q: seq<T>, t: T)
    ensures t !in Without(q, t)
    ensures forall u :: u in Without(q, t) <==> u in q && u != t
    ensures |Without(q, t)| <= |q|
    ensures t !in q ==> Without(q, t) == q
    ensures Distinct(q) ==> Distinct(Without(q, t)) && |Without(q, t)| == |q| - (if t in q then 1 else 0)
  {
    if q != [] {
      WithoutFacts(q[1..], t);
      assert q == [q[0]] + q[1..];
      if Distinct(q) {
        assert q[0] !in q[1..] by { assert forall j :: 0 < j < |q| ==> q[j] == q[1..][j - 1]; }
        assert Distinct(q[1..]);
        assert q[0] !in Without(q[1..], t);
      }
    }
  }

  /** Dropping a tag at a known place of a list without repeats. */
  lemma {:induction false} WithoutAt<T>(q: seq<T>, k: nat)
    requires Distinct(q) && k < |q|
    ensures Without(q, q[k]) == q[..k] + q[k + 1..]
  {
    if k == 0 {
      assert q[k] !in q[1..];
      WithoutFacts(q[1..], q[k]);
    } else {
      WithoutAt(q[1..], k - 1);
      assert q[1..][k - 1] == q[k];
      assert q[..k] + q[k + 1..] == [q[0]] + (q[1..][..k - 1] + q[1..][k..]);
    }
  }

  lemma {:induction false} RecencyFacts<T>(history: seq<T>)
    ensures Distinct(Recency(history))
    ensures forall t :: t in Recency(history) <==> t in history
  {
    if history != [] {
      var h', t := history[..|history| - 1], history[|history| - 1];
      RecencyFacts(h');
      WithoutFacts(Recency(h'), t);
      assert history == h' + [t];
    }
  }

  /** The index of the last use of a tag. */
  function LastUse<T(==)>(history: seq<T>, t: T): int {
    if history == [] then -1
    else if history[|history| - 1] == t then |history| - 1
    else LastUse(history[..|history| - 1], t)
  }

  lemma {:induction false} LastUseFacts<T>(history: seq<T>, t: T)
    ensures -1 <= LastUse(history, t) < |history|
    ensures t in history <==> 0 <= LastUse(history, t)
    ensures 0 <= LastUse(history, t) ==> history[LastUse(history, t)] == t
    ensures forall i :: LastUse(history, t) < i < |history| ==> history[i] != t
  {
    if history != [] {
      var h' := history[..|history| - 1];
      LastUseFacts(h', t);
      assert history == h' + [history[|history| - 1]];
    }
  }

  /** The recency list is the history's tags in falling order of last use. */
  lemma {:induction false} RecencyByLastUse<T>(history: seq<T>, i: nat, j: nat)
    requires i < j < |Recency(history)|
    ensures LastUse(history, Recency(history)[j]) < LastUse(history, Recency(history)[i])
  {
    var h', t := history[..|history| - 1], history[|history| - 1];
    var w := Without(Recency(h'), t);
    var b := w[j - 1];
    assert Recency(history)[j] == b;
    NotLast(history, t, b);
    if i > 0 {
      var a := w[i - 1];
      assert Recency(history)[i] == a;
      NotLast(history, t, a);
      var i', j' := WithoutKeepsOrder(Recency(h'), t, i - 1, j - 1);
      RecencyByLastUse(h', i', j');
    }
  }

  lemma NotLast<T>(history: seq<T>, t: T, u: T)
    requires history != [] && t == history[|history| - 1] && u in Without(Recency(history[..|history| - 1]), t)
    ensures LastUse(history, u) == LastUse(history[..|history| - 1], u) < |history| - 1
  {
    WithoutFacts(Recency(history[..|history| - 1]), t);
    LastUseFacts(history[..|history| - 1], u);
  }

  lemma {:induction false} WithoutKeepsOrder<T>(q: seq<T>, t: T, i: nat, j: nat) returns (i': nat, j': nat)
    requires i < j < |Without(q, t)|
    ensures i' < j' < |q| && q[i'] == Without(q, t)[i] && q[j'] == Without(q, t)[j]
  {
    if q[0] == t {
      i', j' := WithoutKeepsOrder(q[1..], t, i, j);
      i', j' := i' + 1, j' + 1;
    } else if i > 0 {
      i', j' := WithoutKeepsOrder(q[1..], t, i - 1, j - 1);
      i', j' := i' + 1, j' + 1;
    } else {
      j' := PlaceIn(q[1..], t, j - 1);
      i', j' := 0, j' + 1;
    }
  }

  lemma {:induction false} PlaceIn<T>(q: seq<T>, t: T, j: nat) returns (k: nat)
    requires j < |Without(q, t)|
    ensures k < |q| && q[k] == Without(q, t)[j]
  {
    if q[0] == t {
      k := PlaceIn(q[1..], t, j);
      k := k + 1;
    } else if j == 0 {
      k := 0;
    } else {
      k := PlaceIn(q[1..], t, j - 1);
      k := k + 1;
    }
  }

  // ------------------------------------------------------------- the stack property

  lemma {:induction false} WithoutPrefix<T>(q: seq<T>, t: T, e: nat)
    requires Distinct(q) && e <= |q|
    ensures Without(q[..e], t) == Take(Without(q, t), if t in q[..e] then e - 1 else e)
  {
    WithoutFacts(q, t);
    WithoutFacts(q[..e], t);
    if t in q {
      var k :| 0 <= k < |q| && q[k] == t;
      WithoutAt(q, k);
      if k < e {
        assert q[..e][k] == t;
        WithoutAt(q[..e], k);
        assert q[..e][..k] + q[..e][k + 1..] == (q[..k] + q[k + 1..])[..e - 1];
      } else {
        assert t !in q[..e];
        assert (q[..k] + q[k + 1..])[..e] == q[..k][..e] == q[..e];
      }
    }
  }

  /** Keeping only the e most recent before an access loses nothing: the e most
      recent afterwards are the same. */
  lemma TouchCommutesWithTake<T>(q: seq<T>, t: T, e: nat)
    requires Distinct(q) && 1 <= e
    ensures Touch(Take(q, e), t, e) == Take([t] + Without(q, t), e)
  {
    WithoutFacts(q, t);
    if |q| > e {
      WithoutPrefix(q, t, e);
      WithoutFacts(q[..e], t);
      FrontOfPrefix(Without(q, t), Without(q[..e], t), t, e, if t in q[..e] then e - 1 else e);
    }
  }

  lemma FrontOfPrefix<T>(w: seq<T>, w': seq<T>, t: T, e: nat, k: nat)
    requires 1 <= e && e - 1 <= k <= e && e - 1 <= |w| && w' == Take(w, k) && |w'| == k
    ensures Take([t] + w', e) == Take([t] + w, e)
  {
    assert ([t] + w)[..e] == [t] + w[..e - 1];
    assert ([t] + w')[..e] == [t] + w'[..e - 1];
  }
}
