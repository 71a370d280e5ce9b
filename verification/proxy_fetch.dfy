/** How the proxy fetches an object: line by line, forwarding every line and keeping those that fit. */
module ObjectFetch {
  import opened LruModel
  import opened Rio
  import opened ObjectCacheModel

  const MAXLINE := 8192

  /** The bytes rio_readlineb counts for the next line: those it stores, and at times the terminator. */
  function Counted(u: seq<Byte>, maxlen: nat): (c: seq<Byte>)
    ensures |c| == LineCount(u, maxlen)
  {
    var l := NextLine(u, maxlen);
    if LineCount(u, maxlen) > |l| then l + [0] else l
  }

  /** The response as the fetching loop sees it. */
  function Chunks(u: seq<Byte>, maxlen: nat): seq<seq<Byte>>
    requires 2 <= maxlen
    decreases |u|
  {
    if u == [] then [] else [Counted(u, maxlen)] + Chunks(u[|NextLine(u, maxlen)|..], maxlen)
  }

  /** What goes to the client. */
  function Forwarded(u: seq<Byte>): seq<Byte> { Flatten(Chunks(u, MAXLINE)) }

  /** The chunks that fit behind size bytes, each one skipped that would exceed the limit. */
  function Kept(chunks: seq<seq<Byte>>, size: nat): seq<Byte> {
    if chunks == [] then []
    else if size + |chunks[0]| <= MAX_OBJECT_SIZE then chunks[0] + Kept(chunks[1..], size + |chunks[0]|)
    else Kept(chunks[1..], size)
  }

  /** What goes to the cache. */
  function Object(u: seq<Byte>): seq<Byte> { Kept(Chunks(u, MAXLINE), 0) }

  /** A line counts with one byte more, the terminator, unless it ends with a newline. */
  lemma CountedIs(u: seq<Byte>, maxlen: nat)
    requires 2 <= maxlen && u != []
    ensures Counted(u, maxlen)
         == NextLine(u, maxlen) + if NEWLINE in u[..Min(maxlen - 1, |u|)] then [] else [0]
  {
    CountIsLengthOrMore(u, maxlen);
  }

  /** The first chunk is kept if and only if it fits, and then the others are looked at in the same way. */
  lemma KeptOrSkipped(chunks: seq<seq<Byte>>, size: nat)
    requires chunks != []
    ensures size + |chunks[0]| <= 102400 ==>
      Kept(chunks, size) == chunks[0] + Kept(chunks[1..], size + |chunks[0]|)
    ensures size + |chunks[0]| > 102400 ==> Kept(chunks, size) == Kept(chunks[1..], size)
  { }

  /** So an object can have a gap: a line that does not fit is left out, and a shorter one behind it is kept. */
  lemma KeptWithGap(a: seq<Byte>, b: seq<Byte>, c: seq<Byte>)
    requires |a| + |b| > 102400 >= |a| + |c|
    ensures Kept([a, b, c], 0) == a + c
  {
    assert [a, b, c][1..] == [b, c] && [b, c][1..] == [c] && [c][1..] == [];
    assert Kept([c], |a|) == c + Kept([], |a| + |c|);
    assert Kept([a, b, c], 0) == a + Kept([b, c], |a|);
    assert a + (c + []) == a + c;
  }

  /** The object always fits the limit, and is all that was forwarded exactly when that fits. */
  lemma {:induction false} KeptIsAll(chunks: seq<seq<Byte>>, size: nat)
    requires size <= MAX_OBJECT_SIZE
    ensures size + |Kept(chunks, size)| <= MAX_OBJECT_SIZE
    ensures Kept(chunks, size) == Flatten(chunks) <==> size + |Flatten(chunks)| <= MAX_OBJECT_SIZE
    decreases |chunks|
  {
    if chunks != [] {
      var c := chunks[0];
      if size + |c| <= MAX_OBJECT_SIZE {
        KeptIsAll(chunks[1..], size + |c|);
        var k, f := Kept(chunks[1..], size + |c|), Flatten(chunks[1..]);
        assert (c + k)[|c|..] == k && (c + f)[|c|..] == f;
      } else {
        KeptIsAll(chunks[1..], size);
      }
    }
  }

  /** The proxy caches what it forwards if and only if that is not too long. */
  lemma CachedIsForwarded(u: seq<Byte>)
    ensures |Object(u)| <= 102400
    ensures Object(u) == Forwarded(u) <==> |Forwarded(u)| <= 102400
  {
    KeptIsAll(Chunks(u, MAXLINE), 0);
  }

  // ------------------------------------------------------- what is forwarded

  /** Every line ends with a newline within the room of the line buffer. */
  ghost predicate Tidy(u: seq<Byte>, maxlen: nat)
    requires 2 <= maxlen
  {
    && (u != [] ==> u[|u| - 1] == NEWLINE)
    && forall i :: 0 <= i && i + maxlen - 1 <= |u| ==> NEWLINE in u[i..][..maxlen - 1]
  }

  /** What is forwarded is the response if and only if every line of it is ended and short
      enough; each line that is not puts a NUL into it. */
  lemma {:induction false} ForwardedIsResponse(u: seq<Byte>, maxlen: nat)
    requires 2 <= maxlen
    ensures |Flatten(Chunks(u, maxlen))| >= |u|
    ensures Flatten(Chunks(u, maxlen)) == u <==> Tidy(u, maxlen)
    ensures !Tidy(u, maxlen) ==> |u| < |Flatten(Chunks(u, maxlen))|
    decreases |u|
  {
    if u != [] {
      var l := NextLine(u, maxlen);
      var v := u[|l|..];
      ForwardedIsResponse(v, maxlen);
      assert u == l + v by { LineFacts(u, Room(maxlen)); }
      assert Chunks(u, maxlen)[1..] == Chunks(v, maxlen);
      TidyLine(u, maxlen);
      var c, f := Counted(u, maxlen), Flatten(Chunks(v, maxlen));
      if EndsLine(l) {
        assert (l + f)[|l|..] == f;
      } else {
        assert |c + f| > |u|;
      }
    }
  }

  lemma TidyLine(u: seq<Byte>, maxlen: nat)
    requires 2 <= maxlen && u != []
    ensures var l := NextLine(u, maxlen);
      Tidy(u, maxlen) <==> EndsLine(l) && Tidy(u[|l|..], maxlen)
  {
    var l := NextLine(u, maxlen);
    if Tidy(u, maxlen) { TidySplits(u, maxlen); }
    if EndsLine(l) && Tidy(u[|l|..], maxlen) { TidyJoins(u, maxlen); }
  }

  lemma TidySplits(u: seq<Byte>, maxlen: nat)
    requires 2 <= maxlen && u != [] && Tidy(u, maxlen)
    ensures var l := NextLine(u, maxlen);
      EndsLine(l) && Tidy(u[|l|..], maxlen)
  {
    var l, m := NextLine(u, maxlen), maxlen - 1;
    var v := u[|l|..];
    LineEnds(u, m);
    if |u| >= m {
      assert u[0..] == u;
      assert NEWLINE in u[0..][..m];
    } else {
      assert u[..|u|] == u && u[|u| - 1] in u;
    }
    forall i | 0 <= i && i + m <= |v| ensures NEWLINE in v[i..][..m] {
      assert u[|l| + i..] == v[i..];
      assert NEWLINE in u[|l| + i..][..m];
    }
  }

  lemma TidyJoins(u: seq<Byte>, maxlen: nat)
    requires 2 <= maxlen && u != []
    requires var l := NextLine(u, maxlen); EndsLine(l) && Tidy(u[|l|..], maxlen)
    ensures Tidy(u, maxlen)
  {
    var l, m := NextLine(u, maxlen), maxlen - 1;
    var v := u[|l|..];
    LineFacts(u, m);
    assert u[|l| - 1] == l[|l| - 1];
    assert v != [] ==> u[|u| - 1] == v[|v| - 1];
    forall i | 0 <= i && i + m <= |u| ensures NEWLINE in u[i..][..m] {
      if i < |l| {
        assert u[i..][..m][|l| - 1 - i] == u[|l| - 1];
      } else {
        assert u[i..] == v[i - |l|..];
        assert NEWLINE in v[i - |l|..][..m];
      }
    }
  }

  /** A tidy response is cached as it is if and only if it is not too long. */
  lemma CachedIsResponse(u: seq<Byte>)
    requires Tidy(u, 8192)
    ensures Forwarded(u) == u
    ensures Object(u) == u <==> |u| <= 102400
  {
    ForwardedIsResponse(u, MAXLINE);
    CachedIsForwarded(u);
  }

  // ----------------------------------------------------- two responses changed

  /** A response of one byte and no newline reaches the client with a NUL behind it. */
  lemma UnendedLine(c: Byte, maxlen: nat)
    requires c != NEWLINE && 2 <= maxlen
    ensures Flatten(Chunks([c], maxlen)) == [c, 0]
  {
    CountExceedsLength(c, maxlen);
    assert Counted([c], maxlen) == [c] + [0];
    assert [c][1..] == [];
    assert Chunks([c], maxlen) == [Counted([c], maxlen)] + Chunks([], maxlen);
    assert Flatten(Chunks([c], maxlen)) == Counted([c], maxlen) + Flatten(Chunks([c], maxlen)[1..]);
  }

  function Newlines(n: nat): seq<Byte> { if n == 0 then [] else [NEWLINE] + Newlines(n - 1) }

  /** A response of n empty lines is cached up to the limit, and what is left is dropped without a trace. */
  lemma {:induction false} LongResponse(n: nat, maxlen: nat, size: nat)
    requires 2 <= maxlen && size <= MAX_OBJECT_SIZE
    ensures Flatten(Chunks(Newlines(n), maxlen)) == Newlines(n)
    ensures Kept(Chunks(Newlines(n), maxlen), size) == Newlines(Min(n, MAX_OBJECT_SIZE - size))
  {
    if n > 0 {
      var u := Newlines(n);
      LineIs(u, Room(maxlen), 1);
      assert Counted(u, maxlen) == [NEWLINE];
      assert u[1..] == Newlines(n - 1);
      assert Chunks(u, maxlen)[1..] == Chunks(Newlines(n - 1), maxlen);
      LongResponse(n - 1, maxlen, if size < MAX_OBJECT_SIZE then size + 1 else size);
    }
  }

  /** So a response of n empty lines is cached up to 102400 bytes. */
  lemma LongObject(n: nat)
    ensures Forwarded(Newlines(n)) == Newlines(n)
    ensures Object(Newlines(n)) == Newlines(if n < 102400 then n else 102400)
  {
    LongResponse(n, MAXLINE, 0);
  }

  // ---------------------------------------------------------------- whole runs

  /** A request: the object asked for, and what the server would answer now. */
  datatype Request = Request(uri: string, response: seq<Byte>)

  function Fetched(r: Request): Entry { Entry(r.uri, Object(r.response), |Object(r.response)|) }

  function AllFetched(rs: seq<Request>): (es: seq<Entry>)
    ensures |es| == |rs| && forall i :: 0 <= i < |rs| ==> es[i] == Fetched(rs[i])
  {
    seq(|rs|, i requires 0 <= i < |rs| => Fetched(rs[i]))
  }

  function Uris(rs: seq<Request>): (ids: seq<string>)
    ensures |ids| == |rs| && forall i :: 0 <= i < |rs| ==> ids[i] == rs[i].uri
  {
    seq(|rs|, i requires 0 <= i < |rs| => rs[i].uri)
  }

  /** Every object fetched is short enough to be cached, so all requests count. */
  lemma {:induction false} HistoryIsUris(rs: seq<Request>)
    ensures History(AllFetched(rs)) == Uris(rs)
  {
    if rs != [] {
      var k := |rs| - 1;
      HistoryIsUris(rs[..k]);
      CachedIsForwarded(rs[k].response);
      var es := AllFetched(rs);
      assert es[k] == Fetched(rs[k]) && es[k].size <= MAX_OBJECT_SIZE && es[k].id == rs[k].uri;
      assert es[..k] == AllFetched(rs[..k]);
      assert History(es) == History(es[..k]) + [rs[k].uri];
      assert Uris(rs) == Uris(rs[..k]) + [rs[k].uri];
    }
  }

  /** After any run of requests the cache holds the most recently requested objects, in order
      of their last request, within the budget. */
  lemma ProxyHoldsMostRecent(rs: seq<Request>)
    ensures var q := ServeAll(AllFetched(rs));
      Ids(q) <= Recency(Uris(rs)) && Distinct(Ids(q)) && Total(q) <= 1049000
  {
    HistoryIsUris(rs);
    CacheIsMostRecent(AllFetched(rs));
  }

  /** And when each object always has one size, it holds as many of them as fit. */
  lemma ProxyHoldsAllThatFit(rs: seq<Request>, size: string -> nat, k: nat)
    requires forall r :: r in rs ==> |Object(r.response)| == size(r.uri)
    requires k <= |Recency(Uris(rs))|
    ensures k <= |ServeAll(AllFetched(rs))| <==> SumOf(Recency(Uris(rs))[..k], size) <= 1049000
  {
    HistoryIsUris(rs);
    CacheIsLongestPrefix(AllFetched(rs), size, k);
  }
}
