/** The proxy's requests: looked up, served from the cache, or fetched, forwarded and cached. */
module Proxy {
  import opened Rio
  import opened ObjectCacheModel
  import opened ObjectCache
  import opened ObjectFetch

  /** The loop over the server's lines: forwards every line and keeps those that fit in objectBuf. */
  method FetchObject(server: RioBuffer, client: Sink, objectBuf: array<Byte>) returns (size: nat)
    requires server.Valid() && NoFailure(server.fd.schedule)
    requires objectBuf.Length == MAX_OBJECT_SIZE && objectBuf != server.buf
    modifies server, server.fd, server.buf, client, objectBuf
    ensures size <= MAX_OBJECT_SIZE
    ensures objectBuf[..size] == Kept(Chunks(server.fd.stream[old(server.Taken())..], 8192), 0)
    ensures NoFailure(old(client.schedule)) ==>
      client.output == old(client.output) + Flatten(Chunks(server.fd.stream[old(server.Taken())..], 8192))
  {
    ghost var u := server.fd.stream[server.Taken()..];
    ghost var v := u;
    var buf := new Byte[MAXLINE];
    size := 0;
    var n := ReadLine(server, buf);
    while n != 0
      invariant server.Valid() && NoFailure(server.fd.schedule) && AtLine(server, buf, n, v)
      invariant size <= MAX_OBJECT_SIZE && Object(u) == objectBuf[..size] + Kept(Chunks(v, MAXLINE), size)
      invariant NoFailure(old(client.schedule)) ==>
        NoFailure(client.schedule) && old(client.output) + Forwarded(u) == client.output + Forwarded(v)
      decreases |v|
    {
      size, n := NextTurn(server, client, objectBuf, size, buf, n, v);
      v := AfterLine(v);
    }
  }

  /** The first line of v is in the buffer, and the rest of v is what the server still has. */
  ghost predicate AtLine(server: RioBuffer, buf: array<Byte>, n: int, v: seq<Byte>)
    requires server.Valid()
    reads server, server.fd, server.buf, buf
  {
    && buf.Length == MAXLINE && 0 <= n <= MAXLINE && buf[..n] == Counted(v, MAXLINE) && (n == 0 <==> v == [])
    && server.fd.stream[server.Taken()..] == AfterLine(v)
  }

  /** The turn of the loop for the first line of v, and the next line read. */
  method NextTurn(server: RioBuffer, client: Sink, objectBuf: array<Byte>, size: nat, buf: array<Byte>, n: nat,
                  ghost v: seq<Byte>)
    returns (size': nat, n': nat)
    requires server.Valid() && NoFailure(server.fd.schedule) && AtLine(server, buf, n, v) && v != []
    requires objectBuf.Length == MAX_OBJECT_SIZE && size <= MAX_OBJECT_SIZE
    requires objectBuf != server.buf && buf != server.buf && buf != objectBuf
    modifies server, server.fd, server.buf, client, objectBuf, buf
    ensures server.Valid() && NoFailure(server.fd.schedule) && AtLine(server, buf, n', AfterLine(v))
    ensures size' <= MAX_OBJECT_SIZE && |AfterLine(v)| < |v|
    ensures old(objectBuf[..size]) + Kept(Chunks(v, MAXLINE), size)
         == objectBuf[..size'] + Kept(Chunks(AfterLine(v), MAXLINE), size')
    ensures NoFailure(old(client.schedule)) ==>
      && NoFailure(client.schedule)
      && old(client.output) + Forwarded(v) == client.output + Forwarded(AfterLine(v))
  {
    size' := HandleLine(client, objectBuf, size, buf, n, v);
    n' := ReadLine(server, buf);
  }

  ghost function AfterLine(v: seq<Byte>): seq<Byte> { v[|NextLine(v, MAXLINE)|..] }

  /** The turn of the loop for the first line of v. */
  method HandleLine(client: Sink, objectBuf: array<Byte>, size: nat, buf: array<Byte>, n: nat, ghost v: seq<Byte>)
    returns (size': nat)
    requires objectBuf.Length == MAX_OBJECT_SIZE && size <= MAX_OBJECT_SIZE && buf != objectBuf
    requires v != [] && n <= buf.Length && buf[..n] == Counted(v, MAXLINE)
    modifies client, objectBuf
    ensures size' <= MAX_OBJECT_SIZE && |AfterLine(v)| < |v|
    ensures old(objectBuf[..size]) + Kept(Chunks(v, MAXLINE), size)
         == objectBuf[..size'] + Kept(Chunks(AfterLine(v), MAXLINE), size')
    ensures NoFailure(old(client.schedule)) ==>
      && NoFailure(client.schedule)
      && old(client.output) + Forwarded(v) == client.output + Forwarded(AfterLine(v))
  {
    ghost var c, w := Counted(v, MAXLINE), AfterLine(v);
    ghost var kept, out := objectBuf[..size], client.output;
    NextChunk(v, size);
    Assoc(kept, c, Kept(Chunks(w, MAXLINE), size + |c|));
    Assoc(out, c, Forwarded(w));
    size' := KeepLine(objectBuf, size, buf, n);
    var rc := WriteN(client, buf, n);
  }

  lemma Assoc(a: seq<Byte>, b: seq<Byte>, c: seq<Byte>)
    ensures (a + b) + c == a + (b + c)
  { }

  lemma NextChunk(v: seq<Byte>, size: nat)
    requires v != []
    ensures var c, w := Counted(v, MAXLINE), AfterLine(v);
      && |w| < |v| && Forwarded(v) == c + Forwarded(w)
      && Kept(Chunks(v, MAXLINE), size)
         == if size + |c| <= MAX_OBJECT_SIZE then c + Kept(Chunks(w, MAXLINE), size + |c|)
            else Kept(Chunks(w, MAXLINE), size)
  {
    var c, w := Counted(v, MAXLINE), AfterLine(v);
    assert Chunks(v, MAXLINE)[0] == c && Chunks(v, MAXLINE)[1..] == Chunks(w, MAXLINE);
  }

  /** The line goes behind the size bytes kept so far, if there is room for it. */
  method KeepLine(objectBuf: array<Byte>, size: nat, buf: array<Byte>, n: nat) returns (size': nat)
    requires objectBuf.Length == MAX_OBJECT_SIZE && size <= MAX_OBJECT_SIZE && n <= buf.Length && buf != objectBuf
    modifies objectBuf
    ensures size' <= MAX_OBJECT_SIZE && size' == if size + n <= MAX_OBJECT_SIZE then size + n else size
    ensures objectBuf[..size']
         == old(objectBuf[..size]) + if size + n <= MAX_OBJECT_SIZE then old(buf[..n]) else []
  {
    if size + n > MAX_OBJECT_SIZE { return size; }
    forall i | 0 <= i < n {
      objectBuf[size + i] := buf[i];
    }
    return size + n;
  }

  /** Rio_readlineb into the line buffer; a failed read would end the process. */
  method ReadLine(server: RioBuffer, buf: array<Byte>) returns (n: nat)
    requires server.Valid() && NoFailure(server.fd.schedule) && buf.Length == MAXLINE && buf != server.buf
    modifies server, server.fd, server.buf, buf
    ensures server.Valid() && NoFailure(server.fd.schedule)
    ensures n <= MAXLINE && server.Taken() >= old(server.Taken())
    ensures var u := server.fd.stream[old(server.Taken())..];
      && buf[..n] == Counted(u, MAXLINE)
      && server.fd.stream[server.Taken()..] == AfterLine(u)
      && (n == 0 <==> u == [])
  {
    ghost var t := server.Taken();
    n := server.ReadLineB(buf, MAXLINE);
    ghost var u := server.fd.stream[t..];
    ghost var l := NextLine(u, MAXLINE);
    assert u[|l|..] == server.fd.stream[server.Taken()..];
    assert buf[..n] == Counted(u, MAXLINE);
    LineFacts(u, Room(MAXLINE));
  }

  /** serve_cached: the object found goes to the client. */
  method ServeCached(cache: CacheManager, uri: string, client: Sink)
    requires cache.Valid() && ObjectCacheModel.Check(cache.Contents(), uri)
    modifies cache, cache.head, cache.spine, client
    ensures cache.Valid() && cache.Contents() == ObjectCacheModel.Get(old(cache.Contents()), uri)
    ensures NoFailure(old(client.schedule)) ==>
      client.output == old(client.output) + old(cache.Contents())[Find(old(cache.Contents()), uri)].data
    ensures forall b :: b in cache.spine ==> b in old(cache.spine)
  {
    var blk := cache.Get(uri);
    ghost var q := cache.Contents();
    var data := blk.data;
    var usrbuf := new Byte[|data|](i requires 0 <= i < |data| => data[i]);
    assert usrbuf[..|data|] == data;
    var rc := WriteN(client, usrbuf, blk.size);
    assert cache.Contents() == q;
  }

  function Cached(q: seq<Entry>, uri: string): seq<Byte>
    requires ObjectCacheModel.Check(q, uri)
  {
    q[Find(q, uri)].data
  }

  /** One request; the server's answer is what is left of its stream. */
  method Serve(cache: CacheManager, uri: string, server: RioBuffer, client: Sink) returns (hit: bool)
    requires cache.Valid() && server.Valid() && NoFailure(server.fd.schedule)
    modifies cache, cache.head, cache.spine, server, server.fd, server.buf, client
    ensures cache.Valid() && hit == ObjectCacheModel.Check(old(cache.Contents()), uri)
    ensures var u := server.fd.stream[old(server.Taken())..];
      && cache.Contents() == ObjectCacheModel.Serve(old(cache.Contents()), Fetched(Request(uri, u)))
      && (NoFailure(old(client.schedule)) ==>
          client.output == old(client.output)
            + if hit then old(cache.Contents())[Find(old(cache.Contents()), uri)].data else Flatten(Chunks(u, 8192)))
    ensures !hit ==>
      var obj := Kept(Chunks(server.fd.stream[old(server.Taken())..], 8192), 0);
      cache.Contents() == ObjectCacheModel.Insert(old(cache.Contents()), Entry(uri, obj, |obj|))
    ensures forall b :: b in cache.spine ==> b in old(cache.spine) || fresh(b)
  {
    hit := cache.Check(uri);
    if hit {
      ServeCached(cache, uri, client);
    } else {
      ghost var q := cache.Contents();
      var objectBuf := new Byte[MAX_OBJECT_SIZE];
      var size := FetchObject(server, client, objectBuf);
      assert cache.Contents() == q;
      var data := objectBuf[..size];
      assert data[..size] == data;
      cache.Insert(uri, data, size);
    }
  }

  /** What the client of request i is sent, after the requests before it. */
  function Answer(rs: seq<Request>, i: nat): seq<Byte>
    requires i < |rs|
  {
    AnswerFrom(ServeAll(AllFetched(rs[..i])), rs[i])
  }

  /** One request over fresh connections. */
  method Connect(cache: CacheManager, r: Request, incoming: seq<Event>, outgoing: seq<Event>)
    returns (answer: seq<Byte>)
    requires cache.Valid() && NoFailure(incoming)
    modifies cache, cache.head, cache.spine
    ensures cache.Valid() && cache.Contents() == ObjectCacheModel.Serve(old(cache.Contents()), Fetched(r))
    ensures NoFailure(outgoing) ==> answer == AnswerFrom(old(cache.Contents()), r)
    ensures forall k :: 0 <= k < |cache.spine| ==> cache.spine[k] in old(cache.spine) || fresh(cache.spine[k])
  {
    var fd := new Source(r.response, incoming);
    var server := new RioBuffer(fd);
    var client := new Sink(outgoing);
    assert fd.stream[0..] == r.response;
    var hit := Serve(cache, r.uri, server, client);
    answer := client.output;
  }

  function AnswerFrom(q: seq<Entry>, r: Request): seq<Byte> {
    if ObjectCacheModel.Check(q, r.uri) then Cached(q, r.uri) else Forwarded(r.response)
  }

  /** Each client has its answer, unless a write to it failed. */
  predicate Answered(rs: seq<Request>, outgoing: seq<seq<Event>>, answers: seq<seq<Byte>>)
    requires |answers| <= |rs| == |outgoing|
    decreases |answers|
  {
    answers == [] ||
    var n := |answers| - 1;
    Answered(rs, outgoing, answers[..n]) && (NoFailure(outgoing[n]) ==> answers[n] == Answer(rs, n))
  }

  lemma {:induction false} AnsweredAt(rs: seq<Request>, outgoing: seq<seq<Event>>, answers: seq<seq<Byte>>, i: nat)
    requires i < |answers| <= |rs| == |outgoing| && Answered(rs, outgoing, answers)
    ensures NoFailure(outgoing[i]) ==> answers[i] == Answer(rs, i)
    decreases |answers|
  {
    if i < |answers| - 1 { AnsweredAt(rs, outgoing, answers[..|answers| - 1], i); }
  }

  /** Request i, after those before it. */
  method NextRequest(cache: CacheManager, rs: seq<Request>, i: nat, incoming: seq<Event>, outgoing: seq<Event>)
    returns (answer: seq<Byte>)
    requires cache.Valid() && NoFailure(incoming)
    requires i < |rs| && cache.Contents() == ServeAll(AllFetched(rs[..i]))
    modifies cache, cache.head, cache.spine
    ensures cache.Valid() && cache.Contents() == ServeAll(AllFetched(rs[..i + 1]))
    ensures NoFailure(outgoing) ==> answer == Answer(rs, i)
    ensures forall k :: 0 <= k < |cache.spine| ==> cache.spine[k] in old(cache.spine) || fresh(cache.spine[k])
  {
    answer := Connect(cache, rs[i], incoming, outgoing);
    OneMore(rs, i);
  }

  /** The proxy from its start: every request over fresh connections that follow the given schedules. */
  method ServeRequests(rs: seq<Request>, incoming: seq<seq<Event>>, outgoing: seq<seq<Event>>)
    returns (cache: CacheManager, answers: seq<seq<Byte>>)
    requires |incoming| == |rs| == |outgoing|
    requires forall i :: 0 <= i < |rs| ==> NoFailure(incoming[i])
    ensures cache.Valid() && cache.Contents() == ServeAll(AllFetched(rs))
    ensures |answers| == |rs| && Answered(rs, outgoing, answers)
  {
    cache := new CacheManager();
    answers := [];
    for i := 0 to |rs|
      invariant cache.Valid() && fresh(cache) && fresh(cache.head)
      invariant forall k :: 0 <= k < |cache.spine| ==> fresh(cache.spine[k])
      invariant cache.Contents() == ServeAll(AllFetched(rs[..i]))
      invariant |answers| == i && Answered(rs, outgoing, answers)
    {
      var answer := NextRequest(cache, rs, i, incoming[i], outgoing[i]);
      assert (answers + [answer])[..i] == answers;
      answers := answers + [answer];
    }
    assert rs[..|rs|] == rs;
  }

  lemma OneMore(rs: seq<Request>, i: nat)
    requires i < |rs|
    ensures ServeAll(AllFetched(rs[..i + 1]))
         == ObjectCacheModel.Serve(ServeAll(AllFetched(rs[..i])), Fetched(rs[i]))
  {
    var es := AllFetched(rs[..i + 1]);
    assert es[..i] == AllFetched(rs[..i]) && es[i] == Fetched(rs[i]);
  }

  /** A client is sent the response of some request for the same object, up to this one: if
      that is tidy and not too long, byte for byte. */
  lemma AnswersAreResponses(rs: seq<Request>, i: nat)
    requires i < |rs|
    requires forall j :: 0 <= j <= i && rs[j].uri == rs[i].uri ==>
      Tidy(rs[j].response, MAXLINE) && |rs[j].response| <= MAX_OBJECT_SIZE
    ensures exists j :: 0 <= j <= i && rs[j].uri == rs[i].uri && Answer(rs, i) == rs[j].response
  {
    var es := AllFetched(rs[..i]);
    var q := ServeAll(es);
    if ObjectCacheModel.Check(q, rs[i].uri) {
      var k := Find(q, rs[i].uri);
      EntriesWereServed(es, k);
      var j :| 0 <= j < i && es[j] == q[k];
      assert es[j] == Fetched(rs[j]);
      CachedIsResponse(rs[j].response);
    } else {
      CachedIsResponse(rs[i].response);
    }
  }
}
