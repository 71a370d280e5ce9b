/** The Rio package: robust reading and writing over system calls that may be
    interrupted, may fail, and may move fewer bytes than asked. */
module Rio {

  type Byte = b: int | 0 <= b < 256
  const NEWLINE: Byte := 10
  const RIO_BUFSIZE := 8192

  /** What the next system call does: an interrupt, another error, or at most k+1 bytes. */
  datatype Event = Interrupted | Failed | Short(k: nat)

  datatype Errno = Clear | EINTR | Other

  predicate NoFailure(schedule: seq<Event>) { Failed !in schedule }

  function Min(a: int, b: int): int { if a < b then a else b }

  /** The number of bytes a call with room for n moves when avail could be moved. */
  function Moved(schedule: seq<Event>, n: int, avail: int): int {
    if schedule == [] then Min(n, avail)
    else match schedule[0]
      case Short(k) => Min(Min(n, avail), k + 1)
      case _ => -1
  }

  function Rest(schedule: seq<Event>): seq<Event> {
    if schedule == [] then [] else schedule[1..]
  }

  /** b holds the bytes of stream between from and to, starting at off. */
  ghost predicate Holds(b: seq<Byte>, off: int, stream: seq<Byte>, from: int, to: int) {
    && 0 <= from <= to <= |stream| && 0 <= off && off + to - from <= |b|
    && forall i :: off <= i < off + to - from ==> b[i] == stream[from + i - off]
  }

  /** b' differs from b at most between lo and hi. */
  ghost predicate SameOutside(b: seq<Byte>, b': seq<Byte>, lo: int, hi: int) {
    |b'| == |b| && forall i :: 0 <= i < |b| && (i < lo || hi <= i) ==> b'[i] == b[i]
  }

  /** A descriptor open for reading: a byte stream, a position and the fates of the coming calls. */
  class Source {
    const stream: seq<Byte>
    var pos: nat
    var schedule: seq<Event>

    constructor (stream: seq<Byte>, schedule: seq<Event>)
      ensures Valid() && pos == 0 && this.stream == stream && this.schedule == schedule
    {
      this.stream, this.schedule, pos := stream, schedule, 0;
    }

    ghost predicate Valid()
      reads this
    {
      pos <= |stream|
    }

    /** read(): the environment's step. */
    method Read(buf: array<Byte>, off: nat, n: nat) returns (cnt: int, errno: Errno)
      requires Valid() && off + n <= buf.Length && 0 < n
      modifies this, buf
      ensures Valid() && schedule == Rest(old(schedule)) && -1 <= cnt <= n
      ensures cnt == Moved(old(schedule), n, |stream| - old(pos))
      ensures cnt == 0 ==> pos == |stream|
      ensures cnt == -1 <==> old(schedule) != [] && !old(schedule)[0].Short?
      ensures errno == EINTR <==> old(schedule) != [] && old(schedule)[0] == Interrupted
      ensures cnt < 0 ==> buf[..] == old(buf[..]) && pos == old(pos)
      ensures cnt >= 0 ==> pos == old(pos) + cnt && Holds(buf[..], off, stream, old(pos), pos)
      ensures cnt >= 0 ==> SameOutside(old(buf[..]), buf[..], off, off + cnt)
    {
      var s := schedule;
      schedule := if s == [] then [] else s[1..];
      var avail := |stream| - pos;
      if s != [] && s[0].Interrupted? { return -1, EINTR; }
      if s != [] && s[0].Failed? { return -1, Other; }
      cnt := Min(n, avail);
      if s != [] { cnt := Min(cnt, s[0].k + 1); }
      errno := Clear;
      forall i | 0 <= i < cnt {
        buf[off + i] := stream[pos + i];
      }
      pos := pos + cnt;
    }
  }

  /** A descriptor open for writing. */
  class Sink {
    var output: seq<Byte>
    var schedule: seq<Event>

    constructor (schedule: seq<Event>)
      ensures output == [] && this.schedule == schedule
    {
      output, this.schedule := [], schedule;
    }

    /** write(): the environment's step. */
    method Write(buf: array<Byte>, off: nat, n: nat) returns (cnt: int, errno: Errno)
      requires off + n <= buf.Length && 0 < n
      modifies this
      ensures schedule == Rest(old(schedule)) && cnt == Moved(old(schedule), n, n) && -1 <= cnt <= n && cnt != 0
      ensures cnt == -1 <==> old(schedule) != [] && !old(schedule)[0].Short?
      ensures errno == EINTR <==> old(schedule) != [] && old(schedule)[0] == Interrupted
      ensures output == old(output) + buf[off..off + if cnt < 0 then 0 else cnt]
    {
      var s := schedule;
      schedule := if s == [] then [] else s[1..];
      if s != [] && s[0].Interrupted? { return -1, EINTR; }
      if s != [] && s[0].Failed? { return -1, Other; }
      cnt := n;
      if s != [] { cnt := Min(cnt, s[0].k + 1); }
      errno := Clear;
      output := output + buf[off..off + cnt];
    }
  }

  // -------------------------------------------------------------- unbuffered I/O

  /** Reads n bytes, or to the end of the stream, whatever the short counts and interrupts. */
  method ReadN(fd: Source, usrbuf: array<Byte>, n: nat) returns (rc: int)
    requires fd.Valid() && n <= usrbuf.Length
    modifies fd, usrbuf
    ensures fd.Valid() && -1 <= rc
    ensures NoFailure(old(fd.schedule)) ==> rc >= 0
    ensures rc >= 0 ==>
      && rc == Min(n, |fd.stream| - old(fd.pos)) && fd.pos == old(fd.pos) + rc
      && Holds(usrbuf[..], 0, fd.stream, old(fd.pos), fd.pos)
      && SameOutside(old(usrbuf[..]), usrbuf[..], 0, rc)
  {
    ghost var p := fd.pos;
    var nleft, bufp := n, 0;
    while nleft > 0
      invariant fd.Valid() && nleft + bufp == n && 0 <= nleft && 0 <= bufp && fd.pos == p + bufp
      invariant Holds(usrbuf[..], 0, fd.stream, p, fd.pos) && SameOutside(old(usrbuf[..]), usrbuf[..], 0, bufp)
      invariant NoFailure(old(fd.schedule)) ==> NoFailure(fd.schedule)
      decreases |fd.schedule|, nleft
    {
      var nread, errno := fd.Read(usrbuf, bufp, nleft);
      if nread < 0 {
        if errno == EINTR {
          nread := 0;
        } else {
          return -1;
        }
      } else if nread == 0 {
        break;
      }
      nleft := nleft - nread;
      bufp := bufp + nread;
    }
    return n - nleft;
  }

  lemma SliceJoin(b: seq<Byte>, i: nat, j: nat)
    requires i <= j <= |b|
    ensures b[..j] == b[..i] + b[i..j]
  { }

  /** Emits exactly the n bytes, in order, whatever the short counts and interrupts;
      after a failure what was emitted is a prefix of them. */
  method WriteN(fd: Sink, usrbuf: array<Byte>, n: nat) returns (rc: int)
    requires n <= usrbuf.Length
    modifies fd
    ensures NoFailure(old(fd.schedule)) ==> rc == n && NoFailure(fd.schedule)
    ensures rc == n || rc == -1
    ensures rc == n ==> fd.output == old(fd.output) + usrbuf[..n]
    ensures rc == -1 ==> old(fd.output) <= fd.output <= old(fd.output) + usrbuf[..n]
  {
    ghost var out := fd.output;
    var nleft, bufp := n, 0;
    while nleft > 0
      invariant nleft + bufp == n && 0 <= nleft && 0 <= bufp
      invariant fd.output == out + usrbuf[..bufp]
      invariant NoFailure(old(fd.schedule)) ==> NoFailure(fd.schedule)
      decreases |fd.schedule|, nleft
    {
      var nwritten, errno := fd.Write(usrbuf, bufp, nleft);
      if nwritten <= 0 {
        if errno == EINTR {
          nwritten := 0;
        } else {
          assert usrbuf[..n] == usrbuf[..bufp] + usrbuf[bufp..n];
          return -1;
        }
      }
      SliceJoin(usrbuf[..], bufp, bufp + nwritten);
      nleft := nleft - nwritten;
      bufp := bufp + nwritten;
    }
    return n;
  }

  function Flatten(ss: seq<seq<Byte>>): seq<Byte> {
    if ss == [] then [] else ss[0] + Flatten(ss[1..])
  }

  // ------------------------------------------------------------------ lines

  /** The bytes of the next line: through the first newline, or m bytes, or to the end. */
  function Line(u: seq<Byte>, m: nat): (l: seq<Byte>)
    ensures |l| <= m && |l| <= |u|
  {
    if m == 0 || u == [] then []
    else if u[0] == NEWLINE then [u[0]]
    else [u[0]] + Line(u[1..], m - 1)
  }

  predicate EndsLine(l: seq<Byte>) { l != [] && l[|l| - 1] == NEWLINE }

  /** A line is a prefix with no newline before its end, and it stops only for one of the three reasons. */
  lemma {:induction false} LineFacts(u: seq<Byte>, m: nat)
    ensures Line(u, m) == u[..|Line(u, m)|]
    ensures forall i :: 0 <= i < |Line(u, m)| - 1 ==> Line(u, m)[i] != NEWLINE
    ensures EndsLine(Line(u, m)) || |Line(u, m)| == m || Line(u, m) == u
  {
    if m != 0 && u != [] && u[0] != NEWLINE {
      var t := Line(u[1..], m - 1);
      LineFacts(u[1..], m - 1);
      var l := Line(u, m);
      assert l == [u[0]] + t;
      assert u == [u[0]] + u[1..];
      forall i | 0 <= i < |l| - 1 ensures l[i] != NEWLINE { if i > 0 { assert l[i] == t[i - 1]; } }
      assert EndsLine(t) ==> l[|l| - 1] == t[|t| - 1];
    }
  }

  /** What rio_readlineb stores in a buffer of maxlen bytes. */
  function NextLine(u: seq<Byte>, maxlen: nat): seq<Byte> { Line(u, Room(maxlen)) }

  /** The count rio_readlineb returns: the bytes stored when the line ended with a
      newline, 0 at end of stream, one more than the bytes stored otherwise. */
  function LineCount(u: seq<Byte>, maxlen: nat): nat {
    if maxlen > 1 && u == [] then 0
    else
      var l := NextLine(u, maxlen);
      if EndsLine(l) then |l| else |l| + 1
  }

  /** A line ends with a newline exactly when there is one among the first m bytes. */
  lemma {:induction false} LineEnds(u: seq<Byte>, m: nat)
    ensures EndsLine(Line(u, m)) <==> NEWLINE in u[..Min(m, |u|)]
  {
    if m != 0 && u != [] {
      var k := Min(m, |u|);
      assert u[..k] == [u[0]] + u[1..][..k - 1];
      if u[0] != NEWLINE {
        LineEnds(u[1..], m - 1);
        var t := Line(u[1..], m - 1);
        assert t != [] ==> Line(u, m)[|t|] == t[|t| - 1];
      }
    }
  }

  /** The count is the number of bytes stored, or one more when no newline comes within the room
      there is; with room and nothing to read it is 0. */
  lemma CountIsLengthOrMore(u: seq<Byte>, maxlen: nat)
    ensures LineCount(u, maxlen) == |NextLine(u, maxlen)|
      + if NEWLINE in u[..Min(Room(maxlen), |u|)] || (maxlen > 1 && u == []) then 0 else 1
  {
    LineEnds(u, Room(maxlen));
  }

  /** The bytes stored: a prefix of what is to come, at most maxlen - 1 of them, with no newline
      before the last, and fewer only at a newline or at the end. */
  lemma NextLineIs(u: seq<Byte>, maxlen: nat)
    ensures var l := NextLine(u, maxlen);
      && |l| <= |u| && l == u[..|l|] && |l| <= (if maxlen == 0 then 0 else maxlen - 1)
      && (forall i :: 0 <= i < |l| - 1 ==> l[i] != 10)
      && (l == u || |l| + 1 == maxlen || (maxlen == 0 && l == []) || (l != [] && l[|l| - 1] == 10))
  {
    LineFacts(u, Room(maxlen));
  }

  /** A last line without a newline: one byte is stored and two are counted. */
  lemma CountExceedsLength(c: Byte, maxlen: nat)
    requires c != NEWLINE && 2 <= maxlen
    ensures NextLine([c], maxlen) == [c] && LineCount([c], maxlen) == 2
  {
    LineIs([c], Room(maxlen), 1);
  }

  // ---------------------------------------------------------------- buffered input

  class RioBuffer {
    const fd: Source
    var cnt: int
    var bufptr: int
    const buf: array<Byte>

    /** rio_readinitb */
    constructor (fd: Source)
      requires fd.Valid()
      ensures Valid() && this.fd == fd && fresh(buf) && Taken() == fd.pos
    {
      this.fd := fd;
      cnt, bufptr := 0, 0;
      buf := new Byte[RIO_BUFSIZE];
    }

    /** The unread bytes in the buffer are the last ones read from the stream. */
    ghost predicate Valid()
      reads this, fd, buf
    {
      && fd.Valid() && buf.Length == RIO_BUFSIZE
      && (cnt > 0 ==> 0 <= bufptr && bufptr + cnt <= RIO_BUFSIZE && cnt <= fd.pos)
      && (forall j :: bufptr <= j < bufptr + cnt ==> buf[j] == fd.stream[fd.pos - cnt + j - bufptr])
    }

    /** How many bytes of the stream the client has been given. */
    ghost function Taken(): (t: nat)
      requires Valid()
      reads this, fd, buf
      ensures t <= |fd.stream|
    {
      fd.pos - if cnt > 0 then cnt else 0
    }

    /** rio_read: the next bytes of the stream, at least one unless it is at its end, at most n. */
    method Read(usrbuf: array<Byte>, off: nat, n: nat) returns (rc: int)
      requires Valid() && off + n <= usrbuf.Length && 0 < n && usrbuf != buf
      modifies this, fd, buf, usrbuf
      ensures Valid() && -1 <= rc <= n
      ensures NoFailure(old(fd.schedule)) ==> rc >= 0 && NoFailure(fd.schedule)
      ensures rc == 0 ==> Taken() == |fd.stream|
      ensures rc < 0 ==> usrbuf[..] == old(usrbuf[..]) && Taken() == old(Taken())
      ensures rc >= 0 ==> Taken() == old(Taken()) + rc && Holds(usrbuf[..], off, fd.stream, old(Taken()), Taken())
      ensures rc >= 0 ==> SameOutside(old(usrbuf[..]), usrbuf[..], off, off + rc)
    {
      rc := Refill();
      if rc <= 0 { return; }
      rc := n;
      if cnt < n { rc := cnt; }
      ghost var t := Taken();
      forall i | 0 <= i < rc {
        usrbuf[off + i] := buf[bufptr + i];
      }
      bufptr := bufptr + rc;
      cnt := cnt - rc;
    }

    /** The loop of rio_read: calls read until there is a byte, the end, or an error. */
    method Refill() returns (rc: int)
      requires Valid()
      modifies this, fd, buf
      ensures Valid() && Taken() == old(Taken()) && -1 <= rc <= 1
      ensures NoFailure(old(fd.schedule)) ==> rc >= 0 && NoFailure(fd.schedule)
      ensures rc == 0 ==> Taken() == |fd.stream|
      ensures rc == 1 ==> cnt > 0
    {
      while cnt <= 0
        invariant Valid() && Taken() == old(Taken())
        invariant NoFailure(old(fd.schedule)) ==> NoFailure(fd.schedule)
        decreases |fd.schedule|, cnt <= 0
      {
        var errno;
        cnt, errno := fd.Read(buf, 0, buf.Length);
        if cnt < 0 {
          if errno != EINTR { return -1; }
        } else if cnt == 0 {
          return 0;
        } else {
          bufptr := 0;
        }
      }
      return 1;
    }

    /** rio_readnb: the next n bytes of the stream, or all there are; after a failure the
        bytes taken so far, fewer than n, are in usrbuf, but the client is not told how many. */
    method ReadNB(usrbuf: array<Byte>, n: nat) returns (rc: int)
      requires Valid() && n <= usrbuf.Length && usrbuf != buf
      modifies this, fd, buf, usrbuf
      ensures Valid() && -1 <= rc
      ensures NoFailure(old(fd.schedule)) ==> rc >= 0 && NoFailure(fd.schedule)
      ensures rc >= 0 ==>
        && rc == Min(n, |fd.stream| - old(Taken())) && Taken() == old(Taken()) + rc
        && Holds(usrbuf[..], 0, fd.stream, old(Taken()), Taken())
        && SameOutside(old(usrbuf[..]), usrbuf[..], 0, rc)
      ensures rc < 0 ==>
        && old(Taken()) <= Taken() < old(Taken()) + n
        && Holds(usrbuf[..], 0, fd.stream, old(Taken()), Taken())
    {
      ghost var t := Taken();
      var nleft, bufp := n, 0;
      while nleft > 0
        invariant Valid() && nleft + bufp == n && 0 <= nleft && 0 <= bufp && Taken() == t + bufp
        invariant Holds(usrbuf[..], 0, fd.stream, t, Taken()) && SameOutside(old(usrbuf[..]), usrbuf[..], 0, bufp)
        invariant NoFailure(old(fd.schedule)) ==> NoFailure(fd.schedule)
        decreases nleft
      {
        var nread := Read(usrbuf, bufp, nleft);
        if nread < 0 {
          return -1;
        } else if nread == 0 {
          break;
        }
        nleft := nleft - nread;
        bufp := bufp + nread;
      }
      return n - nleft;
    }

    /** After a failure: the bytes taken since t are in usrbuf, none of them ends the line. */
    ghost predicate PartOfLine(usrbuf: array<Byte>, maxlen: nat, t: nat)
      requires Valid()
      reads this, fd, buf, usrbuf
    {
      && t <= Taken() && Taken() - t <= Room(maxlen) && Holds(usrbuf[..], 0, fd.stream, t, Taken())
      && forall j :: t <= j < Taken() ==> fd.stream[j] != NEWLINE
    }

    /** rio_readlineb: the next line of the stream and a terminator. */
    method ReadLineB(usrbuf: array<Byte>, maxlen: nat) returns (rc: int)
      requires Valid() && maxlen <= usrbuf.Length && 0 < usrbuf.Length && usrbuf != buf
      modifies this, fd, buf, usrbuf
      ensures Valid() && -1 <= rc
      ensures NoFailure(old(fd.schedule)) ==> rc >= 0 && NoFailure(fd.schedule)
      ensures rc >= 0 ==>
        (var u := fd.stream[old(Taken())..];
         var l := NextLine(u, maxlen);
         && rc == LineCount(u, maxlen) && Taken() == old(Taken()) + |l|
         && |l| < usrbuf.Length && usrbuf[..|l|] == l && (rc > 0 ==> usrbuf[|l|] == 0))
      ensures rc < 0 ==> PartOfLine(usrbuf, maxlen, old(Taken()))
    {
      ghost var t := Taken();
      var bufp;
      rc, bufp := GatherLine(usrbuf, maxlen);
      if rc < 0 { return; }
      LineGathered(fd.stream, t, maxlen, bufp, rc);
      if rc > 0 { usrbuf[bufp] := 0; }
      assert usrbuf[..bufp] == fd.stream[t..][..bufp];
    }

    /** rio_read of a single byte. */
    method ReadByte(c: array<Byte>) returns (rc: int)
      requires Valid() && c.Length == 1 && c != buf
      modifies this, fd, buf, c
      ensures Valid() && -1 <= rc <= 1
      ensures NoFailure(old(fd.schedule)) ==> rc >= 0 && NoFailure(fd.schedule)
      ensures Taken() == old(Taken()) + if rc == 1 then 1 else 0
      ensures rc == 1 ==> old(Taken()) < |fd.stream| && c[0] == fd.stream[old(Taken())]
      ensures rc == 0 ==> Taken() == |fd.stream|
    {
      rc := Read(c, 0, 1);
      if rc == 1 { assert c[..][0] == c[0]; }
    }

    /** The next byte, stored at bufp if there is one. */
    method StoreByte(usrbuf: array<Byte>, bufp: nat, c: array<Byte>) returns (rc: int)
      requires Valid() && c.Length == 1 && c != buf && c != usrbuf && usrbuf != buf && bufp < usrbuf.Length
      modifies this, fd, buf, usrbuf, c
      ensures Valid() && -1 <= rc <= 1
      ensures NoFailure(old(fd.schedule)) ==> rc >= 0 && NoFailure(fd.schedule)
      ensures Taken() == old(Taken()) + if rc == 1 then 1 else 0
      ensures rc == 0 ==> Taken() == |fd.stream|
      ensures rc == 1 ==>
        && old(Taken()) < |fd.stream| && c[0] == fd.stream[old(Taken())]
        && usrbuf[..] == old(usrbuf[..])[bufp := c[0]]
      ensures rc != 1 ==> usrbuf[..] == old(usrbuf[..])
    {
      rc := ReadByte(c);
      if rc == 1 { usrbuf[bufp] := c[0]; }
    }

    /** The loop of rio_readlineb; rc is the count it would return. */
    method GatherLine(usrbuf: array<Byte>, maxlen: nat) returns (rc: int, bufp: nat)
      requires Valid() && maxlen <= usrbuf.Length && 0 < usrbuf.Length && usrbuf != buf
      modifies this, fd, buf, usrbuf
      ensures Valid() && -1 <= rc
      ensures NoFailure(old(fd.schedule)) ==> rc >= 0 && NoFailure(fd.schedule)
      ensures Taken() == old(Taken()) + bufp && Holds(usrbuf[..], 0, fd.stream, old(Taken()), Taken())
      ensures rc >= 0 ==> Gathered(fd.stream, old(Taken()), maxlen, bufp, rc) && bufp < usrbuf.Length
      ensures rc < 0 ==> PartOfLine(usrbuf, maxlen, old(Taken()))
    {
      ghost var t := Taken();
      var c := new Byte[1];
      bufp := 0;
      var n := 1;
      while n < maxlen
        invariant Valid() && bufp == n - 1 && bufp <= Room(maxlen) && Taken() == t + bufp
        invariant Holds(usrbuf[..], 0, fd.stream, t, Taken())
        invariant forall j :: t <= j < t + bufp ==> fd.stream[j] != NEWLINE
        invariant NoFailure(old(fd.schedule)) ==> NoFailure(fd.schedule)
        decreases maxlen - n
      {
        rc := StoreByte(usrbuf, bufp, c);
        if rc < 0 { return; }
        if rc == 0 { return if n == 1 then 0 else n, bufp; }
        bufp := bufp + 1;
        if c[0] == NEWLINE { return n, bufp; }
        n := n + 1;
      }
      return n, bufp;
    }
  }

  /** How many bytes fit before the terminator. */
  function Room(maxlen: nat): nat { if maxlen == 0 then 0 else maxlen - 1 }

  /** The k bytes taken from t on and the count rc, at the three ways out of the loop. */
  ghost predicate Gathered(stream: seq<Byte>, t: nat, maxlen: nat, k: nat, rc: int) {
    && t + k <= |stream| && k <= Room(maxlen)
    && (forall j :: t <= j < t + k - 1 ==> stream[j] != NEWLINE)
    && if k > 0 && stream[t + k - 1] == NEWLINE then rc == k
       else if k == Room(maxlen) then rc == k + 1
       else t + k == |stream| && rc == if k == 0 then 0 else k + 1
  }

  lemma LineGathered(stream: seq<Byte>, t: nat, maxlen: nat, k: nat, rc: int)
    requires Gathered(stream, t, maxlen, k, rc)
    ensures NextLine(stream[t..], maxlen) == stream[t..][..k] && rc == LineCount(stream[t..], maxlen)
  {
    LineIs(stream[t..], Room(maxlen), k);
  }

  /** The first k bytes are the line when a newline ends them, or when none is among
      them and they are as many as there is room for or as there are. */
  lemma {:induction false} LineIs(u: seq<Byte>, m: nat, k: nat)
    requires k <= m && k <= |u| && forall i :: 0 <= i < k - 1 ==> u[i] != NEWLINE
    requires (k > 0 && u[k - 1] == NEWLINE) || k == m || k == |u|
    ensures Line(u, m) == u[..k]
  {
    if k > 0 && u[0] != NEWLINE {
      LineIs(u[1..], m - 1, k - 1);
      assert u[..k] == [u[0]] + u[1..][..k - 1];
    }
  }
}
