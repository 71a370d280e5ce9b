/** What clients of Rio can rely on: counts, and whole sessions over one buffer. */
module RioSessions {
  import opened Rio

  /** The count is the number of bytes stored exactly when a newline comes within the room
      there is, or there is room for a byte and none to read. */
  lemma CountIsLength(u: seq<Byte>, maxlen: nat)
    ensures LineCount(u, maxlen) == |NextLine(u, maxlen)|
       <==> NEWLINE in u[..Min(Room(maxlen), |u|)] || (maxlen > 1 && u == [])
  {
    LineEnds(u, Room(maxlen));
  }

  // --------------------------------------------------------------- whole sessions

  /** What a client asks for. */
  datatype Call = Bytes(n: nat) | TextLine(maxlen: nat)

  /** What one call delivers when u is still to come. */
  function Segment(u: seq<Byte>, call: Call): (s: seq<Byte>)
    ensures |s| <= |u|
  {
    match call
    case Bytes(n) => u[..Min(n, |u|)]
    case TextLine(maxlen) => NextLine(u, maxlen)
  }

  /** A byte read delivers min(n, remaining) bytes, a line read the next line. */
  lemma SegmentIs(u: seq<Byte>, n: nat)
    ensures Segment(u, Bytes(n)) == u[..if n < |u| then n else |u|]
    ensures Segment(u, TextLine(n)) == NextLine(u, n)
  { }

  function Deliver(u: seq<Byte>, calls: seq<Call>): seq<seq<Byte>> {
    if calls == [] then []
    else
      var s := Segment(u, calls[0]);
      [s] + Deliver(u[|s|..], calls[1..])
  }

  /** Any interleaving of byte and line reads delivers consecutive, gap-free segments of the stream. */
  lemma {:induction false} SegmentsAreConsecutive(u: seq<Byte>, calls: seq<Call>)
    ensures Flatten(Deliver(u, calls)) <= u
  {
    if calls != [] {
      var s := Segment(u, calls[0]);
      SegmentsAreConsecutive(u[|s|..], calls[1..]);
      assert s == u[..|s|] by { SegmentIsPrefix(u, calls[0]); }
      assert Deliver(u, calls)[1..] == Deliver(u[|s|..], calls[1..]);
      assert u == s + u[|s|..];
    }
  }

  lemma SegmentIsPrefix(u: seq<Byte>, call: Call)
    ensures Segment(u, call) == u[..|Segment(u, call)|]
  {
    if call.TextLine? { LineFacts(u, Room(call.maxlen)); }
  }

  /** A client that makes these calls through one buffer gets those segments, whatever
      the chunks in which the system calls happen to deliver the stream. */
  method Session(rio: RioBuffer, calls: seq<Call>) returns (segments: seq<seq<Byte>>)
    requires rio.Valid() && NoFailure(rio.fd.schedule)
    modifies rio, rio.fd, rio.buf
    ensures rio.Valid() && segments == Deliver(rio.fd.stream[old(rio.Taken())..], calls)
    ensures rio.Taken() == old(rio.Taken()) + |Flatten(segments)|
    decreases |calls|
  {
    if calls == [] { return []; }
    ghost var u := rio.fd.stream[rio.Taken()..];
    var s := One(rio, calls[0]);
    assert u[|s|..] == rio.fd.stream[rio.Taken()..];
    var rest := Session(rio, calls[1..]);
    segments := [s] + rest;
  }

  /** A client that finds no newline at the end of what was counted discounts the terminator. */
  lemma StoredLength(u: seq<Byte>, maxlen: nat, b: seq<Byte>)
    requires |b| == maxlen + 1 && |NextLine(u, maxlen)| < |b| && b[..|NextLine(u, maxlen)|] == NextLine(u, maxlen)
    requires LineCount(u, maxlen) > 0 ==> b[|NextLine(u, maxlen)|] == 0
    ensures var rc := LineCount(u, maxlen);
      rc <= |b| && |NextLine(u, maxlen)| == if rc > 0 && b[rc - 1] != NEWLINE then rc - 1 else rc
  {
    var l := NextLine(u, maxlen);
    if l != [] { assert b[..|l|][|l| - 1] == b[|l| - 1]; }
  }

  method One(rio: RioBuffer, call: Call) returns (s: seq<Byte>)
    requires rio.Valid() && NoFailure(rio.fd.schedule)
    modifies rio, rio.fd, rio.buf
    ensures rio.Valid() && NoFailure(rio.fd.schedule)
    ensures s == Segment(rio.fd.stream[old(rio.Taken())..], call) && rio.Taken() == old(rio.Taken()) + |s|
  {
    ghost var t := rio.Taken();
    match call
    case Bytes(n) =>
      var usrbuf := new Byte[n];
      var rc := rio.ReadNB(usrbuf, n);
      s := usrbuf[..rc];
      assert s == rio.fd.stream[t..][..rc];
    case TextLine(maxlen) =>
      var usrbuf := new Byte[maxlen + 1];
      var rc := rio.ReadLineB(usrbuf, maxlen);
      ghost var l := NextLine(rio.fd.stream[t..], maxlen);
      var k := if rc > 0 && usrbuf[rc - 1] != NEWLINE then rc - 1 else rc;
      assert k == |l| by { StoredLength(rio.fd.stream[t..], maxlen, usrbuf[..]); }
      s := usrbuf[..k];
  }
}
