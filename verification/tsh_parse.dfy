/** parseline: the tokenizer over its line buffer, terminating each token in place. */
module Tokenizer {
  import opened CommandLines

  /** A pointer into the line buffer. */
  datatype Ptr = Null | At(i: nat)

  datatype Builtin = NONE | QUIT | JOBS | BG | FG

  const NUL: char := '\0'

  function BuiltinOf(name: string): Builtin {
    if name == "quit" then QUIT
    else if name == "jobs" then JOBS
    else if name == "bg" then BG
    else if name == "fg" then FG
    else NONE
  }

  /** b is the builtin that is called name. */
  predicate Names(b: Builtin, name: string) {
    && (b == QUIT <==> name == "quit") && (b == JOBS <==> name == "jobs")
    && (b == BG <==> name == "bg") && (b == FG <==> name == "fg")
  }

  predicate NoNul(s: string) { forall i :: 0 <= i < |s| ==> s[i] != NUL }

  function Rest(s: string, p: nat): string { if p <= |s| then s[p..] else "" }

  function CharAt(line: string, i: nat): char { if i < |line| then line[i] else NUL }

  /** From p on the buffer still holds the line, and then NULs. */
  ghost predicate Unread(a: array<char>, line: string, p: nat)
    reads a
  {
    && a.Length == MAXLINE && |line| < MAXLINE && NoNul(line)
    && forall i :: p <= i < MAXLINE ==> a[i] == CharAt(line, i)
  }

  // ------------------------------------------------------- strings behind pointers

  /** The NUL-terminated string that starts at i. */
  function CString(b: string, i: nat): (s: string)
    ensures i <= |b| ==> i + |s| <= |b|
    decreases |b| - i
  {
    if i >= |b| || b[i] == NUL then "" else [b[i]] + CString(b, i + 1)
  }

  function Text(b: string, p: Ptr): Option<string> { if p.Null? then None else Some(CString(b, p.i)) }

  /** Where the string behind p ends, its NUL included. */
  function EndOf(b: string, p: Ptr): nat { if p.Null? then 0 else p.i + |CString(b, p.i)| + 1 }

  /** The strings behind the pointers; None when one of them is null. */
  function Texts(b: string, ps: seq<Ptr>): (r: Option<seq<string>>)
    ensures r.Some? ==> |r.value| == |ps|
  {
    if ps == [] then Some([])
    else
      var last := |ps| - 1;
      var r := Texts(b, ps[..last]);
      if r.None? || ps[last].Null? then None else Some(r.value + [CString(b, ps[last].i)])
  }

  function LastEnd(b: string, ps: seq<Ptr>): nat {
    if ps == [] then 0
    else
      var e, m := EndOf(b, ps[|ps| - 1]), LastEnd(b, ps[..|ps| - 1]);
      if e > m then e else m
  }

  lemma {:induction false} CStringIs(b: string, i: nat, s: string)
    requires i + |s| < |b| && b[i + |s|] == NUL && forall k :: 0 <= k < |s| ==> b[i + k] == s[k] && s[k] != NUL
    ensures CString(b, i) == s
    decreases |s|
  {
    if s != "" {
      assert b[i + 0] == s[0];
      forall k | 0 <= k < |s| - 1 ensures b[i + 1 + k] == s[1..][k] && s[1..][k] != NUL {
        assert b[i + (k + 1)] == s[k + 1];
      }
      CStringIs(b, i + 1, s[1..]);
    }
  }

  lemma {:induction false} CStringChars(b: string, i: nat, k: nat)
    requires k <= |CString(b, i)| && i + |CString(b, i)| < |b|
    ensures b[i + k] == CharAt(CString(b, i), k)
    ensures k < |CString(b, i)| ==> b[i + k] != NUL
    decreases k
  {
    if k > 0 { CStringChars(b, i + 1, k - 1); }
  }

  /** Strings stay in place when what is behind them changes. */
  lemma {:induction false} CStringKeeps(b: string, b': string, i: nat, from: nat)
    requires |b| == |b'| && from <= |b| && b[..from] == b'[..from] && i + |CString(b, i)| < from
    ensures CString(b', i) == CString(b, i)
    decreases |b| - i
  {
    assert b[i] == b[..from][i] && b'[i] == b'[..from][i];
    if b[i] != NUL { CStringKeeps(b, b', i + 1, from); }
  }

  lemma TextKeeps(b: string, b': string, p: Ptr, from: nat)
    requires |b| == |b'| && from <= |b| && b[..from] == b'[..from] && EndOf(b, p) <= from
    ensures Text(b', p) == Text(b, p) && EndOf(b', p) == EndOf(b, p)
  {
    if p.At? { CStringKeeps(b, b', p.i, from); }
  }

  lemma {:induction false} TextsKeep(b: string, b': string, ps: seq<Ptr>, from: nat)
    requires |b| == |b'| && from <= |b| && b[..from] == b'[..from] && LastEnd(b, ps) <= from
    ensures Texts(b', ps) == Texts(b, ps) && LastEnd(b', ps) == LastEnd(b, ps)
  {
    if ps != [] {
      var last := |ps| - 1;
      TextKeeps(b, b', ps[last], from);
      TextsKeep(b, b', ps[..last], from);
    }
  }

  lemma {:induction false} TextsAt(b: string, ps: seq<Ptr>, i: nat)
    requires Texts(b, ps).Some? && i < |ps|
    ensures Text(b, ps[i]) == Some(Texts(b, ps).value[i]) && EndOf(b, ps[i]) <= LastEnd(b, ps)
    decreases |ps|
  {
    if i < |ps| - 1 { TextsAt(b, ps[..|ps| - 1], i); }
  }

  lemma TextsMore(b: string, ps: seq<Ptr>, p: Ptr)
    requires p.At? && Texts(b, ps).Some?
    ensures Texts(b, ps + [p]) == Some(Texts(b, ps).value + [CString(b, p.i)])
    ensures LastEnd(b, ps + [p]) == if EndOf(b, p) > LastEnd(b, ps) then EndOf(b, p) else LastEnd(b, ps)
  {
    assert (ps + [p])[..|ps|] == ps;
  }

  // The scan of the rest of the line at one position.

  lemma AtBlank(line: string, p: nat, q: nat, t: Line)
    requires p <= |line| && q == p + Spn(line[p..])
    ensures q <= |line| && Scan(line[p..], t) == Scan(line[q..], t)
    ensures q < |line| ==> !IsDelim(line[q])
    ensures q == |line| ==> Scan(line[p..], t) == Some(t)
  {
    var s := line[p..];
    assert s[Spn(s)..] == line[q..];
    assert Spn(line[q..]) == 0;
    assert line[q..][0..] == line[q..];
  }

  lemma AtOp(line: string, p: nat, t: Line)
    requires p < |line| && IsOp(line[p])
    ensures var output := line[p] == '>';
      Scan(line[p..], t) == if File(t, output).Some? then None else Scan(Rest(line, p + 1), Want(t, output))
  {
    ScanOp(line[p..], t);
    assert line[p..][1..] == line[p + 1..];
  }

  lemma AtOpAfter(line: string, p: nat, t: Line, output: bool)
    requires p < |line| && line[p] == Op(output) && !Full(t)
    ensures Scan(line[p..], t)
         == if File(t, output).Some? then None else After(Want(t, output), Rest(line, p + 1))
  {
    AtOp(line, p, t);
  }

  predicate Acceptable(t: Line, s: string)
    requires s != "" && !IsDelim(s[0])
  {
    Cut(s).Some? && !(t.wantIn && t.wantOut)
  }

  function RecordCut(t: Line, s: string): Line
    requires s != "" && !IsDelim(s[0])
  {
    if Acceptable(t, s) then Record(t, Cut(s).value.text) else t
  }

  lemma CutRecords(t: Line, s: string, text: string)
    requires s != "" && !IsDelim(s[0]) && Cut(s).Some? && Cut(s).value.text == text
    ensures Acceptable(t, s) <==> !(t.wantIn && t.wantOut)
    ensures Acceptable(t, s) ==> RecordCut(t, s) == Record(t, text)
  { }

  lemma AtToken(line: string, p: nat, t: Line, ok: bool, next: nat)
    requires p < |line| && !IsDelim(line[p]) && !IsOp(line[p]) && (ok <==> Acceptable(t, line[p..]))
    requires ok ==> Rest(line, next) == Cut(line[p..]).value.rest
    ensures Scan(line[p..], t) == if ok then After(RecordCut(t, line[p..]), Rest(line, next)) else None
    ensures ok ==> Normal(RecordCut(t, line[p..]))
  {
    var s := line[p..];
    assert Spn(s) == 0;
    assert s[0..] == s;
  }

  lemma CutAtQuote(line: string, p: nat)
    requires p < |line| && IsQuote(line[p])
    ensures var n := p + 1 + Chr(line[p + 1..], line[p]);
      Cut(line[p..]) == if n == |line| then None else Some(Cutting(line[p + 1..n], line[n + 1..]))
  {
    var r := line[p..];
    assert r[1..] == line[p + 1..];
    var k := Chr(r[1..], r[0]);
    if k < |r| - 1 {
      assert r[k + 2..] == line[p + k + 2..];
      assert r[1..k + 1] == line[p + 1..p + k + 1];
    }
  }

  lemma CutAtBlank(line: string, p: nat)
    requires p < |line| && !IsQuote(line[p]) && !IsDelim(line[p])
    ensures var n := p + Cspn(line[p..]);
      Cut(line[p..]) == Some(Cutting(line[p..n], Rest(line, n + 1)))
  {
    var r := line[p..];
    assert r[0] == line[p];
    CutBareIs(r);
    Slices(line, p, Cspn(r));
  }

  lemma CutBareIs(r: string)
    requires r != "" && !IsQuote(r[0]) && !IsDelim(r[0])
    ensures var k := Cspn(r);
      Cut(r) == Some(Cutting(r[..k], if k < |r| then r[k + 1..] else ""))
  { }

  lemma Slices(line: string, p: nat, k: nat)
    requires p + k <= |line|
    ensures line[p..][..k] == line[p..p + k]
    ensures p + k < |line| ==> line[p..][k + 1..] == line[p + k + 1..]
  { }

  class Parser {
    const buffer: array<char>
    const argv: array<Ptr>
    var argc: nat
    var infile: Ptr
    var outfile: Ptr
    var builtins: Builtin

    constructor ()
      ensures Valid() && fresh(buffer) && fresh(argv)
    {
      buffer := new char[MAXLINE](_ => NUL);
      argv := new Ptr[MAXARGS](_ => Null);
      argc, infile, outfile, builtins := 0, Null, Null, NONE;
    }

    ghost predicate Valid()
      reads this
    {
      buffer.Length == MAXLINE && argv.Length == MAXARGS
    }

    /** The recorded tokens are those of t, all ending before end. */
    ghost predicate Recorded(t: Line, end: nat)
      reads this, buffer, argv
    {
      && Valid() && argc < MAXARGS && end <= MAXLINE
      && Texts(buffer[..], argv[..argc]) == Some(t.args) && LastEnd(buffer[..], argv[..argc]) <= end
      && Text(buffer[..], infile) == t.infile && EndOf(buffer[..], infile) <= end
      && Text(buffer[..], outfile) == t.outfile && EndOf(buffer[..], outfile) <= end
    }

    // ------------------------------------------------------------ string functions

    /** strncpy: the line, padded with NULs. */
    method StrNCpy(line: string)
      requires Valid() && |line| < MAXLINE && NoNul(line)
      modifies buffer
      ensures Unread(buffer, line, 0)
    {
      for i := 0 to MAXLINE
        invariant forall k :: 0 <= k < i ==> buffer[k] == if k < |line| then line[k] else NUL
      {
        buffer[i] := if i < |line| then line[i] else NUL;
      }
    }

    method StrLen(ghost line: string) returns (n: nat)
      requires Valid() && Unread(buffer, line, 0)
      ensures n == |line|
    {
      n := 0;
      while buffer[n] != NUL
        invariant n <= |line|
        decreases |line| - n
      {
        n := n + 1;
      }
    }

    method StrSpn(p: nat, ghost line: string) returns (r: nat)
      requires Valid() && Unread(buffer, line, p) && p <= |line|
      ensures r == p + Spn(line[p..])
    {
      r := p;
      while IsDelim(buffer[r])
        invariant p <= r <= |line|
        invariant forall i :: p <= i < r ==> IsDelim(line[i])
        decreases |line| - r
      {
        r := r + 1;
      }
      SpnIs(line[p..], r - p);
    }

    method StrCspn(p: nat, ghost line: string) returns (r: nat)
      requires Valid() && Unread(buffer, line, p) && p <= |line|
      ensures r == p + Cspn(line[p..])
    {
      r := p;
      while !IsDelim(buffer[r]) && buffer[r] != NUL
        invariant p <= r <= |line|
        invariant forall i :: p <= i < r ==> !IsDelim(line[i])
        decreases |line| - r
      {
        r := r + 1;
      }
      CspnIs(line[p..], r - p);
    }

    method StrChr(p: nat, c: char, ghost line: string) returns (r: Ptr)
      requires Valid() && Unread(buffer, line, p) && p <= |line| && c != NUL
      ensures r == var k := Chr(line[p..], c); if k == |line| - p then Null else At(p + k)
    {
      var q := p;
      while buffer[q] != c && buffer[q] != NUL
        invariant p <= q <= |line|
        invariant forall i :: p <= i < q ==> line[i] != c
        decreases |line| - q
      {
        q := q + 1;
      }
      ChrIs(line[p..], c, q - p);
      r := if buffer[q] == c then At(q) else Null;
    }

    /** strcmp against a constant, for equality only. */
    method StrEq(p: Ptr, word: string) returns (same: bool)
      requires p.At? && EndOf(buffer[..], p) <= buffer.Length && NoNul(word)
      ensures same <==> CString(buffer[..], p.i) == word
    {
      ghost var s := CString(buffer[..], p.i);
      CStringChars(buffer[..], p.i, 0);
      var i := 0;
      while i < |word| && buffer[p.i + i] == word[i]
        invariant i <= |word| && i <= |s| && s[..i] == word[..i] && buffer[..][p.i + i] == CharAt(s, i)
        decreases |word| - i
      {
        assert i < |s| && s[i] == word[i];
        assert s[..i + 1] == s[..i] + [s[i]] && word[..i + 1] == word[..i] + [word[i]];
        i := i + 1;
        CStringChars(buffer[..], p.i, i);
      }
      CStringChars(buffer[..], p.i, i);
      same := i == |word| && buffer[p.i + i] == NUL;
      assert same ==> i == |s| && s[..i] == s && word[..i] == word;
    }

    // ------------------------------------------------------------------ the tokenizer

    /** The end of the token at buf, and where its text starts; Null for an unmatched quote. */
    method TokenEnd(buf: nat, ghost line: string) returns (start: nat, next: Ptr)
      requires Valid() && Unread(buffer, line, buf) && buf < |line| && !IsDelim(line[buf])
      ensures next.At? ==> buf <= start <= next.i <= |line|
      ensures Cut(line[buf..])
           == if next.Null? then None else Some(Cutting(line[start..next.i], Rest(line, next.i + 1)))
    {
      if buffer[buf] == '\'' || buffer[buf] == '\"' {
        next := QuoteEnd(buf + 1, line);
        return buf + 1, next;
      }
      next := BareEnd(buf, line);
      return buf, next;
    }

    /** The next blank, or the end of the line. */
    method BareEnd(buf: nat, ghost line: string) returns (next: Ptr)
      requires Valid() && buf < |line| && Unread(buffer, line, buf) && !IsQuote(line[buf]) && !IsDelim(line[buf])
      ensures next.At? && buf <= next.i <= |line|
      ensures Cut(line[buf..]) == Some(Cutting(line[buf..next.i], Rest(line, next.i + 1)))
    {
      var n := StrCspn(buf, line);
      next := At(n);
      CutAtBlank(line, buf);
    }

    /** The matching quote of the one before buf. */
    method QuoteEnd(buf: nat, ghost line: string) returns (next: Ptr)
      requires Valid() && 0 < buf <= |line| && Unread(buffer, line, buf - 1) && IsQuote(line[buf - 1])
      ensures next.At? ==> buf <= next.i <= |line|
      ensures Cut(line[buf - 1..])
           == if next.Null? then None else Some(Cutting(line[buf..next.i], Rest(line, next.i + 1)))
    {
      next := StrChr(buf, buffer[buf - 1], line);
      CutAtQuote(line, buf - 1);
    }

    /** Terminates the token at [start, next), behind those already recorded. */
    method Terminate(start: nat, next: nat, ghost line: string, ghost t: Line)
      requires start <= next <= |line| && Unread(buffer, line, start) && Recorded(t, start)
      modifies buffer
      ensures Recorded(t, next + 1) && Unread(buffer, line, next + 1)
      ensures CString(buffer[..], start) == line[start..next]
    {
      ghost var was := buffer[..];
      buffer[next] := NUL;
      assert was[..start] == buffer[..][..start];
      TextsKeep(was, buffer[..], argv[..argc], start);
      TextKeeps(was, buffer[..], infile, start);
      TextKeeps(was, buffer[..], outfile, start);
      CStringIs(buffer[..], start, line[start..next]);
    }

    /** Terminates the token and records it where the redirections say. */
    method RecordToken(start: nat, next: nat, wantIn: bool, wantOut: bool, ghost line: string, ghost t: Line)
      returns (ok: bool)
      requires start <= next <= |line| && Unread(buffer, line, start)
      requires Recorded(t, start) && t.wantIn == wantIn && t.wantOut == wantOut && !Full(t)
      modifies this, buffer, argv
      ensures Valid() && builtins == old(builtins)
      ensures ok <==> !(wantIn && wantOut)
      ensures ok ==> Unread(buffer, line, next + 1) && Recorded(Record(t, line[start..next]), next + 1)
    {
      Terminate(start, next, line, t);
      if wantIn && wantOut { return false; }
      if wantIn {
        infile := At(start);
      } else if wantOut {
        outfile := At(start);
      } else {
        ghost var ps := argv[..argc];
        argv[argc] := At(start);
        argc := argc + 1;
        assert argv[..argc] == ps + [At(start)];
        TextsMore(buffer[..], ps, At(start));
      }
      return true;
    }

    /** Cuts off and records the token at buf; an error for an unmatched quote or when
        two redirections wait for it. */
    method TakeToken(buf: nat, wantIn: bool, wantOut: bool, ghost line: string, ghost t: Line)
      returns (ok: bool, after: nat)
      requires buf < |line| && Unread(buffer, line, buf) && !IsDelim(line[buf])
      requires Recorded(t, buf) && t.wantIn == wantIn && t.wantOut == wantOut && !Full(t)
      modifies this, buffer, argv
      ensures Valid() && builtins == old(builtins)
      ensures ok <==> Acceptable(t, line[buf..])
      ensures ok ==>
        && buf < after <= |line| + 1 && Rest(line, after) == Cut(line[buf..]).value.rest
        && Unread(buffer, line, after) && Recorded(RecordCut(t, line[buf..]), after)
    {
      var start, end := TokenEnd(buf, line);
      if end.Null? { return false, 0; }
      after := end.i + 1;
      CutRecords(t, line[buf..], line[start..end.i]);
      ok := RecordToken(start, end.i, wantIn, wantOut, line, t);
    }

    /** The loop's state: the line is unread from buf on, and t is what it gave so far. */
    ghost predicate Reading(line: string, buf: nat, t: Line)
      reads this, buffer, argv
    {
      Unread(buffer, line, buf) && Recorded(t, buf) && !Full(t)
    }

    /** A turn of the loop from buf: an error the scan makes too, or u recorded and unread from after. */
    ghost predicate Progress(line: string, buf: nat, t: Line, ok: bool, after: nat, u: Line)
      requires buf <= |line|
      reads this, buffer, argv
    {
      if !ok then Scan(line[buf..], t) == None
      else
        && buf < after <= |line| + 1 && Unread(buffer, line, after) && Recorded(u, after)
        && Scan(line[buf..], t) == After(u, Rest(line, after))
    }

    /** A token that is no operator, and what the scan makes of it. */
    method Word(buf: nat, wantIn: bool, wantOut: bool, ghost line: string, ghost t: Line)
      returns (ok: bool, after: nat)
      requires Reading(line, buf, t) && buf < |line| && !IsDelim(line[buf]) && !IsOp(line[buf])
      requires t.wantIn == wantIn && t.wantOut == wantOut
      modifies this, buffer, argv
      ensures Valid() && builtins == old(builtins)
      ensures Progress(line, buf, t, ok, after, RecordCut(t, line[buf..]))
      ensures ok ==> Normal(RecordCut(t, line[buf..]))
    {
      ok, after := TakeToken(buf, wantIn, wantOut, line, t);
      AtToken(line, buf, t, ok, after);
    }

    /** One turn of the loop, after the blanks are skipped; an error when ok is false. */
    method OneToken(buf: nat, wantIn: bool, wantOut: bool, ghost line: string, ghost t: Line)
      returns (ok: bool, buf': nat, wantIn': bool, wantOut': bool, ghost u: Line)
      requires Reading(line, buf, t) && buf < |line| && !IsDelim(line[buf])
      requires t.wantIn == wantIn && t.wantOut == wantOut
      modifies this, buffer, argv
      ensures Valid() && builtins == old(builtins)
      ensures Progress(line, buf, t, ok, buf', u)
      ensures ok ==> u.wantIn == wantIn' && u.wantOut == wantOut'
    {
      if buffer[buf] == '<' {
        Operator(line, buf, t, false);
        return infile == Null, buf + 1, true, wantOut, Want(t, false);
      }
      if buffer[buf] == '>' {
        Operator(line, buf, t, true);
        return outfile == Null, buf + 1, wantIn, true, Want(t, true);
      }
      ok, buf' := Word(buf, wantIn, wantOut, line, t);
      return ok, buf', false, false, RecordCut(t, line[buf..]);
    }

    /** What an operator does to the loop's state. */
    lemma Operator(line: string, buf: nat, t: Line, output: bool)
      requires Reading(line, buf, t) && buf < |line| && line[buf] == Op(output)
      ensures Progress(line, buf, t, (if output then outfile else infile) == Null, buf + 1, Want(t, output))
    {
      AtOpAfter(line, buf, t, output);
    }

    /** The loop: the state it stops in, or an error. */
    method Tokens(endbuf: nat, ghost line: string) returns (ok: bool, wantIn: bool, wantOut: bool, ghost t: Line)
      requires Reading(line, 0, EMPTY) && endbuf == |line|
      modifies this, buffer, argv
      ensures Valid() && builtins == old(builtins)
      ensures !ok ==> Scan(line, EMPTY) == None
      ensures ok ==> Scan(line, EMPTY) == Some(t) && Recorded(t, MAXLINE)
      ensures ok ==> t.wantIn == wantIn && t.wantOut == wantOut
    {
      var buf := 0;
      ok, wantIn, wantOut, t := true, false, false, EMPTY;
      while buf < endbuf
        invariant Reading(line, buf, t) && ok && buf <= MAXLINE
        invariant t.wantIn == wantIn && t.wantOut == wantOut
        invariant Scan(line, EMPTY) == Scan(Rest(line, buf), t) && builtins == old(builtins)
        decreases endbuf - buf
      {
        var at := StrSpn(buf, line);
        AtBlank(line, buf, at, t);
        buf := at;
        if buf >= endbuf { break; }
        ok, buf, wantIn, wantOut, t := OneToken(buf, wantIn, wantOut, line, t);
        if !ok { return; }
        if argc >= MAXARGS - 1 { break; }
      }
    }

    method ParseLine(cmdline: string) returns (ret: int)
      requires Valid() && |cmdline| < MAXLINE && NoNul(cmdline)
      modifies this, buffer, argv
      ensures Valid() && (Parse(cmdline).Rejected? ==> ret == -1)
      ensures Parse(cmdline).Command? ==>
        && ret == Parse(cmdline).ret && Presented(Parse(cmdline))
        && builtins == BuiltinFor(Scan(cmdline, EMPTY), old(builtins))
      ensures Parse(cmdline).Command? && Parse(cmdline).args != [] ==>
        var name := Parse(cmdline).args[0];
        && (builtins == QUIT <==> name == "quit") && (builtins == JOBS <==> name == "jobs")
        && (builtins == BG <==> name == "bg") && (builtins == FG <==> name == "fg")
    {
      StrNCpy(cmdline);
      var endbuf := StrLen(cmdline);
      infile, outfile := Null, Null;
      argc := 0;
      var ok, wantIn, wantOut, t := Tokens(endbuf, cmdline);
      if !ok { return -1; }
      ret := Conclude(wantIn, wantOut, t);
    }

    method WhichBuiltin(p: Ptr) returns (b: Builtin)
      requires p.At? && EndOf(buffer[..], p) <= buffer.Length
      ensures b == BuiltinOf(CString(buffer[..], p.i)) && Names(b, CString(buffer[..], p.i))
    {
      b := NONE;
      var same := StrEq(p, "quit");
      if same { return QUIT; }
      same := StrEq(p, "jobs");
      if same { return JOBS; }
      same := StrEq(p, "bg");
      if same { return BG; }
      same := StrEq(p, "fg");
      if same { return FG; }
    }

    /** After the loop: the end of the argument list, the builtin, the background mark. */
    method Conclude(wantIn: bool, wantOut: bool, ghost t: Line) returns (ret: int)
      requires Recorded(t, MAXLINE) && t.wantIn == wantIn && t.wantOut == wantOut
      modifies this, argv
      ensures Valid() && (Finish(Some(t)).Rejected? ==> ret == -1)
      ensures Finish(Some(t)).Command? ==>
        && ret == Finish(Some(t)).ret && Presented(Finish(Some(t)))
        && builtins == BuiltinFor(Some(t), old(builtins))
    {
      if wantIn || wantOut { return -1; }
      ghost var b, ps := buffer[..], argv[..argc];
      argv[argc] := Null;
      assert argv[..argc] == ps;
      if argc == 0 { return 1; }
      TextsAt(b, ps, 0);
      builtins := WhichBuiltin(argv[0]);
      ret := Background(t);
    }

    /** Takes a last argument that starts with & off the list. */
    method Background(ghost t: Line) returns (ret: int)
      requires Recorded(t, MAXLINE) && Normal(t) && 0 < argc && argv[argc] == Null
      modifies this`argc, argv
      ensures ret == Finish(Some(t)).ret && Presented(Finish(Some(t)))
    {
      ghost var ps := argv[..argc];
      TextsAt(buffer[..], ps, argc - 1);
      assert argv[argc - 1] == ps[argc - 1];
      if buffer[argv[argc - 1].i] == '&' {
        argc := argc - 1;
        argv[argc] := Null;
        assert argv[..argc] == ps[..argc];
        return 1;
      }
      return 0;
    }

    /** The structure presents this command. */
    ghost predicate Presented(c: Command)
      reads this, buffer, argv
      requires c.Command?
    {
      && Valid() && argc == |c.args| < MAXARGS && argv[argc] == Null
      && Texts(buffer[..], argv[..argc]) == Some(c.args)
      && Text(buffer[..], infile) == c.infile && Text(buffer[..], outfile) == c.outfile
    }
  }

  /** A blank line leaves the field as it was. */
  function BuiltinFor(t: Option<Line>, was: Builtin): Builtin {
    if t.None? || t.value.args == [] then was else BuiltinOf(t.value.args[0])
  }
}
