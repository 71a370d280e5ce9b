/** The shell's command lines: what the tokenizer computes of a line, and the grammar it accepts. */
module CommandLines {

  const MAXLINE := 1024
  const MAXARGS := 128

  datatype Option<T> = None | Some(value: T)

  predicate IsDelim(c: char) { c == ' ' || c == '\t' || c == '\r' || c == '\n' }
  predicate IsQuote(c: char) { c == '\'' || c == '\"' }

  // ------------------------------------------------------------------- scanning

  /** The number of delimiters s starts with (strspn). */
  function Spn(s: string): (k: nat)
    ensures k <= |s| && (k < |s| ==> !IsDelim(s[k]))
  {
    if s == "" || !IsDelim(s[0]) then 0 else 1 + Spn(s[1..])
  }

  /** The number of characters before the first delimiter of s (strcspn). */
  function Cspn(s: string): (k: nat)
    ensures k <= |s| && (k < |s| ==> IsDelim(s[k]))
  {
    if s == "" || IsDelim(s[0]) then 0 else 1 + Cspn(s[1..])
  }

  /** The index of the first c in s, or |s| (strchr). */
  function Chr(s: string, c: char): (k: nat)
    ensures k <= |s| && (k < |s| ==> s[k] == c)
  {
    if s == "" || s[0] == c then 0 else 1 + Chr(s[1..], c)
  }

  datatype Cutting = Cutting(text: string, rest: string)

  /** The token at the start of r and what follows its terminator; None for an unmatched quote. */
  function Cut(r: string): (c: Option<Cutting>)
    requires r != "" && !IsDelim(r[0])
    ensures c.Some? ==> |c.value.rest| < |r|
  {
    if IsQuote(r[0]) then
      var k := Chr(r[1..], r[0]);
      if k == |r| - 1 then None else Some(Cutting(r[1..k + 1], r[k + 2..]))
    else
      var k := Cspn(r);
      Some(Cutting(r[..k], if k < |r| then r[k + 1..] else ""))
  }

  /** The tokens so far, and which redirections still lack their file. */
  datatype Line = Line(args: seq<string>, infile: Option<string>, outfile: Option<string>,
                       wantIn: bool, wantOut: bool)

  const EMPTY: Line := Line([], None, None, false, false)

  predicate Normal(t: Line) { !t.wantIn && !t.wantOut }

  predicate Full(t: Line) { |t.args| >= MAXARGS - 1 }

  function File(t: Line, output: bool): Option<string> { if output then t.outfile else t.infile }

  function Want(t: Line, output: bool): Line {
    if output then t.(wantOut := true) else t.(wantIn := true)
  }

  function Record(t: Line, text: string): Line
    requires !(t.wantIn && t.wantOut)
  {
    if t.wantIn then t.(infile := Some(text), wantIn := false)
    else if t.wantOut then t.(outfile := Some(text), wantOut := false)
    else t.(args := t.args + [text])
  }

  predicate IsOp(c: char) { c == '<' || c == '>' }
  function Op(output: bool): char { if output then '>' else '<' }

  /** What the loop makes of the rest of the line; None is a formatting error. */
  function Scan(s: string, t: Line): Option<Line>
    decreases |s|
  {
    var r := s[Spn(s)..];
    if r == "" then Some(t)
    else if IsOp(r[0]) then
      if File(t, r[0] == '>').Some? then None else Scan(r[1..], Want(t, r[0] == '>'))
    else
      match Cut(r)
      case None => None
      case Some(c) =>
        if t.wantIn && t.wantOut then None
        else
          var u := Record(t, c.text);
          if Full(u) then Some(u) else Scan(c.rest, u)
  }

  /** A parsed command; ret is parseline's result, 1 for a background job or a blank line. */
  datatype Command =
    | Rejected
    | Command(args: seq<string>, infile: Option<string>, outfile: Option<string>, ret: int)

  predicate StartsAmp(s: string) { s != "" && s[0] == '&' }

  function Finish(t: Option<Line>): Command {
    match t
    case None => Rejected
    case Some(u) =>
      if !Normal(u) then Rejected
      else if u.args == [] then Command([], u.infile, u.outfile, 1)
      else
        var last := |u.args| - 1;
        if StartsAmp(u.args[last]) then Command(u.args[..last], u.infile, u.outfile, 1)
        else Command(u.args, u.infile, u.outfile, 0)
  }

  function Parse(s: string): Command { Finish(Scan(s, EMPTY)) }

  // -------------------------------------------------------------------- grammar

  datatype Token = Quoted(quote: char, text: string) | Bare(text: string)

  /** An argument, or a redirection with its file name; the operator may be repeated in the gap. */
  datatype Item =
    | Arg(sep: string, tok: Token)
    | Redirect(sep: string, output: bool, gap: string, tok: Token)

  function PrintToken(k: Token): string {
    match k
    case Quoted(q, text) => [q] + text + [q]
    case Bare(text) => text
  }

  function PrintItem(i: Item): string {
    match i
    case Arg(sep, tok) => sep + PrintToken(tok)
    case Redirect(sep, output, gap, tok) => sep + ([Op(output)] + (gap + PrintToken(tok)))
  }

  function Print(items: seq<Item>, tail: string): string {
    if items == [] then tail else PrintItem(items[0]) + Print(items[1..], tail)
  }

  predicate Blank(s: string) { forall i :: 0 <= i < |s| ==> IsDelim(s[i]) }

  predicate TokenOk(k: Token) {
    match k
    case Quoted(q, text) => IsQuote(q) && q !in text
    case Bare(text) =>
      && text != "" && !IsOp(text[0]) && !IsQuote(text[0])
      && forall i :: 0 <= i < |text| ==> !IsDelim(text[i])
  }

  /** The gap between an operator and its file name. */
  predicate GapOk(gap: string, output: bool) {
    forall k :: 0 <= k < |gap| ==> IsDelim(gap[k]) || gap[k] == Op(output)
  }

  predicate ItemOk(i: Item) {
    && Blank(i.sep) && TokenOk(i.tok)
    && (i.Redirect? ==> GapOk(i.gap, i.output))
  }

  predicate StartsBlank(s: string) { s == "" || IsDelim(s[0]) }

  /** Well-formed items in front of tail, and a blank after every bare token. */
  predicate Spelled(items: seq<Item>, tail: string) {
    items == [] ||
    (&& ItemOk(items[0]) && Spelled(items[1..], tail)
     && (items[0].tok.Bare? ==> StartsBlank(Print(items[1..], tail))))
  }

  predicate WellFormed(items: seq<Item>, tail: string) { Spelled(items, tail) && Blank(tail) }

  function ArgsOf(items: seq<Item>): seq<string> {
    if items == [] then []
    else (if items[0].Arg? then [items[0].tok.text] else []) + ArgsOf(items[1..])
  }

  function FilesOf(items: seq<Item>, output: bool): seq<string> {
    if items == [] then []
    else (if items[0].Redirect? && items[0].output == output then [items[0].tok.text] else [])
         + FilesOf(items[1..], output)
  }

  // ---------------------------------------------------- the tokenizer reads the grammar

  /** One item taken in; None when its redirection is already there. */
  function Take(t: Line, i: Item): Option<Line>
    requires Normal(t)
  {
    if i.Arg? then Some(t.(args := t.args + [i.tok.text]))
    else if File(t, i.output).Some? then None
    else if i.output then Some(t.(outfile := Some(i.tok.text)))
    else Some(t.(infile := Some(i.tok.text)))
  }

  /** The items taken in turn until the argument list is full. */
  function TakeAll(t: Line, items: seq<Item>): Option<Line>
    requires Normal(t)
    decreases |items|
  {
    if items == [] then Some(t)
    else
      match Take(t, items[0])
      case None => None
      case Some(u) => if Full(u) then Some(u) else TakeAll(u, items[1..])
  }

  lemma SkipDelim(s: string, t: Line)
    requires s != "" && IsDelim(s[0])
    ensures Scan(s, t) == Scan(s[1..], t)
  {
    assert s[Spn(s)..] == s[1..][Spn(s[1..])..];
  }

  lemma {:induction false} SkipBlank(sep: string, x: string, t: Line)
    requires Blank(sep)
    ensures Scan(sep + x, t) == Scan(x, t)
  {
    if sep == "" {
      assert sep + x == x;
    } else {
      assert (sep + x)[0] == sep[0] && (sep + x)[1..] == sep[1..] + x;
      SkipDelim(sep + x, t);
      SkipBlank(sep[1..], x, t);
    }
  }

  /** An operator adds nothing to a redirection that already waits for its file. */
  lemma {:induction false} SkipGap(gap: string, output: bool, x: string, t: Line)
    requires GapOk(gap, output)
    requires t == Want(t, output) && File(t, output).None?
    ensures Scan(gap + x, t) == Scan(x, t)
  {
    if gap == "" {
      assert gap + x == x;
    } else {
      var s := gap + x;
      assert s[1..] == gap[1..] + x;
      if IsDelim(s[0]) {
        SkipDelim(s, t);
      } else {
        assert s[Spn(s)..] == s;
      }
      SkipGap(gap[1..], output, x, t);
    }
  }

  lemma {:induction false} SpnIs(s: string, k: nat)
    requires k <= |s| && (k < |s| ==> !IsDelim(s[k])) && forall i :: 0 <= i < k ==> IsDelim(s[i])
    ensures Spn(s) == k
  {
    if k > 0 { SpnIs(s[1..], k - 1); }
  }

  lemma {:induction false} CspnIs(s: string, k: nat)
    requires k <= |s| && (k < |s| ==> IsDelim(s[k])) && forall i :: 0 <= i < k ==> !IsDelim(s[i])
    ensures Cspn(s) == k
  {
    if k > 0 { CspnIs(s[1..], k - 1); }
  }

  lemma {:induction false} ChrIs(s: string, c: char, k: nat)
    requires k <= |s| && (k < |s| ==> s[k] == c) && forall i :: 0 <= i < k ==> s[i] != c
    ensures Chr(s, c) == k
  {
    if k > 0 { ChrIs(s[1..], c, k - 1); }
  }

  lemma {:induction false} CspnFirst(s: string, i: nat)
    requires i < Cspn(s)
    ensures !IsDelim(s[i])
  {
    if i > 0 { CspnFirst(s[1..], i - 1); }
  }

  lemma {:induction false} ChrFirst(s: string, c: char, i: nat)
    requires i < Chr(s, c)
    ensures s[i] != c
  {
    if i > 0 { ChrFirst(s[1..], c, i - 1); }
  }

  /** left is right, or right without its first delimiter. */
  predicate SameWords(left: string, right: string) {
    left == right || (right != "" && IsDelim(right[0]) && left == right[1..])
  }

  /** A printed token is cut off again whole. */
  lemma CutToken(k: Token, rest: string)
    requires TokenOk(k) && (k.Bare? ==> StartsBlank(rest))
    ensures var r := PrintToken(k) + rest;
      && r != "" && !IsDelim(r[0]) && !IsOp(r[0])
      && Cut(r).Some? && Cut(r).value.text == k.text && SameWords(Cut(r).value.rest, rest)
  {
    if k.Quoted? { CutQuoted(k.quote, k.text, rest); } else { CutBare(k.text, rest); }
  }

  lemma CutQuoted(q: char, text: string, rest: string)
    requires TokenOk(Quoted(q, text))
    ensures Cut([q] + text + [q] + rest) == Some(Cutting(text, rest))
  {
    var r := [q] + text + [q] + rest;
    var x := r[1..];
    assert x == text + ([q] + rest);
    assert x[|text|] == q;
    ChrIs(x, q, |text|);
    assert r[1..|text| + 1] == text;
    assert r[|text| + 2..] == rest;
  }

  lemma CutBare(text: string, rest: string)
    requires TokenOk(Bare(text)) && StartsBlank(rest)
    ensures Cut(text + rest) == Some(Cutting(text, if rest == "" then "" else rest[1..]))
  {
    var r := text + rest;
    CspnIs(r, |text|);
    assert r[..|text|] == text;
    assert |text| < |r| ==> r[|text| + 1..] == rest[1..];
  }

  /** Conversely what is cut off is a printed token. */
  lemma CutPrints(r: string) returns (k: Token, rest: string)
    requires r != "" && !IsDelim(r[0]) && !IsOp(r[0]) && Cut(r).Some?
    ensures TokenOk(k) && (k.Bare? ==> StartsBlank(rest))
    ensures r == PrintToken(k) + rest && |rest| < |r|
    ensures Cut(r).value.text == k.text && SameWords(Cut(r).value.rest, rest)
  {
    var text := Cut(r).value.text;
    if IsQuote(r[0]) {
      k, rest := Quoted(r[0], text), r[|text| + 2..];
      var n := Chr(r[1..], r[0]);
      assert r[1..][n] == r[0];
      forall i | 0 <= i < n ensures text[i] != r[0] { ChrFirst(r[1..], r[0], i); }
      assert r == [r[0]] + text + [r[0]] + rest;
    } else {
      k, rest := Bare(text), r[|text|..];
      assert text[0] == r[0];
      forall i | 0 <= i < |text| ensures !IsDelim(text[i]) { CspnFirst(r, i); }
    }
  }

  lemma SameWordsScan(left: string, right: string, t: Line)
    requires SameWords(left, right)
    ensures Scan(left, t) == Scan(right, t)
  {
    if left != right { SkipDelim(right, t); }
  }

  function After(t: Line, rest: string): Option<Line> { if Full(t) then Some(t) else Scan(rest, t) }

  lemma ScanToken(k: Token, rest: string, t: Line)
    requires TokenOk(k) && (k.Bare? ==> StartsBlank(rest)) && !(t.wantIn && t.wantOut)
    ensures Scan(PrintToken(k) + rest, t) == After(Record(t, k.text), rest)
  {
    var r := PrintToken(k) + rest;
    CutToken(k, rest);
    assert r[Spn(r)..] == r;
    SameWordsScan(Cut(r).value.rest, rest, Record(t, k.text));
  }

  lemma ScanItem(i: Item, rest: string, t: Line)
    requires ItemOk(i) && (i.tok.Bare? ==> StartsBlank(rest)) && Normal(t)
    ensures Scan(PrintItem(i) + rest, t)
         == match Take(t, i) { case None => None case Some(u) => After(u, rest) }
  {
    var w := PrintToken(i.tok) + rest;
    if i.Arg? {
      assert PrintItem(i) + rest == i.sep + w;
      SkipBlank(i.sep, w, t);
      ScanToken(i.tok, rest, t);
    } else {
      var s := [Op(i.output)] + (i.gap + w);
      assert PrintItem(i) + rest == i.sep + s;
      SkipBlank(i.sep, s, t);
      assert s[Spn(s)..] == s && s[1..] == i.gap + w;
      if File(t, i.output).None? {
        SkipGap(i.gap, i.output, w, Want(t, i.output));
        ScanToken(i.tok, rest, Want(t, i.output));
      }
    }
  }

  /** Printing and scanning are inverse: a printed line is scanned to its own items, up to the
      first redirection given twice and to the 127th argument. */
  lemma {:induction false} ScanPrint(items: seq<Item>, tail: string, t: Line)
    requires Spelled(items, tail) && Normal(t) && !Full(t)
    ensures Scan(Print(items, tail), t)
         == match TakeAll(t, items) { case None => None case Some(u) => After(u, tail) }
    decreases |items|
  {
    if items != [] {
      ScanItem(items[0], Print(items[1..], tail), t);
      var u := Take(t, items[0]);
      if u.Some? && !Full(u.value) { ScanPrint(items[1..], tail, u.value); }
    }
  }

  lemma BlankAfter(u: Line, tail: string)
    requires Blank(tail)
    ensures After(u, tail) == Some(u)
  {
    SkipBlank(tail, "", u);
    assert tail + "" == tail;
  }

  // ------------------------------------------- every line it accepts is in the grammar

  /** Two redirections waiting for one file end in an error. */
  lemma {:induction false} BothWantFails(s: string, t: Line)
    requires t.wantIn && t.wantOut
    ensures Scan(s, t) == None || Scan(s, t) == Some(t)
    decreases |s|
  {
    var r := s[Spn(s)..];
    if r != "" && IsOp(r[0]) { BothWantFails(r[1..], t); }
  }

  lemma ScanOp(s: string, t: Line)
    requires s != "" && IsOp(s[0])
    ensures var output := s[0] == '>';
      Scan(s, t) == if File(t, output).Some? then None else Scan(s[1..], Want(t, output))
  {
    assert Spn(s) == 0;
    assert s[0..] == s;
  }

  /** A line scanned without error that starts with no blank and no operator starts with a token. */
  lemma TokenAt(s: string, t: Line) returns (k: Token, rest: string)
    requires s != "" && !IsDelim(s[0]) && !IsOp(s[0]) && Scan(s, t).Some? && !(t.wantIn && t.wantOut)
    ensures s == PrintToken(k) + rest && |rest| < |s| && TokenOk(k) && (k.Bare? ==> StartsBlank(rest))
    ensures Scan(s, t) == After(Record(t, k.text), rest)
  {
    assert Cut(s).Some? by {
      assert Spn(s) == 0;
      assert s[0..] == s;
    }
    k, rest := CutPrints(s);
    ScanToken(k, rest, t);
  }

  /** After an operator comes a gap, a token, and the rest of the line. */
  lemma {:induction false} ExplainFile(s: string, t: Line, output: bool, u: Line)
    returns (gap: string, k: Token, rest: string)
    requires File(t, output).None? && t == Want(t, output) && !(t.wantIn && t.wantOut)
    requires Scan(s, t) == Some(u) && Normal(u)
    ensures s == gap + (PrintToken(k) + rest) && |rest| < |s| && GapOk(gap, output)
    ensures TokenOk(k) && (k.Bare? ==> StartsBlank(rest))
    ensures After(Record(t, k.text), rest) == Some(u)
    decreases |s|
  {
    assert s != "";
    if IsDelim(s[0]) || s[0] == Op(output) {
      if IsDelim(s[0]) { SkipDelim(s, t); } else { ScanOp(s, t); }
      gap, k, rest := ExplainFile(s[1..], t, output, u);
      LongerGap(s, gap, PrintToken(k) + rest);
      gap := [s[0]] + gap;
    } else {
      if IsOp(s[0]) {
        ScanOp(s, t);
        BothWantFails(s[1..], Want(t, !output));
        assert false;
      }
      gap := "";
      k, rest := TokenAt(s, t);
    }
  }

  lemma LongerGap(s: string, gap: string, x: string)
    requires s != "" && s[1..] == gap + x
    ensures s == ([s[0]] + gap) + x
  {
    assert s == [s[0]] + s[1..];
  }

  lemma PrintArg(k: Token)
    ensures PrintItem(Arg("", k)) == PrintToken(k)
  { }

  lemma PrintRedirect(s: string, output: bool, gap: string, k: Token, rest: string)
    requires s != "" && s[0] == Op(output) && s[1..] == gap + (PrintToken(k) + rest)
    ensures s == PrintItem(Redirect("", output, gap, k)) + rest
  {
    var x := PrintToken(k);
    assert s == [s[0]] + s[1..];
    assert gap + (x + rest) == (gap + x) + rest;
    assert [s[0]] + ((gap + x) + rest) == ([s[0]] + (gap + x)) + rest;
    assert PrintItem(Redirect("", output, gap, k)) == [Op(output)] + (gap + x);
  }

  /** The first item of a line that starts with no blank, and the rest of the line. */
  lemma ExplainItem(s: string, t: Line, u: Line) returns (i: Item, rest: string)
    requires s != "" && !IsDelim(s[0]) && Normal(t) && Scan(s, t) == Some(u) && Normal(u)
    ensures s == PrintItem(i) + rest && |rest| < |s|
    ensures ItemOk(i) && (i.tok.Bare? ==> StartsBlank(rest))
    ensures Take(t, i).Some? && After(Take(t, i).value, rest) == Some(u)
  {
    if IsOp(s[0]) {
      ScanOp(s, t);
      var output := s[0] == '>';
      var gap, k, more := ExplainFile(s[1..], Want(t, output), output, u);
      i, rest := Redirect("", output, gap, k), more;
      PrintRedirect(s, output, gap, k, more);
    } else {
      var k, more := TokenAt(s, t);
      i, rest := Arg("", k), more;
      PrintArg(k);
    }
  }

  /** The items take up the line: to its end, or to the argument that fills the list. */
  predicate Covers(items: seq<Item>, tail: string) {
    if |ArgsOf(items)| < MAXARGS - 1 then Blank(tail)
    else |ArgsOf(items)| == MAXARGS - 1 && items[|items| - 1].Arg?
  }

  /** A line scanned without error is a printed line, up to the argument that fills the list. */
  lemma {:induction false} Explain(s: string, t: Line, u: Line) returns (items: seq<Item>, tail: string)
    requires Normal(t) && !Full(t) && Scan(s, t) == Some(u) && Normal(u)
    ensures Spelled(items, tail) && Print(items, tail) == s && TakeAll(t, items) == Some(u)
    ensures u.args == t.args + ArgsOf(items) && |u.args| <= MAXARGS - 1
    ensures if Full(u) then items != [] && items[|items| - 1].Arg? else Blank(tail)
    decreases |s|
  {
    if s == "" {
      items, tail := [], "";
    } else if IsDelim(s[0]) {
      SkipDelim(s, t);
      items, tail := Explain(s[1..], t, u);
      items, tail := PadFront(s[0], items, tail, t);
      assert [s[0]] + s[1..] == s;
    } else {
      var i, rest := ExplainItem(s, t, u);
      var v := Take(t, i).value;
      if Full(v) {
        items, tail := [], rest;
      } else {
        items, tail := Explain(rest, v, u);
      }
      items := PrependItem(i, items, tail, t);
    }
  }

  lemma PrependItem(i: Item, items: seq<Item>, tail: string, t: Line) returns (all: seq<Item>)
    requires Normal(t) && Spelled(items, tail) && ItemOk(i) && Take(t, i).Some?
    requires i.tok.Bare? ==> StartsBlank(Print(items, tail))
    ensures all == [i] + items && Spelled(all, tail) && Print(all, tail) == PrintItem(i) + Print(items, tail)
    ensures t.args + ArgsOf(all) == Take(t, i).value.args + ArgsOf(items)
    ensures TakeAll(t, all) == if Full(Take(t, i).value) then Take(t, i) else TakeAll(Take(t, i).value, items)
  {
    all := [i] + items;
    assert all[1..] == items;
    PrependArgs(i, items, t);
  }

  lemma PrependArgs(i: Item, items: seq<Item>, t: Line)
    requires Normal(t) && Take(t, i).Some?
    ensures t.args + ArgsOf([i] + items) == Take(t, i).value.args + ArgsOf(items)
  {
    assert ([i] + items)[1..] == items;
    if i.Arg? {
      assert t.args + ([i.tok.text] + ArgsOf(items)) == (t.args + [i.tok.text]) + ArgsOf(items);
    } else {
      assert [] + ArgsOf(items) == ArgsOf(items);
    }
  }

  lemma PadFront(c: char, items: seq<Item>, tail: string, t: Line) returns (items': seq<Item>, tail': string)
    requires IsDelim(c) && Spelled(items, tail) && Normal(t)
    ensures Spelled(items', tail') && Print(items', tail') == [c] + Print(items, tail)
    ensures TakeAll(t, items') == TakeAll(t, items) && ArgsOf(items') == ArgsOf(items)
    ensures |items'| == |items| && (items != [] ==> items'[|items| - 1].Arg? == items[|items| - 1].Arg?)
    ensures Blank(tail) ==> Blank(tail')
  {
    if items == [] {
      items', tail' := [], [c] + tail;
    } else {
      var i := items[0];
      var padded := i.(sep := [c] + i.sep);
      items', tail' := [padded] + items[1..], tail;
      assert items'[1..] == items[1..];
      PadItem(c, i, Print(items[1..], tail));
    }
  }

  lemma PadItem(c: char, i: Item, rest: string)
    requires IsDelim(c) && ItemOk(i)
    ensures ItemOk(i.(sep := [c] + i.sep))
    ensures PrintItem(i.(sep := [c] + i.sep)) + rest == [c] + (PrintItem(i) + rest)
  {
    var x := if i.Arg? then PrintToken(i.tok) else [Op(i.output)] + (i.gap + PrintToken(i.tok));
    assert PrintItem(i) == i.sep + x;
    assert PrintItem(i.(sep := [c] + i.sep)) == ([c] + i.sep) + x;
    assert ([c] + i.sep) + x + rest == [c] + ((i.sep + x) + rest);
  }

  // ------------------------------------------------------------- parsing a command

  /** Each redirection is given at most once. */
  predicate FilesFit(items: seq<Item>) {
    |FilesOf(items, false)| <= 1 && |FilesOf(items, true)| <= 1
  }

  function FileAfter(f: Option<string>, files: seq<string>): Option<string> {
    if files == [] then f else Some(files[0])
  }

  function Meaning(items: seq<Item>): Command {
    Finish(Some(Line(ArgsOf(items), FileAfter(None, FilesOf(items, false)),
                     FileAfter(None, FilesOf(items, true)), false, false)))
  }

  predicate Fits(f: Option<string>, files: seq<string>) {
    |files| <= if f.Some? then 0 else 1
  }

  /** Taking in all items, none of them behind the argument that fills the list. */
  lemma {:induction false} TakeAllIs(t: Line, items: seq<Item>)
    requires Normal(t) && !Full(t) && |t.args| + |ArgsOf(items)| <= MAXARGS - 1
    requires |t.args| + |ArgsOf(items)| == MAXARGS - 1 ==> items[|items| - 1].Arg?
    ensures TakeAll(t, items)
         == if Fits(t.infile, FilesOf(items, false)) && Fits(t.outfile, FilesOf(items, true))
            then Some(Line(t.args + ArgsOf(items), FileAfter(t.infile, FilesOf(items, false)),
                           FileAfter(t.outfile, FilesOf(items, true)), false, false))
            else None
    decreases |items|
  {
    if items == [] {
      assert t.args + [] == t.args;
    } else {
      var u := Take(t, items[0]);
      if u.Some? {
        assert u.value.args + ArgsOf(items[1..]) == t.args + ArgsOf(items);
        if Full(u.value) {
          if |items| > 1 { LastArg(items[1..]); }
          assert items == [items[0]];
          TakeOne(t, items[0]);
        } else {
          TakeAllIs(u.value, items[1..]);
        }
      }
    }
  }

  lemma TakeOne(t: Line, i: Item)
    requires Normal(t) && i.Arg?
    ensures TakeAll(t, [i]) == Take(t, i)
    ensures ArgsOf([i]) == [i.tok.text] && forall output :: FilesOf([i], output) == []
  {
    assert [i][1..] == [];
    assert ArgsOf([]) == [] && [i.tok.text] + [] == [i.tok.text];
    forall output ensures FilesOf([i], output) == [] { assert FilesOf([], output) == []; }
  }

  lemma {:induction false} LastArg(items: seq<Item>)
    requires items != [] && items[|items| - 1].Arg?
    ensures ArgsOf(items) != []
  {
    if |items| > 1 { LastArg(items[1..]); }
  }

  /** The items up to the n-th argument. */
  function Front(items: seq<Item>, n: nat): seq<Item> {
    if n == 0 || items == [] then []
    else [items[0]] + Front(items[1..], if items[0].Arg? then n - 1 else n)
  }

  lemma {:induction false} FrontIs(items: seq<Item>, n: nat)
    ensures |ArgsOf(items)| < n ==> Front(items, n) == items
    ensures |ArgsOf(items)| >= n ==> |ArgsOf(Front(items, n))| == n
    ensures n > 0 && |ArgsOf(items)| >= n ==> Front(items, n) != [] && Front(items, n)[|Front(items, n)| - 1].Arg?
  {
    if n > 0 && items != [] {
      var k := if items[0].Arg? then n - 1 else n;
      FrontIs(items[1..], k);
      assert Front(items, n)[1..] == Front(items[1..], k);
    }
  }

  lemma {:induction false} TakeFront(t: Line, items: seq<Item>, n: nat)
    requires Normal(t) && !Full(t) && n == MAXARGS - 1 - |t.args|
    ensures TakeAll(t, items) == TakeAll(t, Front(items, n))
    decreases |items|
  {
    if items != [] {
      var u, k := Take(t, items[0]), if items[0].Arg? then n - 1 else n;
      assert Front(items, n)[1..] == Front(items[1..], k);
      if u.Some? && !Full(u.value) { TakeFront(u.value, items[1..], k); }
    }
  }

  /** Parsing a printed line gives back its arguments, files and background mark, or an error
      exactly when a redirection is given twice. Only the items up to the 127th argument are
      looked at: the rest of the line is dropped without an error. */
  lemma ParsePrint(items: seq<Item>, tail: string)
    requires WellFormed(items, tail)
    ensures var front := Front(items, MAXARGS - 1);
      Parse(Print(items, tail)) == if FilesFit(front) then Meaning(front) else Rejected
  {
    var n := MAXARGS - 1;
    var front := Front(items, n);
    ScanPrint(items, tail, EMPTY);
    TakeFront(EMPTY, items, n);
    FrontIs(items, n);
    TakeAllIs(EMPTY, front);
    assert [] + ArgsOf(front) == ArgsOf(front);
    if FilesFit(front) { BlankAfter(TakeAll(EMPTY, front).value, tail); }
  }

  /** A line that is spelled by these items, as far as it is looked at, and means c. */
  ghost predicate Reads(s: string, items: seq<Item>, tail: string, c: Command) {
    && Spelled(items, tail) && Print(items, tail) == s && Covers(items, tail)
    && FilesFit(items) && Meaning(items) == c
  }

  /** A line parses to a command exactly when it is a printed line with that meaning. */
  lemma ParseIsTheGrammar(s: string, c: Command)
    requires c.Command?
    ensures Parse(s) == c <==> exists items, tail :: Reads(s, items, tail, c)
  {
    if Parse(s) == c {
      var u := Scan(s, EMPTY).value;
      var items, tail := Explain(s, EMPTY, u);
      assert [] + ArgsOf(items) == ArgsOf(items);
      TakeAllIs(EMPTY, items);
      assert Reads(s, items, tail, c);
    }
    if items, tail :| Reads(s, items, tail, c) {
      ReadsParse(s, items, tail, c);
    }
  }

  lemma ReadsParse(s: string, items: seq<Item>, tail: string, c: Command)
    requires Reads(s, items, tail, c)
    ensures Parse(s) == c
  {
    var u := Line(ArgsOf(items), FileAfter(None, FilesOf(items, false)),
                  FileAfter(None, FilesOf(items, true)), false, false);
    assert TakeAll(EMPTY, items) == Some(u) by {
      TakeAllIs(EMPTY, items);
      assert [] + ArgsOf(items) == ArgsOf(items);
    }
    assert After(u, tail) == Some(u) by {
      if Blank(tail) { BlankAfter(u, tail); }
    }
    ScanPrint(items, tail, EMPTY);
  }

  // ------------------------------------------------------------ a quoting printer

  predicate CanQuote(q: char, text: string) { IsQuote(q) && q !in text }

  function QuotedArgs(args: seq<string>, quotes: seq<char>): seq<Item>
    requires |args| == |quotes|
  {
    if args == [] then [] else [Arg(" ", Quoted(quotes[0], args[0]))] + QuotedArgs(args[1..], quotes[1..])
  }

  function QuotedFile(f: Option<string>, output: bool, q: char): seq<Item> {
    match f case None => [] case Some(name) => [Redirect(" ", output, " ", Quoted(q, name))]
  }

  /** The command with every token in quotes, the files after the arguments, then the ampersand. */
  function Quote(c: Command, quotes: seq<char>, qi: char, qo: char): string
    requires c.Command? && |quotes| == |c.args|
  {
    Print(QuotedArgs(c.args, quotes)
          + (QuotedFile(c.infile, false, qi) + (QuotedFile(c.outfile, true, qo) + Mark(c.ret))), "")
  }

  function Mark(ret: int): seq<Item> { if ret == 1 then [Arg(" ", Bare("&"))] else [] }

  /** What a well-formed list of items asks for. */
  ghost predicate Asks(items: seq<Item>, args: seq<string>, ins: seq<string>, outs: seq<string>) {
    WellFormed(items, "") && ArgsOf(items) == args && FilesOf(items, false) == ins && FilesOf(items, true) == outs
  }

  lemma OneMore(i: Item, items: seq<Item>, args: seq<string>, ins: seq<string>, outs: seq<string>)
    requires ItemOk(i) && i.tok.Quoted? && Asks(items, args, ins, outs)
    ensures i.Arg? ==> Asks([i] + items, [i.tok.text] + args, ins, outs)
    ensures i.Redirect? && !i.output ==> Asks([i] + items, args, [i.tok.text] + ins, outs)
    ensures i.Redirect? && i.output ==> Asks([i] + items, args, ins, [i.tok.text] + outs)
  {
    assert ([i] + items)[1..] == items;
  }

  function OneFile(f: Option<string>): seq<string> { if f.Some? then [f.value] else [] }

  lemma WithFile(f: Option<string>, output: bool, q: char, items: seq<Item>,
                 args: seq<string>, ins: seq<string>, outs: seq<string>)
    requires f.Some? ==> CanQuote(q, f.value)
    requires Asks(items, args, ins, outs)
    ensures output ==> Asks(QuotedFile(f, output, q) + items, args, ins, OneFile(f) + outs)
    ensures !output ==> Asks(QuotedFile(f, output, q) + items, args, OneFile(f) + ins, outs)
  {
    if f.Some? {
      OneMore(Redirect(" ", output, " ", Quoted(q, f.value)), items, args, ins, outs);
    } else {
      assert QuotedFile(f, output, q) + items == items;
      assert [] + ins == ins && [] + outs == outs;
    }
  }

  lemma {:induction false} WithArgs(args: seq<string>, quotes: seq<char>, items: seq<Item>,
                                    more: seq<string>, ins: seq<string>, outs: seq<string>)
    requires |args| == |quotes| && forall i :: 0 <= i < |args| ==> CanQuote(quotes[i], args[i])
    requires Asks(items, more, ins, outs)
    ensures Asks(QuotedArgs(args, quotes) + items, args + more, ins, outs)
  {
    if args == [] {
      assert QuotedArgs(args, quotes) + items == items && args + more == more;
    } else {
      WithArgs(args[1..], quotes[1..], items, more, ins, outs);
      var all := QuotedArgs(args[1..], quotes[1..]) + items;
      var i := Arg(" ", Quoted(quotes[0], args[0]));
      OneMore(i, all, args[1..] + more, ins, outs);
      Assoc([i], QuotedArgs(args[1..], quotes[1..]), items);
      Assoc([args[0]], args[1..], more);
      assert [args[0]] + args[1..] == args;
    }
  }

  lemma Assoc<T>(a: seq<T>, b: seq<T>, c: seq<T>)
    ensures (a + b) + c == a + (b + c)
  { }

  lemma MarkAsks(ret: int)
    ensures Asks(Mark(ret), if ret == 1 then ["&"] else [], [], [])
  {
    if ret == 1 {
      var i := Mark(ret)[0];
      assert Mark(ret) == [i] && Mark(ret)[1..] == [];
      assert TokenOk(i.tok) by { assert i.tok.text == "&" && i.tok.text[0] == '&'; }
      assert Print([], "") == "" && WellFormed([], "");
      assert WellFormed(Mark(ret), "") by { assert ItemOk(i); }
      assert ArgsOf(Mark(ret)[1..]) == [] && ["&"] + [] == ["&"];
    }
  }

  /** Quoting a command and parsing the line gives the command back. */
  lemma QuoteParse(c: Command, quotes: seq<char>, qi: char, qo: char)
    requires c.Command? && |quotes| == |c.args| && |c.args| + c.ret < MAXARGS - 1
    requires forall i :: 0 <= i < |quotes| ==> CanQuote(quotes[i], c.args[i])
    requires c.infile.Some? ==> CanQuote(qi, c.infile.value)
    requires c.outfile.Some? ==> CanQuote(qo, c.outfile.value)
    requires c.ret == 1 || (c.ret == 0 && c.args != [] && !StartsAmp(c.args[|c.args| - 1]))
    ensures Parse(Quote(c, quotes, qi, qo)) == c
  {
    var amp := Mark(c.ret);
    var more := if c.ret == 1 then ["&"] else [];
    var outs := QuotedFile(c.outfile, true, qo) + amp;
    var ins := QuotedFile(c.infile, false, qi) + outs;
    var items := QuotedArgs(c.args, quotes) + ins;
    assert Asks(items, c.args + more, OneFile(c.infile), OneFile(c.outfile)) by {
      MarkAsks(c.ret);
      assert OneFile(c.outfile) + [] == OneFile(c.outfile) && OneFile(c.infile) + [] == OneFile(c.infile);
      WithFile(c.outfile, true, qo, amp, more, [], []);
      WithFile(c.infile, false, qi, outs, more, [], OneFile(c.outfile));
      WithArgs(c.args, quotes, ins, more, OneFile(c.infile), OneFile(c.outfile));
    }
    FrontIs(items, MAXARGS - 1);
    ParsePrint(items, "");
    MeaningOf(c, items);
  }

  lemma MeaningOf(c: Command, items: seq<Item>)
    requires c.Command? && (c.ret == 1 || (c.ret == 0 && c.args != [] && !StartsAmp(c.args[|c.args| - 1])))
    requires ArgsOf(items) == c.args + (if c.ret == 1 then ["&"] else [])
    requires FilesOf(items, false) == OneFile(c.infile) && FilesOf(items, true) == OneFile(c.outfile)
    ensures Meaning(items) == c
  {
    var args := ArgsOf(items);
    assert c.ret == 1 ==> args[|c.args|] == "&" && args[..|c.args|] == c.args;
    assert c.ret == 0 ==> args == c.args;
  }
}
