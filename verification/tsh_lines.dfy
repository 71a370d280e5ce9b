/** Command lines as they are typed, character by character, and what they parse to. */
module TypedLines {
  import opened CommandLines

  /** Spaces, tabs and line ends. */
  predicate Spaces(s: string) {
    forall i :: 0 <= i < |s| ==> s[i] == ' ' || s[i] == '\t' || s[i] == '\r' || s[i] == '\n'
  }

  /** Text in quotes that do not occur in it, or a bare word. */
  predicate Typed(k: Token) {
    match k
    case Quoted(q, text) => (q == '\'' || q == '\"') && q !in text
    case Bare(text) =>
      && text != "" && text[0] != '<' && text[0] != '>' && text[0] != '\'' && text[0] != '\"'
      && forall i :: 0 <= i < |text| ==> text[i] != ' ' && text[i] != '\t' && text[i] != '\r' && text[i] != '\n'
  }

  /** Each token with the spaces before it. */
  function Words(toks: seq<Token>, seps: seq<string>): string
    requires |toks| == |seps|
  {
    if toks == [] then "" else seps[0] + PrintToken(toks[0]) + Words(toks[1..], seps[1..])
  }

  function Texts(toks: seq<Token>): (r: seq<string>)
    ensures |r| == |toks| && forall i :: 0 <= i < |toks| ==> r[i] == toks[i].text
  {
    seq(|toks|, i requires 0 <= i < |toks| => toks[i].text)
  }

  /** An operator and its file, with the spaces before each. */
  function File(op: char, f: Option<Token>, before: string, between: string): string {
    if f.None? then "" else before + [op] + between + PrintToken(f.value)
  }

  function TextOf(f: Option<Token>): Option<string> { if f.None? then None else Some(f.value.text) }

  /** What arguments and files make of a command: a last argument that starts with an ampersand is
      taken off and puts the command into the background; no arguments at all count as that too. */
  function Outcome(args: seq<string>, infile: Option<string>, outfile: Option<string>): Command {
    if args == [] then Command([], infile, outfile, 1)
    else
      var last := args[|args| - 1];
      if last != "" && last[0] == '&' then Command(args[..|args| - 1], infile, outfile, 1)
      else Command(args, infile, outfile, 0)
  }

  // ------------------------------------------------------------ lists of items

  /** What is needed of items to put another one in front. */
  ghost predicate Behind(items: seq<Item>, tail: string, text: string, args: seq<string>, ins: seq<string>,
                         outs: seq<string>) {
    && Spelled(items, tail) && StartsBlank(text) && Print(items, tail) == text
    && ArgsOf(items) == args && FilesOf(items, false) == ins && FilesOf(items, true) == outs
  }

  lemma PutInFront(i: Item, items: seq<Item>, tail: string, text: string, args: seq<string>, ins: seq<string>,
                   outs: seq<string>)
    requires Behind(items, tail, text, args, ins, outs) && ItemOk(i) && i.sep != ""
    ensures Behind([i] + items, tail, PrintItem(i) + text,
                   if i.Arg? then [i.tok.text] + args else args,
                   if i.Redirect? && !i.output then [i.tok.text] + ins else ins,
                   if i.Redirect? && i.output then [i.tok.text] + outs else outs)
  {
    assert ([i] + items)[1..] == items;
    assert PrintItem(i) != "" && PrintItem(i)[0] == i.sep[0];
  }

  lemma SpacesAreBlank(s: string)
    requires Spaces(s)
    ensures Blank(s)
  { }

  lemma TypedIsOk(k: Token)
    requires Typed(k)
    ensures TokenOk(k)
  { }

  function ArgItems(toks: seq<Token>, seps: seq<string>): seq<Item>
    requires |toks| == |seps|
  {
    if toks == [] then [] else [Arg(seps[0], toks[0])] + ArgItems(toks[1..], seps[1..])
  }

  lemma {:induction false} WordsInFront(toks: seq<Token>, seps: seq<string>, items: seq<Item>, tail: string,
                                        text: string, args: seq<string>, ins: seq<string>, outs: seq<string>)
    requires |toks| == |seps| && forall i :: 0 <= i < |toks| ==> Typed(toks[i]) && Spaces(seps[i]) && seps[i] != ""
    requires Behind(items, tail, text, args, ins, outs)
    ensures Behind(ArgItems(toks, seps) + items, tail, Words(toks, seps) + text, Texts(toks) + args, ins, outs)
  {
    if toks == [] {
      assert [] + items == items && "" + text == text && Texts(toks) + args == args;
    } else {
      var i := Arg(seps[0], toks[0]);
      WordsInFront(toks[1..], seps[1..], items, tail, text, args, ins, outs);
      SpacesAreBlank(seps[0]);
      TypedIsOk(toks[0]);
      var more, words := ArgItems(toks[1..], seps[1..]), Words(toks[1..], seps[1..]);
      PutInFront(i, more + items, tail, words + text, Texts(toks[1..]) + args, ins, outs);
      Assoc([i], more, items);
      Assoc(PrintItem(i), words, text);
      Assoc([toks[0].text], Texts(toks[1..]), args);
      assert Texts(toks) == [toks[0].text] + Texts(toks[1..]);
    }
  }

  function FileItems(output: bool, f: Option<Token>, before: string, between: string): seq<Item> {
    if f.None? then [] else [Redirect(before, output, between, f.value)]
  }

  function One(f: Option<Token>): seq<string> { if f.None? then [] else [f.value.text] }

  lemma FileIsItem(output: bool, k: Token, before: string, between: string)
    ensures File(if output then '>' else '<', Some(k), before, between)
         == PrintItem(Redirect(before, output, between, k))
  {
    var op := if output then '>' else '<';
    Assoc(before, [op], between);
    Assoc(before, [op] + between, PrintToken(k));
    Assoc([op], between, PrintToken(k));
  }

  lemma FileInFront(output: bool, f: Option<Token>, before: string, between: string, items: seq<Item>, tail: string,
                    text: string, args: seq<string>, ins: seq<string>, outs: seq<string>)
    requires f.Some? ==> Typed(f.value) && Spaces(before) && before != "" && Spaces(between)
    requires Behind(items, tail, text, args, ins, outs)
    ensures Behind(FileItems(output, f, before, between) + items, tail,
                   File(if output then '>' else '<', f, before, between) + text, args,
                   if output then ins else One(f) + ins, if output then One(f) + outs else outs)
  {
    if f.Some? {
      var i := Redirect(before, output, between, f.value);
      SpacesAreBlank(before);
      SpacesAreBlank(between);
      TypedIsOk(f.value);
      PutInFront(i, items, tail, text, args, ins, outs);
      FileIsItem(output, f.value, before, between);
    } else {
      assert [] + items == items && "" + text == text && [] + ins == ins && [] + outs == outs;
    }
  }

  // ---------------------------------------------------------------- the theorem

  /** Any words, quoted or bare, an input and an output file, a final ampersand, and any spaces,
      tabs and line ends between them: the line parses to just these words and files. */
  lemma TypedParses(toks: seq<Token>, seps: seq<string>, inf: Option<Token>, outf: Option<Token>,
                    gaps: seq<string>, amp: Option<string>, tail: string)
    requires |toks| == |seps| && |toks| + (if amp.Some? then 1 else 0) < 127 && |gaps| == 4
    requires forall i :: 0 <= i < |toks| ==> Typed(toks[i]) && Spaces(seps[i]) && seps[i] != ""
    requires (forall i :: 0 <= i < 4 ==> Spaces(gaps[i])) && gaps[0] != "" && gaps[2] != ""
    requires (inf.Some? ==> Typed(inf.value)) && (outf.Some? ==> Typed(outf.value)) && Spaces(tail)
    requires amp.Some? ==> Spaces(amp.value) && amp.value != ""
    ensures var line := Words(toks, seps) + (File('<', inf, gaps[0], gaps[1]) + (File('>', outf, gaps[2], gaps[3])
                        + ((if amp.Some? then amp.value + "&" else "") + tail)));
      Parse(line) == Outcome(Texts(toks) + (if amp.Some? then ["&"] else []), TextOf(inf), TextOf(outf))
  {
    var items := TypedItems(toks, seps, inf, outf, gaps, amp, tail);
    var args := Texts(toks) + (if amp.Some? then ["&"] else []);
    FrontIs(items, 127);
    SpacesAreBlank(tail);
    ParsePrint(items, tail);
    OutcomeIs(items, args, inf, outf);
  }

  lemma OutcomeIs(items: seq<Item>, args: seq<string>, inf: Option<Token>, outf: Option<Token>)
    requires ArgsOf(items) == args && FilesOf(items, false) == One(inf) && FilesOf(items, true) == One(outf)
    ensures FilesFit(items) && Meaning(items) == Outcome(args, TextOf(inf), TextOf(outf))
  { }

  /** The items of such a line. */
  lemma TypedItems(toks: seq<Token>, seps: seq<string>, inf: Option<Token>, outf: Option<Token>,
                   gaps: seq<string>, amp: Option<string>, tail: string)
    returns (items: seq<Item>)
    requires |toks| == |seps| && |gaps| == 4
    requires forall i :: 0 <= i < |toks| ==> Typed(toks[i]) && Spaces(seps[i]) && seps[i] != ""
    requires (forall i :: 0 <= i < 4 ==> Spaces(gaps[i])) && gaps[0] != "" && gaps[2] != ""
    requires (inf.Some? ==> Typed(inf.value)) && (outf.Some? ==> Typed(outf.value)) && Spaces(tail)
    requires amp.Some? ==> Spaces(amp.value) && amp.value != ""
    ensures Behind(items, tail,
      Words(toks, seps) + (File('<', inf, gaps[0], gaps[1]) + (File('>', outf, gaps[2], gaps[3])
        + ((if amp.Some? then amp.value + "&" else "") + tail))),
      Texts(toks) + (if amp.Some? then ["&"] else []), One(inf), One(outf))
  {
    SpacesAreBlank(tail);
    var marked := (if amp.Some? then amp.value + "&" else "") + tail;
    var marks := if amp.Some? then ["&"] else [];
    var i4 := MarkItems(amp, tail);
    assert One(outf) + [] == One(outf) && One(inf) + [] == One(inf);
    FileInFront(true, outf, gaps[2], gaps[3], i4, tail, marked, marks, [], []);
    var t3, i3 := File('>', outf, gaps[2], gaps[3]) + marked, FileItems(true, outf, gaps[2], gaps[3]) + i4;
    FileInFront(false, inf, gaps[0], gaps[1], i3, tail, t3, marks, [], One(outf));
    var t2, i2 := File('<', inf, gaps[0], gaps[1]) + t3, FileItems(false, inf, gaps[0], gaps[1]) + i3;
    WordsInFront(toks, seps, i2, tail, t2, marks, One(inf), One(outf));
    items := ArgItems(toks, seps) + i2;
  }

  lemma MarkItems(amp: Option<string>, tail: string) returns (items: seq<Item>)
    requires Blank(tail) && (amp.Some? ==> Spaces(amp.value) && amp.value != "")
    ensures Behind(items, tail, (if amp.Some? then amp.value + "&" else "") + tail,
                   if amp.Some? then ["&"] else [], [], [])
  {
    items := [];
    assert Behind([], tail, tail, [], [], []);
    if amp.Some? {
      var i := Arg(amp.value, Bare("&"));
      SpacesAreBlank(amp.value);
      assert Typed(i.tok) by { assert i.tok.text == "&" && |i.tok.text| == 1; }
      TypedIsOk(i.tok);
      PutInFront(i, [], tail, tail, [], [], []);
      items := [i] + [];
      assert ["&"] + [] == ["&"];
    } else {
      assert "" + tail == tail;
    }
  }

  /** A bare word alone is one argument, unless it starts with an ampersand. */
  lemma BareWordParses(before: string, word: string, behind: string)
    requires Spaces(before) && before != "" && Spaces(behind) && Typed(Bare(word))
    ensures Parse(before + word + behind)
         == if word[0] == '&' then Command([], None, None, 1) else Command([word], None, None, 0)
  {
    var toks, seps, gaps := [Bare(word)], [before], [" ", " ", " ", " "];
    TypedParses(toks, seps, None, None, gaps, None, behind);
    assert toks[1..] == [] && seps[1..] == [];
    assert Words(toks, seps) == before + word;
    assert before + word + behind == Words(toks, seps) + ("" + ("" + ("" + behind)));
    assert Texts(toks) + [] == [word];
    assert [word][..0] == [];
  }

  /** A bare word typed without a space before it is read the same way. */
  lemma FirstWordNeedsNoSpace(line: string)
    ensures Parse(" " + line) == Parse(line)
  {
    SkipDelim(" " + line, EMPTY);
    assert (" " + line)[1..] == line;
  }

  /** An operator at the end of the line lacks its file. */
  lemma OperatorNeedsFile(op: char)
    requires op == '<' || op == '>'
    ensures Parse([op]) == Rejected
  {
    ScanOp([op], EMPTY);
    assert [op][1..] == "";
  }

  /** An unmatched quote is an error. */
  lemma QuoteNeedsMatch(q: char, text: string)
    requires (q == '\'' || q == '\"') && q !in text
    ensures Parse([q] + text) == Rejected
  {
    var s := [q] + text;
    assert s[1..] == text;
    ChrIs(s[1..], q, |text|);
    assert Spn(s) == 0 && s[0..] == s;
  }
}
