/**
 Parsing undoes printing (sh.c): the fully parenthesised text of a command parses back to
 that command, however each of its output redirections is written.
 */
module ShellRoundTrip {
  import opened ShellSyntax
  import opened ShellGrammar
  import opened ShellAccepts

  /** A redirection that the grammar can express. */
  ghost predicate LegalRedirection(r: Redirection<string>) {
    LegalWord(r.file) && ((r.mode == 0 && r.fd == 0) || (r.mode == 0x201 && r.fd == 1))
  }

  ghost predicate Legal(t: Cmd<string>) {
    match t
    case Exec(argv) => |argv| < 10 && forall k :: 0 <= k < |argv| ==> LegalWord(argv[k])
    case Redir(d, r) => Legal(d) && LegalRedirection(r)
    case Pipe(l, r) => Legal(l) && Legal(r)
    case List(l, r) => Legal(l) && Legal(r)
    case Back(d) => Legal(d)
  }

  // ---------- printing ----------

  /** Which of the output redirections in a command's tree are written >> rather than >. */
  datatype Style = Single | Styled(append: bool, left: Style, right: Style)

  function First(y: Style): Style {
    if y.Styled? then y.left else Single
  }

  function Second(y: Style): Style {
    if y.Styled? then y.right else Single
  }

  function ArrowIn(r: Redirection<string>, y: Style): Arrow {
    if r.fd == 0 then In else if y.Styled? && y.append then Append else Out
  }

  function PrintArgs(argv: seq<string>): string {
    if argv == [] then ""
    else if |argv| == 1 then argv[0]
    else argv[0] + " " + PrintArgs(argv[1..])
  }

  function Body(t: Cmd<string>, y: Style): string
    decreases t, 0
  {
    match t
    case Exec(argv) => PrintArgs(argv)
    case Redir(d, r) => Print(d, First(y)) + ArrowString(ArrowIn(r, y)) + r.file
    case Pipe(l, r) => Print(l, First(y)) + "|" + Print(r, Second(y))
    case List(l, r) => Print(l, First(y)) + ";" + Print(r, Second(y))
    case Back(d) => Print(d, First(y)) + "&"
  }

  function Print(t: Cmd<string>, y: Style): string
    decreases t, 1
  {
    "(" + Body(t, y) + ")"
  }

  // ---------- the derivation of what is printed ----------

  function Words(argv: seq<string>): seq<ArgText> {
    if argv == [] then [] else [ArgText(argv[0], if |argv| == 1 then "" else " ", [])] + Words(argv[1..])
  }

  function Whole(e: ExecText): LineText {
    LineText(One(e), [], End)
  }

  function Inside(t: Cmd<string>, y: Style): LineText
    decreases t, 0
  {
    match t
    case Exec(argv) => Whole(Simple([], Words(argv)))
    case Redir(d, r) =>
      Whole(Block("", Inside(d, First(y)), "", [RedirText(ArrowIn(r, y), "", r.file, "")]))
    case Pipe(l, r) => LineText(Piped(Closed(l, First(y)), "", One(Closed(r, Second(y)))), [], End)
    case List(l, r) => LineText(One(Closed(l, First(y))), [], Then("", Whole(Closed(r, Second(y)))))
    case Back(d) => LineText(One(Closed(d, First(y))), [""], End)
  }

  function Closed(t: Cmd<string>, y: Style): ExecText
    decreases t, 1
  {
    Block("", Inside(t, y), "", [])
  }

  lemma {:induction false} WordsPrinted(argv: seq<string>)
    requires forall k :: 0 <= k < |argv| ==> LegalWord(argv[k])
    ensures |Words(argv)| == |argv| && LegalArgs(Words(argv)) && ArgRedirs(Words(argv)) == []
    ensures ArgsString(Words(argv)) == PrintArgs(argv) && ArgWords(Words(argv)) == argv
    decreases |argv|
  {
    hide LegalWord;
    if argv != [] {
      WordsPrinted(argv[1..]);
      assert Words(argv)[1..] == Words(argv[1..]);
      assert RedirsString([]) == "";
    }
  }

  /** The derivation is legal, reads `text` and means `t`. */
  ghost predicate Reads(l: LineText, text: string, t: Cmd<string>) {
    LegalLine(l) && LineString(l) == text && LineMeans(l) == t
  }

  ghost predicate ExecReads(e: ExecText, text: string, t: Cmd<string>) {
    LegalExec(e) && ExecString(e) == text && ExecMeans(e) == t
  }

  lemma ClosedReads(l: LineText, text: string, t: Cmd<string>)
    requires Reads(l, text, t)
    ensures ExecReads(Block("", l, "", []), "(" + text + ")", t)
  {
    hide LegalLine, LineString, LineMeans;
    RedirsUnfold([]);
  }

  lemma RedirReads(l: LineText, text: string, t: Cmd<string>, r: RedirText)
    requires Reads(l, text, t) && LegalRedir(r) && r.gap == "" && r.after == ""
    ensures ExecReads(Block("", l, "", [r]), "(" + text + ")" + ArrowString(r.arrow) + r.file, Redir(t, RedirMeans(r)))
  {
    hide LegalLine, LineString, LineMeans, ArrowString, RedirMeans, RedirsString, LegalRedir;
    RedirsUnfold([r]);
    RedirsUnfold([]);
    assert [r][1..] == [] && [r][..0] == [];
    assert Around(t, [r]) == Redir(Around(t, []), RedirMeans(r)) && Around(t, []) == t;
  }

  /** A pipe, `n` times & with no white space behind it, and the rest of the line. */
  lemma LineReads(p: PipeText, text: string, t: Cmd<string>, n: nat, rest: Rest)
    requires LegalPipe(p) && PipeString(p) == text && PipeMeans(p) == t && n <= 1
    requires rest.Then? ==> White(rest.gap) && LegalLine(rest.line)
    ensures var l := LineText(p, if n == 0 then [] else [""], rest);
            var c := if n == 0 then t else Back(t);
            && LegalLine(l) && LineString(l) == text + ((if n == 0 then "" else "&") + RestString(rest))
            && LineMeans(l) == if rest.End? then c else List(c, LineMeans(rest.line))
  {
    hide LegalPipe, PipeString, PipeMeans;
    assert Background(t, 0) == t && Background(t, 1) == Back(Background(t, 0));
    assert AmpsString([]) == "" && AmpsString([""]) == "&" + ("" + AmpsString([""][1..]));
  }

  lemma OneReads(e: ExecText, text: string, t: Cmd<string>)
    requires ExecReads(e, text, t)
    ensures LegalPipe(One(e)) && PipeString(One(e)) == text && PipeMeans(One(e)) == t
  {
  }

  lemma WholeReads(e: ExecText, text: string, t: Cmd<string>)
    requires ExecReads(e, text, t)
    ensures Reads(Whole(e), text, t)
  {
    hide LegalPipe, PipeString, PipeMeans, ExecReads, LineString, LineMeans, LegalLine;
    OneReads(e, text, t);
    LineReads(One(e), text, t, 0, End);
  }

  lemma PipedReads(a: ExecText, v: string, t: Cmd<string>, b: ExecText, w: string, u: Cmd<string>)
    requires ExecReads(a, v, t) && ExecReads(b, w, u)
    ensures Reads(LineText(Piped(a, "", One(b)), [], End), v + "|" + w, Pipe(t, u))
  {
    hide LegalExec, ExecString, ExecMeans, LineString, LineMeans, LegalLine;
    var p := Piped(a, "", One(b));
    OneReads(b, w, u);
    assert PipeString(p) == v + ("|" + ("" + PipeString(One(b)))) && PipeMeans(p) == Pipe(t, PipeMeans(One(b)));
    LineReads(p, v + "|" + w, Pipe(t, u), 0, End);
  }

  lemma ListedReads(a: ExecText, v: string, t: Cmd<string>, b: ExecText, w: string, u: Cmd<string>)
    requires ExecReads(a, v, t) && ExecReads(b, w, u)
    ensures Reads(LineText(One(a), [], Then("", Whole(b))), v + ";" + w, List(t, u))
  {
    hide LegalPipe, PipeString, PipeMeans, ExecReads, LineString, LineMeans, LegalLine, Whole;
    WholeReads(b, w, u);
    OneReads(a, v, t);
    LineReads(One(a), v, t, 0, Then("", Whole(b)));
    assert RestString(Then("", Whole(b))) == ";" + ("" + w);
  }

  lemma BackReads(a: ExecText, v: string, t: Cmd<string>)
    requires ExecReads(a, v, t)
    ensures Reads(LineText(One(a), [""], End), v + "&", Back(t))
  {
    hide LegalPipe, PipeString, PipeMeans, ExecReads, LineString, LineMeans, LegalLine;
    OneReads(a, v, t);
    LineReads(One(a), v, t, 1, End);
  }

  lemma SimpleReads(argv: seq<string>)
    requires |argv| < 10 && forall k :: 0 <= k < |argv| ==> LegalWord(argv[k])
    ensures ExecReads(Simple([], Words(argv)), PrintArgs(argv), Exec(argv))
  {
    hide LegalWord, PrintArgs, Words, ArgsString, LegalArgs, RedirsString, ArgWords, ArgRedirs;
    WordsPrinted(argv);
    RedirsUnfold([]);
    var none: seq<RedirText> := [];
    assert none + none == none;
  }

  lemma {:induction false} Printed(t: Cmd<string>, y: Style)
    requires Legal(t)
    ensures Reads(Inside(t, y), Body(t, y), t) && ExecReads(Closed(t, y), Print(t, y), t)
    decreases t
  {
    hide Reads, ExecReads, LegalWord, PrintArgs, Words, Whole;
    match t {
      case Exec(argv) =>
        SimpleReads(argv);
        WholeReads(Simple([], Words(argv)), PrintArgs(argv), t);
      case Redir(d, r) =>
        Printed(d, First(y));
        RedirPrinted(d, r, y);
      case Pipe(l, r) =>
        Printed(l, First(y));
        Printed(r, Second(y));
        PipedReads(Closed(l, First(y)), Print(l, First(y)), l, Closed(r, Second(y)), Print(r, Second(y)), r);
      case List(l, r) =>
        Printed(l, First(y));
        Printed(r, Second(y));
        ListedReads(Closed(l, First(y)), Print(l, First(y)), l, Closed(r, Second(y)), Print(r, Second(y)), r);
      case Back(d) =>
        Printed(d, First(y));
        BackReads(Closed(d, First(y)), Print(d, First(y)), d);
    }
    ClosedReads(Inside(t, y), Body(t, y), t);
  }

  lemma RedirPrinted(d: Cmd<string>, r: Redirection<string>, y: Style)
    requires LegalRedirection(r) && Reads(Inside(d, First(y)), Body(d, First(y)), d)
    ensures Reads(Inside(Redir(d, r), y), Body(Redir(d, r), y), Redir(d, r))
  {
    hide Reads, ExecReads, LegalWord, Whole, ArrowString;
    var rt := RedirText(ArrowIn(r, y), "", r.file, "");
    RedirReads(Inside(d, First(y)), Body(d, First(y)), d, rt);
    assert RedirMeans(rt) == r;
    assert Body(Redir(d, r), y) == "(" + Body(d, First(y)) + ")" + ArrowString(rt.arrow) + r.file;
    WholeReads(Block("", Inside(d, First(y)), "", [rt]), Body(Redir(d, r), y), Redir(d, r));
  }

  /** Parsing the printed form of any legal command, with > or >> at each redirection, gives that command back. */
  lemma RoundTrip(t: Cmd<string>, y: Style)
    requires Legal(t)
    ensures '\0' !in Print(t, y) && ParseCmd(Print(t, y)).Ok?
    ensures Resolve(Print(t, y), ParseCmd(Print(t, y)).value) == t
  {
    hide Legal, LegalLine, LineString, LineMeans, ExecReads, ParseCmd, Resolve, Print, Whole;
    Printed(t, y);
    WholeReads(Closed(t, y), Print(t, y), t);
    Accepts("", Whole(Closed(t, y)));
    assert "" + Print(t, y) == Print(t, y);
  }
}
