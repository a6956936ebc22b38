/**
 The language that the shell reads (sh.c), as derivations: a datatype for each level of the
 grammar, with the white space behind every token, the text that a derivation stands for, and
 the command that it means.  The text of every legal derivation parses to its meaning.
 */
module ShellGrammar {

  import opened ShellSyntax

  datatype Arrow = In | Out | Append

  /** An arrow and a file. */
  datatype RedirText = RedirText(arrow: Arrow, gap: string, file: string, after: string)

  /** An argument, and the redirections behind it. */
  datatype ArgText = ArgText(word: string, after: string, rs: seq<RedirText>)

  datatype ExecText =
    | Simple(rs: seq<RedirText>, args: seq<ArgText>)
    | Block(open: string, line: LineText, close: string, rs: seq<RedirText>)

  datatype PipeText =
    | One(exec: ExecText)
    | Piped(exec: ExecText, gap: string, rest: PipeText)

  /** A pipe, an & for each of `amps`, and what follows a semicolon. */
  datatype LineText = LineText(pipe: PipeText, amps: seq<string>, rest: Rest)

  datatype Rest = End | Then(gap: string, line: LineText)

  // ---------- what a derivation reads ----------

  function ArrowString(a: Arrow): string {
    match a
    case In => "<"
    case Out => ">"
    case Append => ">>"
  }

  function RedirsString(rs: seq<RedirText>): string {
    if rs == [] then ""
    else ArrowString(rs[0].arrow) + (rs[0].gap + (rs[0].file + (rs[0].after + RedirsString(rs[1..]))))
  }

  function ArgsString(args: seq<ArgText>): string {
    if args == [] then ""
    else args[0].word + (args[0].after + (RedirsString(args[0].rs) + ArgsString(args[1..])))
  }

  function AmpsString(amps: seq<string>): string {
    if amps == [] then "" else "&" + (amps[0] + AmpsString(amps[1..]))
  }

  function ExecString(e: ExecText): string {
    match e
    case Simple(rs, args) => RedirsString(rs) + ArgsString(args)
    case Block(open, line, close, rs) => "(" + (open + (LineString(line) + (")" + (close + RedirsString(rs)))))
  }

  function PipeString(p: PipeText): string {
    match p
    case One(e) => ExecString(e)
    case Piped(e, gap, rest) => ExecString(e) + ("|" + (gap + PipeString(rest)))
  }

  function LineString(l: LineText): string {
    PipeString(l.pipe) + (AmpsString(l.amps) + RestString(l.rest))
  }

  function RestString(r: Rest): string {
    match r
    case End => ""
    case Then(gap, line) => ";" + (gap + LineString(line))
  }

  // ---------- what it means ----------

  /** O_RDONLY on descriptor 0, or O_WRONLY|O_CREATE on descriptor 1. */
  function RedirMeans(r: RedirText): Redirection<string> {
    if r.arrow == In then Redirection(r.file, 0, 0) else Redirection(r.file, 0x201, 1)
  }

  /** The redirections around a command: each one encloses those before it. */
  function Around(c: Cmd<string>, rs: seq<RedirText>): Cmd<string> {
    if rs == [] then c else Redir(Around(c, rs[..|rs| - 1]), RedirMeans(rs[|rs| - 1]))
  }

  function ArgWords(args: seq<ArgText>): seq<string> {
    if args == [] then [] else [args[0].word] + ArgWords(args[1..])
  }

  function ArgRedirs(args: seq<ArgText>): seq<RedirText> {
    if args == [] then [] else args[0].rs + ArgRedirs(args[1..])
  }

  function Background(c: Cmd<string>, n: nat): Cmd<string> {
    if n == 0 then c else Back(Background(c, n - 1))
  }

  function ExecMeans(e: ExecText): Cmd<string> {
    match e
    case Simple(rs, args) => Around(Exec(ArgWords(args)), rs + ArgRedirs(args))
    case Block(open, line, close, rs) => Around(LineMeans(line), rs)
  }

  /** A pipe is between its first command and all the rest. */
  function PipeMeans(p: PipeText): Cmd<string> {
    match p
    case One(e) => ExecMeans(e)
    case Piped(e, gap, rest) => Pipe(ExecMeans(e), PipeMeans(rest))
  }

  function LineMeans(l: LineText): Cmd<string> {
    var c := Background(PipeMeans(l.pipe), |l.amps|);
    match l.rest
    case End => c
    case Then(gap, line) => List(c, LineMeans(line))
  }

  // ---------- which derivations are legal ----------

  /** sh.c's white space. */
  ghost predicate White(g: string) {
    forall k :: 0 <= k < |g| ==> g[k] in " \t\r\n\U{0B}"
  }

  /** A word has no white space, none of the shell's symbols and no NUL. */
  ghost predicate LegalWord(w: string) {
    w != "" && forall k :: 0 <= k < |w| ==> w[k] !in " \t\r\n\U{0B}" && w[k] !in "<|>&;()" && w[k] != '\0'
  }

  ghost predicate LegalRedir(r: RedirText) {
    White(r.gap) && LegalWord(r.file) && White(r.after)
  }

  /** Legal redirections; white space parts them from a word that follows. */
  ghost predicate LegalRedirs(rs: seq<RedirText>, word: bool) {
    && (forall k :: 0 <= k < |rs| ==> LegalRedir(rs[k]))
    && (word && rs != [] ==> rs[|rs| - 1].after != "")
  }

  ghost predicate LegalArgs(args: seq<ArgText>) {
    args != [] ==>
      && LegalWord(args[0].word) && White(args[0].after) && LegalRedirs(args[0].rs, |args| > 1)
      && (|args| > 1 && args[0].rs == [] ==> args[0].after != "")
      && LegalArgs(args[1..])
  }

  ghost predicate LegalExec(e: ExecText) {
    match e
    case Simple(rs, args) => LegalRedirs(rs, args != []) && LegalArgs(args) && |args| < 10
    case Block(open, line, close, rs) => White(open) && LegalLine(line) && White(close) && LegalRedirs(rs, false)
  }

  ghost predicate LegalPipe(p: PipeText) {
    match p
    case One(e) => LegalExec(e)
    case Piped(e, gap, rest) => LegalExec(e) && White(gap) && LegalPipe(rest)
  }

  ghost predicate LegalLine(l: LineText) {
    && LegalPipe(l.pipe) && (forall k :: 0 <= k < |l.amps| ==> White(l.amps[k]))
    && match l.rest
       case End => true
       case Then(gap, line) => White(gap) && LegalLine(line)
  }

  // ---------- words where they stand in the line ----------

  function Text(s: Line, w: Span): string {
    if w.q <= w.eq <= |s| then s[w.q..w.eq] else ""
  }

  function Texts(s: Line, ws: seq<Span>): (r: seq<string>)
    ensures |r| == |ws| && forall k :: 0 <= k < |ws| ==> r[k] == Text(s, ws[k])
  {
    seq(|ws|, k requires 0 <= k < |ws| => Text(s, ws[k]))
  }

  /** A parsed command with its words read from the line. */
  function Resolve(s: Line, c: Cmd<Span>): Cmd<string> {
    match c
    case Exec(argv) => Exec(Texts(s, argv))
    case Redir(d, r) => Redir(Resolve(s, d), Redirection(Text(s, r.file), r.mode, r.fd))
    case Pipe(l, r) => Pipe(Resolve(s, l), Resolve(s, r))
    case List(l, r) => List(Resolve(s, l), Resolve(s, r))
    case Back(d) => Back(Resolve(s, d))
  }

  ghost predicate At(s: Line, i: nat, w: string) {
    i + |w| <= |s| && s[i..i + |w|] == w
  }

  lemma AtSplit(s: Line, i: nat, v: string, w: string)
    requires At(s, i, v + w)
    ensures At(s, i, v) && At(s, i + |v|, w)
  {
    assert s[i..i + |v|] == (v + w)[..|v|];
    assert s[i + |v|..i + |v| + |w|] == (v + w)[|v|..];
  }

  lemma AtChar(s: Line, i: nat, w: string, k: nat)
    requires At(s, i, w) && k < |w|
    ensures s[i + k] == w[k]
  {
    assert s[i..i + |w|][k] == s[i + k];
  }

  /** At the end of the line, or at a character that is not white, nothing is skipped. */
  predicate Solid(s: Line, i: nat) {
    i == |s| || (i < |s| && !IsWhite(s[i]))
  }

  /** The character at `i`, if any, is one of `toks`. */
  predicate Next(s: Line, i: nat, toks: string) {
    i == |s| || (i < |s| && s[i] in toks)
  }

  predicate NoWord(s: Line, i: nat) {
    i == |s| || (i < |s| && !IsPlain(s[i]))
  }

  lemma {:induction false} SkipGap(s: Line, i: nat, g: string)
    requires At(s, i, g) && White(g) && Solid(s, i + |g|)
    ensures SkipWhite(s, i) == i + |g|
    decreases |g|
  {
    if g != "" {
      AtChar(s, i, g, 0);
      assert g == g[..1] + g[1..];
      AtSplit(s, i, g[..1], g[1..]);
      SkipGap(s, i + 1, g[1..]);
    }
  }

  lemma {:induction false} PlainRun(s: Line, i: nat, j: nat)
    requires i <= j <= |s| && NoWord(s, j) && forall k :: i <= k < j ==> IsPlain(s[k])
    ensures SkipPlain(s, i) == j
    decreases j - i
  {
    if i < j {
      PlainRun(s, i + 1, j);
    }
  }

  lemma PeekAt(s: Line, i: nat, toks: string)
    requires i <= |s| && Solid(s, i)
    ensures SkipWhite(s, i) == i && Peek(s, i, toks) == (i < |s| && s[i] in toks)
  {
  }

  /** A legal word and the white space behind it are the next token. */
  lemma WordToken(s: Line, i: nat, w: string, g: string)
    requires At(s, i, w) && LegalWord(w) && At(s, i + |w|, g) && White(g)
    requires Solid(s, i + |w| + |g|) && (g == "" ==> NoWord(s, i + |w|))
    ensures GetToken(s, i) == Token('a', i, i + |w|, i + |w| + |g|) && Text(s, Span(i, i + |w|)) == w
    ensures i < |s| && IsPlain(s[i])
  {
    forall k | i <= k < i + |w| ensures IsPlain(s[k]) {
      AtChar(s, i, w, k - i);
    }
    if g != "" {
      AtChar(s, i + |w|, g, 0);
    }
    PlainRun(s, i, i + |w|);
    SkipGap(s, i + |w|, g);
  }

  /** A symbol and the white space behind it are the next token. */
  lemma SymbolToken(s: Line, i: nat, g: string)
    requires i < |s| && s[i] in "<|>&;()" && At(s, i + 1, g) && White(g) && Solid(s, i + 1 + |g|)
    requires s[i] == '>' && i + 1 < |s| ==> s[i + 1] != '>'
    ensures GetToken(s, i) == Token(s[i], i, i + 1, i + 1 + |g|)
  {
    SkipGap(s, i + 1, g);
  }

  /** Two arrows that point the same way are one token, of a kind of its own. */
  lemma AppendToken(s: Line, i: nat, g: string)
    requires At(s, i, ">>") && At(s, i + 2, g) && White(g) && Solid(s, i + 2 + |g|)
    ensures GetToken(s, i) == Token('+', i, i + 2, i + 2 + |g|)
  {
    AtChar(s, i, ">>", 0);
    AtChar(s, i, ">>", 1);
    SkipGap(s, i + 2, g);
  }
}
