/**
 The shell's grammar (sh.c) as functions on positions of the input line, which is the
 characters before its terminating NUL.  A word of a command is the span of positions it
 occupies in the line.
 */
module ShellSyntax {

  type Line = s: string | '\0' !in s witness ""

  const MAXARGS: nat := 10
  const O_RDONLY: nat := 0
  const O_WRONLY: nat := 1
  const O_CREATE: nat := 0x200

  predicate IsWhite(c: char) {
    c == ' ' || c == '\t' || c == '\r' || c == '\n' || c == '\U{0B}'
  }

  predicate IsSymbol(c: char) {
    c == '<' || c == '|' || c == '>' || c == '&' || c == ';' || c == '(' || c == ')'
  }

  predicate IsPlain(c: char) {
    !IsWhite(c) && !IsSymbol(c)
  }

  datatype Span = Span(q: nat, eq: nat)

  datatype Redirection<W> = Redirection(file: W, mode: nat, fd: nat)

  datatype Cmd<W> =
    | Exec(argv: seq<W>)
    | Redir(cmd: Cmd<W>, redir: Redirection<W>)
    | Pipe(left: Cmd<W>, right: Cmd<W>)
    | List(left: Cmd<W>, right: Cmd<W>)
    | Back(cmd: Cmd<W>)

  datatype Error = MissingFile | Syntax | MissingParen | TooManyArgs | NoBlock | Leftovers

  datatype Parsed<T> = Ok(value: T, pos: nat) | Err(error: Error)

  /** A token's kind is its character, '+' for >>, 'a' for a word and 0 at the end. */
  datatype Token = Token(kind: char, q: nat, eq: nat, next: nat)

  function SkipWhite(s: Line, i: nat): (j: nat)
    requires i <= |s|
    ensures i <= j <= |s| && (j < |s| ==> !IsWhite(s[j]))
    ensures forall k :: i <= k < j ==> IsWhite(s[k])
    decreases |s| - i
  {
    if i < |s| && IsWhite(s[i]) then SkipWhite(s, i + 1) else i
  }

  function SkipPlain(s: Line, i: nat): (j: nat)
    requires i <= |s|
    ensures i <= j <= |s| && (j < |s| ==> !IsPlain(s[j]))
    ensures forall k :: i <= k < j ==> IsPlain(s[k])
    decreases |s| - i
  {
    if i < |s| && IsPlain(s[i]) then SkipPlain(s, i + 1) else i
  }

  function GetToken(s: Line, i: nat): (t: Token)
    requires i <= |s|
    ensures i <= t.q <= t.eq <= t.next <= |s| && t.q == SkipWhite(s, i)
    ensures if t.kind == '\0' then t.q == |s| else t.q < t.eq
    ensures t.kind == 'a' ==> WordAt(s, Span(t.q, t.eq))
  {
    var q := SkipWhite(s, i);
    if q == |s| then Token('\0', q, q, q)
    else
      var c := s[q];
      if c == '>' && q + 1 < |s| && s[q + 1] == '>' then Token('+', q, q + 2, SkipWhite(s, q + 2))
      else if IsSymbol(c) then Token(c, q, q + 1, SkipWhite(s, q + 1))
      else
        var eq := SkipPlain(s, q);
        Token('a', q, eq, SkipWhite(s, eq))
  }

  /** The span is a whole word of the line: plain characters, and no plain one behind them. */
  ghost predicate WordAt(s: Line, w: Span) {
    && w.q < w.eq <= |s| && (w.eq < |s| ==> !IsPlain(s[w.eq]))
    && forall k :: w.q <= k < w.eq ==> IsPlain(s[k])
  }

  function Peek(s: Line, i: nat, toks: string): (r: bool)
    requires i <= |s|
  {
    var j := SkipWhite(s, i);
    j < |s| && s[j] in toks
  }

  /** The command with the redirections around it, the first one innermost. */
  function Wrap<W>(c: Cmd<W>, rs: seq<Redirection<W>>): Cmd<W>
    decreases |rs|
  {
    if rs == [] then c else Wrap(Redir(c, rs[0]), rs[1..])
  }

  /** parseredirs: the redirections at position `i`. */
  function ParseRedirs(s: Line, i: nat): (r: Parsed<seq<Redirection<Span>>>)
    requires i <= |s|
    ensures r.Ok? ==> i <= r.pos <= |s|
    decreases |s| - i
  {
    if !Peek(s, i, "<>") then Ok([], SkipWhite(s, i))
    else
      var t := GetToken(s, i);
      var u := GetToken(s, t.next);
      if u.kind != 'a' then Err(MissingFile)
      else
        var rd := if t.kind == '<' then Redirection(Span(u.q, u.eq), O_RDONLY, 0)
                  else Redirection(Span(u.q, u.eq), O_WRONLY + O_CREATE, 1);
        match ParseRedirs(s, u.next)
        case Err(e) => Err(e)
        case Ok(rs, pos) => Ok([rd] + rs, pos)
  }

  /** Command `c` with the redirections at position `j` around it. */
  function WithRedirs(s: Line, c: Cmd<Span>, j: nat): Parsed<Cmd<Span>>
    requires j <= |s|
  {
    match ParseRedirs(s, j)
    case Err(e) => Err(e)
    case Ok(rs, end) => Ok(Wrap(c, rs), end)
  }

  /** parseexec's loop: arguments and redirections in any order. */
  function ParseArgs(s: Line, i: nat, argv: seq<Span>, rs: seq<Redirection<Span>>): (r: Parsed<Cmd<Span>>)
    requires i <= |s|
    ensures r.Ok? ==> i <= r.pos <= |s|
    decreases |s| - i
  {
    if Peek(s, i, "|)&;") then Ok(Wrap(Exec(argv), rs), SkipWhite(s, i))
    else
      var t := GetToken(s, i);
      if t.kind == '\0' then Ok(Wrap(Exec(argv), rs), t.next)
      else if t.kind != 'a' then Err(Syntax)
      else if |argv| + 1 >= MAXARGS then Err(TooManyArgs)
      else
        match ParseRedirs(s, t.next)
        case Err(e) => Err(e)
        case Ok(more, pos) => ParseArgs(s, pos, argv + [Span(t.q, t.eq)], rs + more)
  }

  function ParseExec(s: Line, i: nat): (r: Parsed<Cmd<Span>>)
    requires i <= |s|
    ensures r.Ok? ==> i <= r.pos <= |s|
    decreases |s| - i, 2
  {
    if Peek(s, i, "(") then ParseBlock(s, i)
    else
      match ParseRedirs(s, i)
      case Err(e) => Err(e)
      case Ok(rs, pos) => ParseArgs(s, pos, [], rs)
  }

  function ParseBlock(s: Line, i: nat): (r: Parsed<Cmd<Span>>)
    requires i <= |s|
    ensures r.Ok? ==> i <= r.pos <= |s|
    decreases |s| - i, 1
  {
    if !Peek(s, i, "(") then Err(NoBlock)
    else
      match ParseLine(s, GetToken(s, i).next)
      case Err(e) => Err(e)
      case Ok(c, pos) =>
        if !Peek(s, pos, ")") then Err(MissingParen)
        else
          WithRedirs(s, c, GetToken(s, pos).next)
  }

  function ParsePipe(s: Line, i: nat): (r: Parsed<Cmd<Span>>)
    requires i <= |s|
    ensures r.Ok? ==> i <= r.pos <= |s|
    decreases |s| - i, 3
  {
    match ParseExec(s, i)
    case Err(e) => Err(e)
    case Ok(c, pos) =>
      if !Peek(s, pos, "|") then Ok(c, SkipWhite(s, pos))
      else
        match ParsePipe(s, GetToken(s, pos).next)
        case Err(e) => Err(e)
        case Ok(d, end) => Ok(Pipe(c, d), end)
  }

  /** parseline's loop: one background node for each & that follows. */
  function Backs(s: Line, i: nat, c: Cmd<Span>): (r: (Cmd<Span>, nat))
    requires i <= |s|
    ensures i <= r.1 <= |s|
    decreases |s| - i
  {
    if Peek(s, i, "&") then Backs(s, GetToken(s, i).next, Back(c)) else (c, SkipWhite(s, i))
  }

  function ParseLine(s: Line, i: nat): (r: Parsed<Cmd<Span>>)
    requires i <= |s|
    ensures r.Ok? ==> i <= r.pos <= |s|
    decreases |s| - i, 4
  {
    match ParsePipe(s, i)
    case Err(e) => Err(e)
    case Ok(c, pos) =>
      var (d, end) := Backs(s, pos, c);
      if !Peek(s, end, ";") then Ok(d, end)
      else
        match ParseLine(s, GetToken(s, end).next)
        case Err(e) => Err(e)
        case Ok(f, last) => Ok(List(d, f), last)
  }

  /** parsecmd up to nulterminate: the whole line is one command. */
  function ParseCmd(s: Line): (r: Parsed<Cmd<Span>>)
    ensures r.Ok? ==> r.pos == |s|
  {
    match ParseLine(s, 0)
    case Err(e) => Err(e)
    case Ok(c, pos) => if SkipWhite(s, pos) != |s| then Err(Leftovers) else Ok(c, |s|)
  }
}
