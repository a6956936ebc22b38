/**
 The parser reads the grammar (sh.c): the text of every legal derivation, wherever it stands
 in a line that goes on as the grammar has it, parses to what the derivation means.
 */
module ShellAccepts {

  import opened ShellSyntax
  import opened ShellGrammar

  // ---------- how texts begin ----------

  /** The text does not begin with white space. */
  ghost predicate Starts(w: string) {
    w != "" ==> !IsWhite(w[0])
  }

  lemma AtStarts(s: Line, i: nat, w: string)
    requires At(s, i, w) && Starts(w) && Solid(s, i + |w|)
    ensures Solid(s, i)
  {
    if w != "" {
      AtChar(s, i, w, 0);
    }
  }

  lemma ArgsStart(args: seq<ArgText>)
    requires LegalArgs(args)
    ensures Starts(ArgsString(args)) && (args != [] ==> ArgsString(args) != "" && IsPlain(ArgsString(args)[0]))
  {
  }

  lemma RedirsStart(rs: seq<RedirText>)
    ensures Starts(RedirsString(rs)) && (rs != [] ==> RedirsString(rs) != "" && RedirsString(rs)[0] in "<>")
  {
  }

  lemma ExecStart(e: ExecText)
    requires LegalExec(e)
    ensures Starts(ExecString(e))
  {
    if e.Simple? {
      RedirsStart(e.rs);
      ArgsStart(e.args);
    }
  }

  lemma PipeStart(p: PipeText)
    requires LegalPipe(p)
    ensures Starts(PipeString(p))
  {
    ExecStart(p.exec);
  }

  lemma LineStart(l: LineText)
    requires LegalLine(l)
    ensures Starts(LineString(l))
  {
    PipeStart(l.pipe);
  }

  // ---------- texts have no NUL ----------

  lemma {:induction false} RedirsNoNul(rs: seq<RedirText>)
    requires forall k :: 0 <= k < |rs| ==> LegalRedir(rs[k])
    ensures '\0' !in RedirsString(rs)
  {
    if rs != [] {
      assert LegalRedir(rs[0]);
      RedirsNoNul(rs[1..]);
    }
  }

  lemma {:induction false} ArgsNoNul(args: seq<ArgText>)
    requires LegalArgs(args)
    ensures '\0' !in ArgsString(args)
  {
    if args != [] {
      RedirsNoNul(args[0].rs);
      ArgsNoNul(args[1..]);
    }
  }

  lemma {:induction false} AmpsNoNul(amps: seq<string>)
    requires forall k :: 0 <= k < |amps| ==> White(amps[k])
    ensures '\0' !in AmpsString(amps)
  {
    if amps != [] {
      assert White(amps[0]);
      AmpsNoNul(amps[1..]);
    }
  }

  lemma {:induction false} ExecNoNul(e: ExecText)
    requires LegalExec(e)
    ensures '\0' !in ExecString(e)
  {
    RedirsNoNul(e.rs);
    match e {
      case Simple(rs, args) => ArgsNoNul(args);
      case Block(open, line, close, rs) => LineNoNul(line);
    }
  }

  lemma {:induction false} PipeNoNul(p: PipeText)
    requires LegalPipe(p)
    ensures '\0' !in PipeString(p)
  {
    ExecNoNul(p.exec);
    if p.Piped? {
      PipeNoNul(p.rest);
    }
  }

  lemma {:induction false} LineNoNul(l: LineText)
    requires LegalLine(l)
    ensures '\0' !in LineString(l)
  {
    PipeNoNul(l.pipe);
    AmpsNoNul(l.amps);
    if l.rest.Then? {
      LineNoNul(l.rest.line);
    }
  }

  // ---------- redirections ----------

  /** The parsed redirections, with their files read from the line, are what the derivation means. */
  ghost predicate Means(s: Line, v: seq<Redirection<Span>>, rs: seq<RedirText>) {
    && |v| == |rs|
    && forall k :: 0 <= k < |rs| ==> Redirection(Text(s, v[k].file), v[k].mode, v[k].fd) == RedirMeans(rs[k])
  }

  /** The two tokens of a redirection. */
  lemma RedirTokens(s: Line, i: nat, r: RedirText, j: nat)
    requires At(s, i, ArrowString(r.arrow)) && At(s, i + |ArrowString(r.arrow)|, r.gap)
    requires var q := i + |ArrowString(r.arrow)| + |r.gap|;
             At(s, q, r.file) && At(s, q + |r.file|, r.after) && j == q + |r.file| + |r.after|
    requires LegalRedir(r) && Solid(s, j) && (r.after == "" ==> NoWord(s, j))
    ensures Solid(s, i) && i < |s| && s[i] in "<>"
    ensures var t := GetToken(s, i);
            var u := GetToken(s, t.next);
            && u.kind == 'a' && u.next == j && Text(s, Span(u.q, u.eq)) == r.file
            && (t.kind == '<' <==> r.arrow == In)
  {
    hide GetToken, SkipWhite, White, LegalWord, At, NoWord, Text;
    var a := ArrowString(r.arrow);
    var q := i + |a| + |r.gap|;
    AtArrow(s, i, r.arrow);
    WordToken(s, q, r.file, r.after);
    WordSolid(s, q);
    if r.arrow == Append {
      AppendToken(s, i, r.gap);
    } else {
      ArrowAlone(s, i, r.gap);
      SymbolToken(s, i, r.gap);
    }
  }

  lemma AtArrow(s: Line, i: nat, a: Arrow)
    requires At(s, i, ArrowString(a))
    ensures i < |s| && Solid(s, i) && s[i] == (if a == In then '<' else '>')
  {
    AtChar(s, i, ArrowString(a), 0);
  }

  lemma WordSolid(s: Line, i: nat)
    requires i < |s| && IsPlain(s[i])
    ensures Solid(s, i)
  {
  }

  /** Behind an arrow there is white space or a word, so no second arrow. */
  lemma ArrowAlone(s: Line, i: nat, g: string)
    requires i < |s| && At(s, i + 1, g) && White(g) && i + 1 + |g| < |s| && IsPlain(s[i + 1 + |g|])
    ensures s[i + 1] != '>'
  {
    if g != "" {
      AtChar(s, i + 1, g, 0);
    }
  }

  lemma {:induction false} RedirsParse(s: Line, i: nat, rs: seq<RedirText>, j: nat)
    returns (v: seq<Redirection<Span>>)
    requires At(s, i, RedirsString(rs)) && j == i + |RedirsString(rs)|
    requires forall k :: 0 <= k < |rs| ==> LegalRedir(rs[k])
    requires Solid(s, j) && (j < |s| ==> s[j] !in "<>") && (rs != [] && rs[|rs| - 1].after == "" ==> NoWord(s, j))
    ensures ParseRedirs(s, i) == Ok(v, j) && Means(s, v, rs)
    decreases |rs|
  {
    hide ParseRedirs, LegalRedir, Text, At, NoWord, RedirsString, Means, RedirMeans;
    RedirsUnfold(rs);
    if rs == [] {
      RedirsDone(s, i);
      v := [];
    } else {
      var m := j - |RedirsString(rs[1..])|;
      var rd := RedirsStep(s, i, rs, j);
      var rest := RedirsParse(s, m, rs[1..], j);
      v := [rd] + rest;
      assert v[1..] == rest;
      FirstMeans(s, v, rs);
    }
  }

  lemma RedirsDone(s: Line, i: nat)
    requires i <= |s| && Solid(s, i) && (i < |s| ==> s[i] !in "<>")
    ensures ParseRedirs(s, i) == Ok([], i) && Means(s, [], [])
  {
    PeekAt(s, i, "<>");
  }

  /** parseredirs' loop, once round. */
  lemma RedirsStep(s: Line, i: nat, rs: seq<RedirText>, j: nat) returns (rd: Redirection<Span>)
    requires rs != [] && At(s, i, RedirsString(rs)) && j == i + |RedirsString(rs)| && LegalRedir(rs[0])
    requires Solid(s, j) && (rs[|rs| - 1].after == "" ==> NoWord(s, j))
    ensures var m := j - |RedirsString(rs[1..])|;
            && i <= m <= |s| && At(s, m, RedirsString(rs[1..]))
            && Redirection(Text(s, rd.file), rd.mode, rd.fd) == RedirMeans(rs[0])
            && forall v, k :: ParseRedirs(s, m) == Ok(v, k) ==> ParseRedirs(s, i) == Ok([rd] + v, k)
  {
    hide GetToken, SkipWhite, Peek, LegalRedir, Text, NoWord, RedirsString, Solid;
    OneRedir(s, i, rs, j);
    var t := GetToken(s, i);
    var u := GetToken(s, t.next);
    rd := if t.kind == '<' then Redirection(Span(u.q, u.eq), 0, 0) else Redirection(Span(u.q, u.eq), 0x201, 1);
  }

  lemma FirstMeans(s: Line, v: seq<Redirection<Span>>, rs: seq<RedirText>)
    requires v != [] && rs != [] && Means(s, v[1..], rs[1..])
    requires Redirection(Text(s, v[0].file), v[0].mode, v[0].fd) == RedirMeans(rs[0])
    ensures Means(s, v, rs)
  {
    hide RedirMeans, Text;
    forall k | 0 <= k < |rs| ensures Redirection(Text(s, v[k].file), v[k].mode, v[k].fd) == RedirMeans(rs[k]) {
      assert k > 0 ==> v[k] == v[1..][k - 1] && rs[k] == rs[1..][k - 1];
    }
  }

  lemma RedirsUnfold(rs: seq<RedirText>)
    ensures rs == [] ==> RedirsString(rs) == ""
    ensures rs != [] ==>
              var r := rs[0];
              RedirsString(rs) == ArrowString(r.arrow) + (r.gap + (r.file + (r.after + RedirsString(rs[1..]))))
  {
  }

  /** The first of several redirections, and where the others begin. */
  lemma OneRedir(s: Line, i: nat, rs: seq<RedirText>, j: nat)
    requires rs != [] && At(s, i, RedirsString(rs)) && j == i + |RedirsString(rs)| && LegalRedir(rs[0])
    requires Solid(s, j) && (rs[|rs| - 1].after == "" ==> NoWord(s, j))
    ensures var m := j - |RedirsString(rs[1..])|;
            && i <= m && At(s, m, RedirsString(rs[1..])) && SkipWhite(s, i) == i && Peek(s, i, "<>")
            && var t := GetToken(s, i);
               var u := GetToken(s, t.next);
               && u.kind == 'a' && u.next == m && Text(s, Span(u.q, u.eq)) == rs[0].file
               && (t.kind == '<' <==> rs[0].arrow == In)
  {
    hide GetToken, SkipWhite, Peek, LegalRedir, At, Text, RedirsString, ArrowString, NoWord, Solid;
    RedirsUnfold(rs);
    var r, rest := rs[0], RedirsString(rs[1..]);
    var m := j - |rest|;
    FiveParts(s, i, ArrowString(r.arrow), r.gap, r.file, r.after, rest);
    RedirsNext(s, m, rs[1..], j);
    RedirTokens(s, i, r, m);
    PeekAt(s, i, "<>");
  }

  lemma FiveParts(s: Line, i: nat, a: string, b: string, c: string, d: string, e: string)
    requires At(s, i, a + (b + (c + (d + e))))
    ensures At(s, i, a) && At(s, i + |a|, b) && At(s, i + |a| + |b|, c) && At(s, i + |a| + |b| + |c|, d)
    ensures At(s, i + |a| + |b| + |c| + |d|, e)
  {
    hide At;
    AtSplit(s, i, a, b + (c + (d + e)));
    AtSplit(s, i + |a|, b, c + (d + e));
    AtSplit(s, i + |a| + |b|, c, d + e);
    AtSplit(s, i + |a| + |b| + |c|, d, e);
  }

  /** Redirections begin with no white space, and with no word. */
  lemma RedirsNext(s: Line, i: nat, rs: seq<RedirText>, j: nat)
    requires At(s, i, RedirsString(rs)) && j == i + |RedirsString(rs)| && Solid(s, j)
    ensures Solid(s, i) && (rs != [] || NoWord(s, j) ==> NoWord(s, i))
    ensures i < |s| && s[i] in "<>" <==> rs != [] || (j < |s| && s[j] in "<>")
  {
    RedirsUnfold(rs);
    RedirsStart(rs);
    AtStarts(s, i, RedirsString(rs));
    if rs != [] {
      AtChar(s, i, RedirsString(rs), 0);
    }
  }

  /** Wrapping from the inside out is enclosing one after the other. */
  lemma {:induction false} WrapMeans(s: Line, c: Cmd<Span>, v: seq<Redirection<Span>>, rs: seq<RedirText>)
    requires Means(s, v, rs)
    ensures Resolve(s, Wrap(c, v)) == Around(Resolve(s, c), rs)
    decreases |rs|
  {
    hide RedirMeans, Text;
    if rs != [] {
      assert v == [v[0]] + v[1..];
      WrapMeans(s, Redir(c, v[0]), v[1..], rs[1..]);
      AroundFirst(Resolve(s, c), rs);
    }
  }

  lemma {:induction false} AroundFirst(c: Cmd<string>, rs: seq<RedirText>)
    requires rs != []
    ensures Around(c, rs) == Around(Redir(c, RedirMeans(rs[0])), rs[1..])
    decreases |rs|
  {
    hide RedirMeans;
    var n := |rs| - 1;
    if n > 0 {
      AroundFirst(c, rs[..n]);
      assert rs[..n][1..] == rs[1..][..n - 1];
    } else {
      assert Around(c, rs[..0]) == c;
    }
  }

  // ---------- arguments ----------

  lemma ArgsUnfold(args: seq<ArgText>)
    ensures args == [] ==> ArgsString(args) == "" && ArgWords(args) == [] && ArgRedirs(args) == []
    ensures args != [] ==>
              var a := args[0];
              && ArgsString(args) == a.word + (a.after + (RedirsString(a.rs) + ArgsString(args[1..])))
              && ArgWords(args) == [a.word] + ArgWords(args[1..]) && ArgRedirs(args) == a.rs + ArgRedirs(args[1..])
  {
  }

  /** Arguments begin with no white space, and with a word if there are any. */
  lemma ArgsNext(s: Line, i: nat, args: seq<ArgText>, j: nat)
    requires At(s, i, ArgsString(args)) && j == i + |ArgsString(args)| && Next(s, j, "|)&;") && LegalArgs(args)
    ensures Solid(s, i) && (i < |s| ==> s[i] !in "<>(") && (args == [] ==> NoWord(s, i) && i == j)
    ensures args != [] ==> i < |s| && IsPlain(s[i])
  {
    ArgsUnfold(args);
    ArgsStart(args);
    if args != [] {
      AtChar(s, i, ArgsString(args), 0);
    }
  }

  lemma FourParts(s: Line, i: nat, a: string, b: string, c: string, d: string)
    requires At(s, i, a + (b + (c + d)))
    ensures At(s, i, a) && At(s, i + |a|, b) && At(s, i + |a| + |b|, c) && At(s, i + |a| + |b| + |c|, d)
  {
    hide At;
    AtSplit(s, i, a, b + (c + d));
    AtSplit(s, i + |a|, b, c + d);
    AtSplit(s, i + |a| + |b|, c, d);
  }

  /** One argument with its redirections, and where the others begin. */
  lemma OneArg(s: Line, i: nat, args: seq<ArgText>, j: nat) returns (v: seq<Redirection<Span>>)
    requires args != [] && At(s, i, ArgsString(args)) && j == i + |ArgsString(args)|
    requires LegalArgs(args) && Next(s, j, "|)&;")
    ensures var a, m, t := args[0], j - |ArgsString(args[1..])|, GetToken(s, i);
            && i <= m && At(s, m, ArgsString(args[1..])) && !Peek(s, i, "|)&;")
            && t.kind == 'a' && Text(s, Span(t.q, t.eq)) == a.word
            && ParseRedirs(s, t.next) == Ok(v, m) && Means(s, v, a.rs)
  {
    hide GetToken, SkipWhite, Peek, White, LegalWord, At, Text, RedirsString, ArgsString, ParseRedirs, Means,
         LegalRedir, LegalArgs, ArgWords, ArgRedirs, Solid, IsPlain;
    ArgsUnfold(args);
    ArgLegal(args);
    var a, rest := args[0], ArgsString(args[1..]);
    var q, m := i + |a.word| + |a.after|, j - |rest|;
    FourParts(s, i, a.word, a.after, RedirsString(a.rs), rest);
    ArgsNext(s, m, args[1..], j);
    RedirsNext(s, q, a.rs, m);
    RedirsUnfold(a.rs);
    WordToken(s, i, a.word, a.after);
    PeekWord(s, i);
    v := RedirsParse(s, q, a.rs, m);
  }

  lemma ArgLegal(args: seq<ArgText>)
    requires LegalArgs(args) && args != []
    ensures LegalWord(args[0].word) && White(args[0].after) && LegalRedirs(args[0].rs, |args| > 1)
    ensures |args| > 1 && args[0].rs == [] ==> args[0].after != ""
    ensures LegalArgs(args[1..])
  {
  }

  lemma PeekWord(s: Line, i: nat)
    requires i < |s| && IsPlain(s[i])
    ensures SkipWhite(s, i) == i && !Peek(s, i, "|)&;") && !Peek(s, i, "(")
  {
  }

  lemma {:induction false} ArgsParse(s: Line, i: nat, args: seq<ArgText>, j: nat, argv: seq<Span>,
                                     rs0: seq<Redirection<Span>>)
    returns (more: seq<Span>, v: seq<Redirection<Span>>)
    requires At(s, i, ArgsString(args)) && j == i + |ArgsString(args)| && LegalArgs(args)
    requires |argv| + |args| < MAXARGS && Next(s, j, "|)&;")
    ensures ParseArgs(s, i, argv, rs0) == Ok(Wrap(Exec(argv + more), rs0 + v), j)
    ensures Texts(s, more) == ArgWords(args) && Means(s, v, ArgRedirs(args))
    decreases |args|
  {
    hide ParseArgs, GetToken, Peek, At, Text, ArgsString, LegalRedirs, LegalWord, White, Wrap, ArgWords, ArgRedirs,
         LegalArgs, Means;
    ArgsUnfold(args);
    if args == [] {
      more, v := [], [];
      NoneMean(s);
      ArgsDone(s, i, argv, rs0);
      assert argv + more == argv && rs0 + v == rs0;
    } else {
      var m, t := j - |ArgsString(args[1..])|, GetToken(s, i);
      ArgLegal(args);
      var v0 := ArgsStep(s, i, args, j, argv, rs0);
      var more1, v1 := ArgsParse(s, m, args[1..], j, argv + [Span(t.q, t.eq)], rs0 + v0);
      more, v := [Span(t.q, t.eq)] + more1, v0 + v1;
      assert argv + more == argv + [Span(t.q, t.eq)] + more1 && rs0 + v == rs0 + v0 + v1;
      assert Texts(s, more) == [args[0].word] + Texts(s, more1);
      BothMean(s, v0, args[0].rs, v1, ArgRedirs(args[1..]));
    }
  }

  /** parseexec's loop, once round. */
  lemma ArgsStep(s: Line, i: nat, args: seq<ArgText>, j: nat, argv: seq<Span>, rs0: seq<Redirection<Span>>)
    returns (v: seq<Redirection<Span>>)
    requires args != [] && At(s, i, ArgsString(args)) && j == i + |ArgsString(args)| && LegalArgs(args)
    requires |argv| + |args| < MAXARGS && Next(s, j, "|)&;")
    ensures var m, t := j - |ArgsString(args[1..])|, GetToken(s, i);
            && i <= m <= |s| && At(s, m, ArgsString(args[1..])) && Means(s, v, args[0].rs)
            && t.q <= t.eq <= |s| && Text(s, Span(t.q, t.eq)) == args[0].word
            && ParseArgs(s, i, argv, rs0) == ParseArgs(s, m, argv + [Span(t.q, t.eq)], rs0 + v)
  {
    hide GetToken, SkipWhite, Peek, Text, ArgsString, ParseRedirs, LegalArgs, Means, Wrap;
    v := OneArg(s, i, args, j);
  }

  lemma ArgsDone(s: Line, i: nat, argv: seq<Span>, rs: seq<Redirection<Span>>)
    requires Next(s, i, "|)&;")
    ensures i <= |s| && ParseArgs(s, i, argv, rs) == Ok(Wrap(Exec(argv), rs), i)
  {
    PeekAt(s, i, "|)&;");
  }

  lemma NoneMean(s: Line)
    ensures Means(s, [], [])
  {
  }

  lemma BothMean(s: Line, v: seq<Redirection<Span>>, rs: seq<RedirText>, v': seq<Redirection<Span>>,
                 rs': seq<RedirText>)
    requires Means(s, v, rs) && Means(s, v', rs')
    ensures Means(s, v + v', rs + rs')
  {
    hide RedirMeans, Text;
  }

  // ---------- commands ----------

  lemma SimpleParse(s: Line, i: nat, rs: seq<RedirText>, args: seq<ArgText>, j: nat) returns (c: Cmd<Span>)
    requires At(s, i, RedirsString(rs) + ArgsString(args)) && j == i + |RedirsString(rs)| + |ArgsString(args)|
    requires LegalRedirs(rs, args != []) && LegalArgs(args) && |args| < MAXARGS && Next(s, j, "|)&;")
    ensures ParseExec(s, i) == Ok(c, j) && Resolve(s, c) == Around(Exec(ArgWords(args)), rs + ArgRedirs(args))
  {
    hide ParseRedirs, ParseArgs, ParseBlock, At, RedirsString, ArgsString, LegalArgs, LegalRedir, Around, Wrap,
         ArgWords, ArgRedirs, Means, SkipWhite, Peek;
    var m := i + |RedirsString(rs)|;
    AtSplit(s, i, RedirsString(rs), ArgsString(args));
    ArgsNext(s, m, args, j);
    RedirsNext(s, i, rs, m);
    RedirsUnfold(rs);
    NotOpen(s, i, rs, m);
    var v := RedirsParse(s, i, rs, m);
    var more, v' := ArgsParse(s, m, args, j, [], v);
    assert [] + more == more;
    c := Wrap(Exec(more), v + v');
    BothMean(s, v, rs, v', ArgRedirs(args));
    WrapMeans(s, Exec(more), v + v', rs + ArgRedirs(args));
  }

  lemma NotOpen(s: Line, i: nat, rs: seq<RedirText>, m: nat)
    requires i <= m <= |s| && Solid(s, i) && (rs == [] ==> i == m)
    requires i < |s| && s[i] in "<>" <==> rs != [] || (m < |s| && s[m] in "<>")
    requires m < |s| ==> s[m] !in "<>("
    ensures !Peek(s, i, "(")
  {
    PeekAt(s, i, "(");
  }

  /** A command in parentheses, and the redirections behind it. */
  lemma BlockParse(s: Line, i: nat, open: string, d: Cmd<Span>, q: nat, close: string, rs: seq<RedirText>, j: nat)
    returns (c: Cmd<Span>)
    requires i < |s| && s[i] == '(' && At(s, i + 1, open) && White(open) && Solid(s, i + 1 + |open|)
    requires i + 1 + |open| <= q < |s| && s[q] == ')' && ParseLine(s, i + 1 + |open|) == Ok(d, q)
    requires At(s, q + 1, close) && White(close) && At(s, q + 1 + |close|, RedirsString(rs))
    requires j == q + 1 + |close| + |RedirsString(rs)| && LegalRedirs(rs, false) && Next(s, j, "|)&;")
    ensures ParseExec(s, i) == Ok(c, j) && Resolve(s, c) == Around(Resolve(s, d), rs)
  {
    hide ParseLine, ParseRedirs, ParseArgs, At, White, RedirsString, SkipWhite, Peek, GetToken, Wrap, Around, Means,
         LegalRedir;
    var m := q + 1 + |close|;
    NextSolid(s, j);
    RedirsNext(s, m, rs, j);
    RedirsUnfold(rs);
    PeekAt(s, i, "(");
    SymbolToken(s, i, open);
    PeekAt(s, q, ")");
    SymbolToken(s, q, close);
    var v := RedirsParse(s, m, rs, j);
    c := Wrap(d, v);
    WrapMeans(s, d, v, rs);
  }

  lemma NextSolid(s: Line, j: nat)
    requires Next(s, j, "|)&;")
    ensures Solid(s, j) && NoWord(s, j) && (j < |s| ==> s[j] !in "<>")
  {
  }

  lemma BlockParts(s: Line, i: nat, open: string, line: string, close: string, rs: string)
    requires At(s, i, "(" + (open + (line + (")" + (close + rs)))))
    ensures var q := i + 1 + |open| + |line|;
            && i < |s| && s[i] == '(' && At(s, i + 1, open) && At(s, i + 1 + |open|, line) && q < |s| && s[q] == ')'
            && At(s, q + 1, close) && At(s, q + 1 + |close|, rs)
  {
    hide At;
    AtSplit(s, i, "(", open + (line + (")" + (close + rs))));
    FiveParts(s, i + 1, open, line, ")", close, rs);
    AtChar(s, i, "(", 0);
    AtChar(s, i + 1 + |open| + |line|, ")", 0);
  }

  lemma BlockInside(s: Line, m: nat, line: LineText, q: nat)
    requires At(s, m, LineString(line)) && q == m + |LineString(line)| < |s| && s[q] == ')' && LegalLine(line)
    ensures Solid(s, m) && Next(s, q, ")")
  {
    hide LineString, LegalLine;
    LineStart(line);
    AtStarts(s, m, LineString(line));
  }

  lemma {:induction false} ExecParse(s: Line, i: nat, e: ExecText, j: nat) returns (c: Cmd<Span>)
    requires At(s, i, ExecString(e)) && j == i + |ExecString(e)| && LegalExec(e) && Next(s, j, "|)&;")
    ensures ParseExec(s, i) == Ok(c, j) && Resolve(s, c) == ExecMeans(e)
    decreases e
  {
    hide ParseExec, ParseLine, At, White, Resolve, LegalArgs, LegalRedirs, Around, RedirsString, ArgsString, LineString,
         LegalLine, LineMeans, Solid;
    match e {
      case Simple(rs, args) =>
        c := SimpleParse(s, i, rs, args, j);
      case Block(open, line, close, rs) =>
        var m, q := i + 1 + |open|, i + 1 + |open| + |LineString(line)|;
        BlockParts(s, i, open, LineString(line), close, RedirsString(rs));
        BlockInside(s, m, line, q);
        var d := LineParse(s, m, line, q);
        c := BlockParse(s, i, open, d, q, close, rs, j);
    }
  }

  lemma {:induction false} PipeParse(s: Line, i: nat, p: PipeText, j: nat) returns (c: Cmd<Span>)
    requires At(s, i, PipeString(p)) && j == i + |PipeString(p)| && LegalPipe(p) && Next(s, j, ")&;")
    ensures ParsePipe(s, i) == Ok(c, j) && Resolve(s, c) == PipeMeans(p)
    decreases p
  {
    hide ParsePipe, ParseExec, At, White, ExecString, LegalExec, ExecMeans;
    match p {
      case One(e) =>
        c := ExecParse(s, i, e, j);
        PipeOver(s, i, c, j);
      case Piped(e, gap, rest) =>
        var m := i + |ExecString(e)|;
        FourParts(s, i, ExecString(e), "|", gap, PipeString(rest));
        AtChar(s, m, "|", 0);
        PipeFollows(s, m + 1 + |gap|, rest, j);
        var a := ExecParse(s, i, e, m);
        var b := PipeParse(s, m + 1 + |gap|, rest, j);
        PipeOn(s, i, a, m, gap, b, j);
        c := Pipe(a, b);
    }
  }

  lemma PipeFollows(s: Line, i: nat, p: PipeText, j: nat)
    requires At(s, i, PipeString(p)) && j == i + |PipeString(p)| && LegalPipe(p) && Next(s, j, ")&;")
    ensures Solid(s, i)
  {
    hide PipeString, LegalPipe;
    PipeStart(p);
    AtStarts(s, i, PipeString(p));
  }

  lemma PipeOver(s: Line, i: nat, c: Cmd<Span>, j: nat)
    requires i <= j <= |s| && ParseExec(s, i) == Ok(c, j) && Next(s, j, ")&;")
    ensures ParsePipe(s, i) == Ok(c, j)
  {
    hide ParseExec, SkipWhite, Peek;
    PeekAt(s, j, "|");
  }

  lemma PipeOn(s: Line, i: nat, a: Cmd<Span>, m: nat, gap: string, b: Cmd<Span>, j: nat)
    requires i <= m < |s| && ParseExec(s, i) == Ok(a, m) && s[m] == '|' && At(s, m + 1, gap) && White(gap)
    requires m + 1 + |gap| <= |s| && Solid(s, m + 1 + |gap|) && ParsePipe(s, m + 1 + |gap|) == Ok(b, j)
    ensures ParsePipe(s, i) == Ok(Pipe(a, b), j)
  {
    hide ParseExec, SkipWhite, Peek, GetToken, At, White;
    PeekAt(s, m, "|");
    SymbolToken(s, m, gap);
  }

  lemma {:induction false} BackInside(c: Cmd<string>, n: nat)
    ensures Background(Back(c), n) == Back(Background(c, n))
  {
    if n > 0 {
      BackInside(c, n - 1);
    }
  }

  lemma ThreeParts(s: Line, i: nat, a: string, b: string, c: string)
    requires At(s, i, a + (b + c))
    ensures At(s, i, a) && At(s, i + |a|, b) && At(s, i + |a| + |b|, c)
  {
    hide At;
    AtSplit(s, i, a, b + c);
    AtSplit(s, i + |a|, b, c);
  }

  /** One background node for each &. */
  lemma {:induction false} AmpsParse(s: Line, i: nat, amps: seq<string>, j: nat, c: Cmd<Span>) returns (d: Cmd<Span>)
    requires At(s, i, AmpsString(amps)) && j == i + |AmpsString(amps)| && Next(s, j, ");")
    requires forall k :: 0 <= k < |amps| ==> White(amps[k])
    ensures i <= |s| && Backs(s, i, c) == (d, j) && Resolve(s, d) == Background(Resolve(s, c), |amps|)
    decreases |amps|
  {
    hide At, White, GetToken, SkipWhite, Peek, AmpsString;
    AmpsUnfold(amps);
    if amps == [] {
      PeekAt(s, i, "&");
      d := c;
    } else {
      var m := i + 1 + |amps[0]|;
      ThreeParts(s, i, "&", amps[0], AmpsString(amps[1..]));
      AtChar(s, i, "&", 0);
      AmpsNext(s, m, amps[1..], j);
      PeekAt(s, i, "&");
      SymbolToken(s, i, amps[0]);
      d := AmpsParse(s, m, amps[1..], j, Back(c));
      BackInside(Resolve(s, c), |amps| - 1);
    }
  }

  lemma AmpsUnfold(amps: seq<string>)
    ensures amps == [] ==> AmpsString(amps) == ""
    ensures amps != [] ==> AmpsString(amps) == "&" + (amps[0] + AmpsString(amps[1..]))
  {
  }

  lemma AmpsNext(s: Line, i: nat, amps: seq<string>, j: nat)
    requires At(s, i, AmpsString(amps)) && j == i + |AmpsString(amps)| && Next(s, j, ");")
    ensures Solid(s, i) && Next(s, i, ")&;")
  {
    AmpsUnfold(amps);
    if amps != [] {
      AtChar(s, i, AmpsString(amps), 0);
    }
  }

  lemma {:induction false} LineParse(s: Line, i: nat, l: LineText, j: nat) returns (c: Cmd<Span>)
    requires At(s, i, LineString(l)) && j == i + |LineString(l)| && LegalLine(l) && Next(s, j, ")")
    ensures ParseLine(s, i) == Ok(c, j) && Resolve(s, c) == LineMeans(l)
    decreases l
  {
    hide ParsePipe, At, White, PipeString, AmpsString, LegalPipe, PipeMeans, Backs, GetToken, SkipWhite, Peek,
         Background;
    var p, a := PipeString(l.pipe), AmpsString(l.amps);
    var m, n := i + |p|, i + |p| + |a|;
    ThreeParts(s, i, p, a, RestString(l.rest));
    assert Next(s, n, ");") by {
      if l.rest.Then? { AtChar(s, n, RestString(l.rest), 0); }
    }
    AmpsNext(s, m, l.amps, n);
    var b := PipeParse(s, i, l.pipe, m);
    var d := AmpsParse(s, m, l.amps, n, b);
    PeekAt(s, n, ";");
    match l.rest {
      case End =>
        c := d;
      case Then(gap, line) =>
        ThreeParts(s, n, ";", gap, LineString(line));
        AtChar(s, n, ";", 0);
        LineStart(line);
        AtStarts(s, n + 1 + |gap|, LineString(line));
        SymbolToken(s, n, gap);
        var f := LineParse(s, n + 1 + |gap|, line, j);
        c := List(d, f);
    }
  }

  /** The text of every legal derivation, with any white space before it, parses to what the derivation means. */
  lemma Accepts(g: string, l: LineText)
    requires White(g) && LegalLine(l)
    ensures '\0' !in g + LineString(l) && ParseCmd(g + LineString(l)).Ok?
    ensures Resolve(g + LineString(l), ParseCmd(g + LineString(l)).value) == LineMeans(l)
  {
    hide ParseLine, LineString, LegalLine, LineMeans, Resolve;
    LineNoNul(l);
    var s: Line := g + LineString(l);
    assert s[0..|s|] == s;
    AtSplit(s, 0, g, LineString(l));
    LineStart(l);
    AtStarts(s, |g|, LineString(l));
    SkipGap(s, 0, g);
    var c := LineParse(s, |g|, l, |s|);
    LineSkips(s, 0);
    PeekAt(s, |s|, "");
  }

  /** White space before a line is skipped. */
  lemma LineSkips(s: Line, i: nat)
    requires i <= |s|
    ensures ParseLine(s, SkipWhite(s, i)) == ParseLine(s, i)
  {
    hide ParsePipe, SkipWhite;
    PipeSkips(s, i);
  }

  lemma PipeSkips(s: Line, i: nat)
    requires i <= |s|
    ensures ParsePipe(s, SkipWhite(s, i)) == ParsePipe(s, i)
  {
    hide ParseExec, SkipWhite;
    ExecSkips(s, i);
  }

  lemma ExecSkips(s: Line, i: nat)
    requires i <= |s|
    ensures ParseExec(s, SkipWhite(s, i)) == ParseExec(s, i)
  {
    hide ParseArgs, ParseRedirs, ParseBlock;
    PeekAt(s, SkipWhite(s, i), "(");
    BlockSkips(s, i);
    RedirsSkip(s, i);
  }

  lemma RedirsSkip(s: Line, i: nat)
    requires i <= |s|
    ensures ParseRedirs(s, SkipWhite(s, i)) == ParseRedirs(s, i)
  {
    var j := SkipWhite(s, i);
    PeekAt(s, j, "<>");
    assert GetToken(s, j) == GetToken(s, i);
  }

  lemma BlockSkips(s: Line, i: nat)
    requires i <= |s|
    ensures ParseBlock(s, SkipWhite(s, i)) == ParseBlock(s, i)
  {
    hide ParseLine, WithRedirs;
    var j := SkipWhite(s, i);
    PeekAt(s, j, "(");
    assert GetToken(s, j) == GetToken(s, i);
  }
}
