/**
 The parser reads nothing but the grammar (sh.c): every line that it accepts is the text of
 a legal derivation, and the command it returns is what the derivation means.
 */
module ShellDerives {

  import opened ShellSyntax
  import opened ShellGrammar
  import opened ShellAccepts

  // ---------- tokens as pieces of text ----------

  lemma GapWhite(s: Line, i: nat)
    requires i <= |s|
    ensures White(s[i..SkipWhite(s, i)]) && Solid(s, SkipWhite(s, i))
  {
    var j := SkipWhite(s, i);
    forall k | 0 <= k < j - i ensures s[i..j][k] in " \t\r\n\U{0B}" {
      assert IsWhite(s[i + k]);
    }
  }

  /** A word, and the white space behind it, which parts it from what follows. */
  lemma WordPiece(s: Line, i: nat)
    requires i <= |s| && Solid(s, i) && GetToken(s, i).kind == 'a'
    ensures var t := GetToken(s, i);
            && t.q == i < t.eq && LegalWord(s[i..t.eq]) && White(s[t.eq..t.next]) && Solid(s, t.next) && IsPlain(s[i])
            && (s[t.eq..t.next] == "" ==> NoWord(s, t.next))
  {
    var t := GetToken(s, i);
    PeekAt(s, i, "");
    GapWhite(s, t.eq);
    assert t.next == SkipWhite(s, t.eq);
    forall k | 0 <= k < t.eq - i
      ensures s[i..t.eq][k] !in " \t\r\n\U{0B}" && s[i..t.eq][k] !in "<|>&;()" && s[i..t.eq][k] != '\0'
    {
      assert IsPlain(s[i + k]) && s[i + k] in s;
    }
  }

  /** A symbol, and the white space behind it. */
  lemma SymbolPiece(s: Line, i: nat, c: char)
    requires i < |s| && s[i] == c && c in "|&;()"
    ensures var t := GetToken(s, i); t.q == i && t.eq == i + 1 && White(s[i + 1..t.next]) && Solid(s, t.next)
  {
    GapWhite(s, i + 1);
  }

  lemma ArrowPiece(s: Line, i: nat) returns (a: Arrow)
    requires i < |s| && s[i] in "<>"
    ensures var t := GetToken(s, i);
            && t.q == i && s[i..t.eq] == ArrowString(a) && White(s[t.eq..t.next]) && Solid(s, t.next)
            && (t.kind == '<' <==> a == In)
  {
    var t := GetToken(s, i);
    GapWhite(s, t.eq);
    a := if s[i] == '<' then In else if t.eq == i + 2 then Append else Out;
  }

  lemma PeekIs(s: Line, i: nat, toks: string)
    requires i <= |s| && Solid(s, i)
    ensures SkipWhite(s, i) == i && (Peek(s, i, toks) <==> i < |s| && s[i] in toks)
  {
  }

  // ---------- redirections ----------

  /** The redirections at `i` that parse to `v`, up to `j`. */
  ghost predicate AreRedirs(s: Line, i: nat, v: seq<Redirection<Span>>, j: nat, rs: seq<RedirText>) {
    && i <= j <= |s| && s[i..j] == RedirsString(rs) && Means(s, v, rs)
    && (forall k :: 0 <= k < |rs| ==> LegalRedir(rs[k]))
    && Solid(s, j) && (j < |s| ==> s[j] !in "<>") && (rs != [] && rs[|rs| - 1].after == "" ==> NoWord(s, j))
  }

  lemma {:induction false} RedirsDerive(s: Line, i: nat) returns (rs: seq<RedirText>)
    requires i <= |s| && Solid(s, i) && ParseRedirs(s, i).Ok?
    ensures AreRedirs(s, i, ParseRedirs(s, i).value, ParseRedirs(s, i).pos, rs)
    decreases |s| - i
  {
    hide GetToken, SkipWhite, Peek, Text, AreRedirs, IsRedir;
    PeekIs(s, i, "<>");
    if !Peek(s, i, "<>") {
      rs := [];
      NoRedirs(s, i);
    } else {
      var r, m := RedirDerive(s, i);
      var rest := RedirsDerive(s, m);
      rs := [r] + rest;
      var v := ParseRedirs(s, i).value;
      assert v[1..] == ParseRedirs(s, m).value;
      MoreRedirs(s, i, r, m, v, ParseRedirs(s, i).pos, rest);
    }
  }

  /** One redirection, from `i` to `m`. */
  ghost predicate IsRedir(s: Line, i: nat, r: RedirText, m: nat) {
    && i < m <= |s| && s[i..m] == ArrowString(r.arrow) + (r.gap + (r.file + r.after))
    && LegalRedir(r) && Solid(s, m) && (r.after == "" ==> NoWord(s, m))
  }

  lemma RedirDerive(s: Line, i: nat) returns (r: RedirText, m: nat)
    requires i < |s| && s[i] in "<>" && GetToken(s, GetToken(s, i).next).kind == 'a'
    ensures IsRedir(s, i, r, m) && Solid(s, m)
    ensures var t := GetToken(s, i);
            var u := GetToken(s, t.next);
            m == u.next && Text(s, Span(u.q, u.eq)) == r.file && (t.kind == '<' <==> r.arrow == In)
  {
    hide GetToken, SkipWhite, Peek, White, LegalWord;
    var a := ArrowPiece(s, i);
    var t := GetToken(s, i);
    var u := GetToken(s, t.next);
    WordPiece(s, t.next);
    m := u.next;
    r := RedirText(a, s[t.eq..t.next], s[u.q..u.eq], s[u.eq..u.next]);
    FourPieces(s, i, t.eq, t.next, u.eq, m);
  }

  lemma FourPieces(s: Line, a: nat, b: nat, c: nat, d: nat, e: nat)
    requires a <= b <= c <= d <= e <= |s|
    ensures s[a..e] == s[a..b] + (s[b..c] + (s[c..d] + s[d..e]))
  {
  }

  lemma NoRedirs(s: Line, i: nat)
    requires i <= |s| && Solid(s, i) && (i < |s| ==> s[i] !in "<>")
    ensures AreRedirs(s, i, [], i, [])
  {
  }

  lemma MoreRedirs(s: Line, i: nat, r: RedirText, m: nat, v: seq<Redirection<Span>>, j: nat, rest: seq<RedirText>)
    requires IsRedir(s, i, r, m) && v != [] && AreRedirs(s, m, v[1..], j, rest)
    requires Redirection(Text(s, v[0].file), v[0].mode, v[0].fd) == RedirMeans(r)
    ensures AreRedirs(s, i, v, j, [r] + rest)
  {
    hide Text, RedirMeans, LegalRedir, RedirsString, Means, Solid;
    var rs := [r] + rest;
    assert rs[1..] == rest;
    RedirsUnfold(rs);
    assert s[i..j] == s[i..m] + s[m..j];
    assert s[i..j] == ArrowString(r.arrow) + (r.gap + (r.file + (r.after + s[m..j])));
    FirstMeans(s, v, rs);
    RedirsUnfold(rest);
  }

  // ---------- arguments ----------

  /** The arguments at `i` that parse to `ws` and `v`, up to `j`. */
  ghost predicate AreArgs(s: Line, i: nat, ws: seq<Span>, v: seq<Redirection<Span>>, j: nat, args: seq<ArgText>) {
    && i <= j <= |s| && s[i..j] == ArgsString(args) && LegalArgs(args)
    && Texts(s, ws) == ArgWords(args) && Means(s, v, ArgRedirs(args))
    && Next(s, j, "|)&;") && (args != [] ==> i < |s| && IsPlain(s[i]))
  }

  lemma {:induction false} ArgsDerive(s: Line, i: nat, argv: seq<Span>, rs: seq<Redirection<Span>>)
    returns (ws: seq<Span>, v: seq<Redirection<Span>>, args: seq<ArgText>)
    requires i <= |s| && Solid(s, i) && |argv| < MAXARGS && ParseArgs(s, i, argv, rs).Ok?
    ensures AreArgs(s, i, ws, v, ParseArgs(s, i, argv, rs).pos, args) && |argv| + |args| < MAXARGS
    ensures ParseArgs(s, i, argv, rs).value == Wrap(Exec(argv + ws), rs + v)
    decreases |s| - i
  {
    hide GetToken, SkipWhite, Peek, ParseRedirs, Wrap, AreArgs, AreRedirs, Text, IsPlain;
    PeekIs(s, i, "|)&;");
    var t := GetToken(s, i);
    if Peek(s, i, "|)&;") || t.kind == '\0' {
      ws, v, args := [], [], [];
      ArgsOver(s, i);
      assert argv + ws == argv && rs + v == rs;
    } else {
      WordPiece(s, i);
      var more := ParseRedirs(s, t.next);
      var rd := RedirsDerive(s, t.next);
      RedirsSolid(s, t.next, more.value, more.pos, rd);
      var ws1, v1, args1 := ArgsDerive(s, more.pos, argv + [Span(t.q, t.eq)], rs + more.value);
      ws, v := [Span(t.q, t.eq)] + ws1, more.value + v1;
      assert argv + ws == argv + [Span(t.q, t.eq)] + ws1 && rs + v == rs + more.value + v1;
      args := MoreArgs(s, i, rd, more.value, more.pos, ws1, v1, ParseArgs(s, i, argv, rs).pos, args1);
    }
  }

  lemma RedirsSolid(s: Line, i: nat, v: seq<Redirection<Span>>, j: nat, rs: seq<RedirText>)
    requires AreRedirs(s, i, v, j, rs)
    ensures Solid(s, j)
  {
  }

  /** No argument: the line ends here, or goes on with an operator. */
  lemma ArgsOver(s: Line, i: nat)
    requires i <= |s| && Solid(s, i) && (Peek(s, i, "|)&;") || GetToken(s, i).kind == '\0')
    ensures AreArgs(s, i, [], [], i, []) && SkipWhite(s, i) == i
    ensures GetToken(s, i).kind == '\0' ==> GetToken(s, i).next == i
  {
    PeekIs(s, i, "|)&;");
  }

  lemma MoreArgs(s: Line, i: nat, rd: seq<RedirText>, v0: seq<Redirection<Span>>, m: nat, ws: seq<Span>,
                 v: seq<Redirection<Span>>, j: nat, rest: seq<ArgText>)
    returns (args: seq<ArgText>)
    requires i <= |s| && Solid(s, i) && GetToken(s, i).kind == 'a'
    requires AreRedirs(s, GetToken(s, i).next, v0, m, rd) && AreArgs(s, m, ws, v, j, rest)
    ensures var t := GetToken(s, i); AreArgs(s, i, [Span(t.q, t.eq)] + ws, v0 + v, j, args) && |args| == |rest| + 1
  {
    hide GetToken, SkipWhite, LegalWord, White, RedirsString, ArgsString, ArgWords, ArgRedirs, RedirMeans, LegalRedir,
         IsPlain, LegalArgs, Means, Texts, Text;
    var t := GetToken(s, i);
    WordPiece(s, i);
    var a := ArgText(s[i..t.eq], s[t.eq..t.next], rd);
    args := [a] + rest;
    MoreText(s, i, t.eq, t.next, m, j, a, rest);
    MoreMeans(s, Span(t.q, t.eq), a, v0, ws, v, rest);
    MoreLegal(s, t.next, a, v0, m, rest);
  }

  lemma MoreText(s: Line, i: nat, eq: nat, n: nat, m: nat, j: nat, a: ArgText, rest: seq<ArgText>)
    requires i <= eq <= n <= m <= j <= |s| && a.word == s[i..eq] && a.after == s[eq..n]
    requires s[n..m] == RedirsString(a.rs) && s[m..j] == ArgsString(rest)
    ensures s[i..j] == ArgsString([a] + rest)
  {
    hide RedirsString, ArgsString;
    ArgsUnfold([a] + rest);
    assert ([a] + rest)[1..] == rest;
    FourPieces(s, i, eq, n, m, j);
  }

  lemma MoreMeans(s: Line, w: Span, a: ArgText, v0: seq<Redirection<Span>>, ws: seq<Span>, v: seq<Redirection<Span>>,
                  rest: seq<ArgText>)
    requires w.q <= w.eq <= |s| && a.word == s[w.q..w.eq] && Means(s, v0, a.rs)
    requires Texts(s, ws) == ArgWords(rest) && Means(s, v, ArgRedirs(rest))
    ensures Texts(s, [w] + ws) == ArgWords([a] + rest) && Means(s, v0 + v, ArgRedirs([a] + rest))
  {
    hide ArgWords, ArgRedirs, RedirMeans;
    ArgsUnfold([a] + rest);
    assert ([a] + rest)[1..] == rest;
    assert Texts(s, [w] + ws) == [a.word] + Texts(s, ws);
    BothMean(s, v0, a.rs, v, ArgRedirs(rest));
  }

  /** Where no white space parts two words, they would be one. */
  lemma MoreLegal(s: Line, n: nat, a: ArgText, v0: seq<Redirection<Span>>, m: nat, rest: seq<ArgText>)
    requires LegalWord(a.word) && White(a.after) && (a.after == "" ==> NoWord(s, n)) && AreRedirs(s, n, v0, m, a.rs)
    requires LegalArgs(rest) && (rest != [] ==> m < |s| && IsPlain(s[m]))
    ensures LegalArgs([a] + rest)
  {
    hide LegalWord, White, RedirsString, LegalRedir, IsPlain, LegalArgs, Means;
    var args := [a] + rest;
    assert args[1..] == rest;
    RedirsUnfold(a.rs);
    FirstLegal(args);
  }

  lemma FirstLegal(args: seq<ArgText>)
    requires args != [] && LegalWord(args[0].word) && White(args[0].after) && LegalRedirs(args[0].rs, |args| > 1)
    requires (|args| > 1 && args[0].rs == [] ==> args[0].after != "") && LegalArgs(args[1..])
    ensures LegalArgs(args)
  {
  }

  // ---------- commands ----------

  /** The text from `i` to `j` parses to `c`. */
  ghost predicate IsText(s: Line, i: nat, c: Cmd<Span>, j: nat, text: string, means: Cmd<string>) {
    i <= j <= |s| && s[i..j] == text && Resolve(s, c) == means && Solid(s, j)
  }

  lemma SimpleDerive(s: Line, i: nat) returns (e: ExecText)
    requires i <= |s| && Solid(s, i) && ParseExec(s, i).Ok? && !Peek(s, i, "(")
    ensures LegalExec(e) && IsText(s, i, ParseExec(s, i).value, ParseExec(s, i).pos, ExecString(e), ExecMeans(e))
  {
    hide ParseRedirs, ParseArgs, Peek, SkipWhite, Wrap, Around, RedirsString, ArgsString, RedirMeans, LegalRedir,
         LegalArgs, ArgWords, ArgRedirs, IsPlain, Texts;
    var p := ParseRedirs(s, i);
    var rs := RedirsDerive(s, i);
    var ws, v, args := ArgsDerive(s, p.pos, [], p.value);
    var j := ParseArgs(s, p.pos, [], p.value).pos;
    assert [] + ws == ws;
    e := Simple(rs, args);
    assert s[i..j] == s[i..p.pos] + s[p.pos..j];
    BothMean(s, p.value, rs, v, ArgRedirs(args));
    WrapMeans(s, Exec(ws), p.value + v, rs + ArgRedirs(args));
    NextSolid(s, j);
    RedirsUnfold(rs);
  }

  lemma {:induction false} ExecDerive(s: Line, i: nat) returns (e: ExecText)
    requires i <= |s| && Solid(s, i) && ParseExec(s, i).Ok?
    ensures LegalExec(e) && IsText(s, i, ParseExec(s, i).value, ParseExec(s, i).pos, ExecString(e), ExecMeans(e))
    decreases |s| - i, 2
  {
    hide ParseBlock, ParseRedirs, ParseArgs, Peek, LegalExec, ExecString, ExecMeans, IsText;
    if Peek(s, i, "(") {
      e := BlockDerive(s, i);
    } else {
      e := SimpleDerive(s, i);
    }
  }

  lemma {:induction false} BlockDerive(s: Line, i: nat) returns (e: ExecText)
    requires i <= |s| && Solid(s, i) && ParseBlock(s, i).Ok?
    ensures LegalExec(e) && IsText(s, i, ParseBlock(s, i).value, ParseBlock(s, i).pos, ExecString(e), ExecMeans(e))
    decreases |s| - i, 1
  {
    hide ParseLine, ParseRedirs, Peek, SkipWhite, GetToken, Wrap, Around, RedirsString, LineString, LineMeans, White,
         RedirMeans, LegalRedir, LegalLine, Resolve, Means;
    PeekIs(s, i, "(");
    SymbolPiece(s, i, '(');
    var m := GetToken(s, i).next;
    var p := ParseLine(s, m);
    var line := LineDerive(s, m);
    var q := p.pos;
    PeekIs(s, q, ")");
    SymbolPiece(s, q, ')');
    var n := GetToken(s, q).next;
    var v := ParseRedirs(s, n);
    var rs := RedirsDerive(s, n);
    e := Block(s[i + 1..m], line, s[q + 1..n], rs);
    SixPieces(s, i, m, q, n, v.pos);
    WrapMeans(s, p.value, v.value, rs);
  }

  lemma SixPieces(s: Line, i: nat, m: nat, q: nat, n: nat, j: nat)
    requires i < m <= q < n <= j <= |s| && s[i] == '(' && s[q] == ')'
    ensures s[i..j] == "(" + (s[i + 1..m] + (s[m..q] + (")" + (s[q + 1..n] + s[n..j]))))
  {
    assert s[i..j] == s[i..i + 1] + s[i + 1..j] && s[i..i + 1] == "(";
    assert s[q..j] == s[q..q + 1] + s[q + 1..j] && s[q..q + 1] == ")";
    assert s[i + 1..j] == s[i + 1..m] + s[m..j] && s[m..j] == s[m..q] + s[q..j];
    assert s[q + 1..j] == s[q + 1..n] + s[n..j];
  }

  lemma {:induction false} PipeDerive(s: Line, i: nat) returns (p: PipeText)
    requires i <= |s| && Solid(s, i) && ParsePipe(s, i).Ok?
    ensures LegalPipe(p) && IsText(s, i, ParsePipe(s, i).value, ParsePipe(s, i).pos, PipeString(p), PipeMeans(p))
    decreases |s| - i, 3
  {
    hide ParseExec, Peek, SkipWhite, GetToken, ExecString, ExecMeans, LegalExec, White;
    var a := ParseExec(s, i);
    var e := ExecDerive(s, i);
    PeekIs(s, a.pos, "|");
    if !Peek(s, a.pos, "|") {
      p := One(e);
    } else {
      SymbolPiece(s, a.pos, '|');
      var m := GetToken(s, a.pos).next;
      var rest := PipeDerive(s, m);
      p := Piped(e, s[a.pos + 1..m], rest);
      OpPieces(s, i, a.pos, '|', m, ParsePipe(s, i).pos);
    }
  }

  lemma OpPieces(s: Line, i: nat, q: nat, op: char, m: nat, j: nat)
    requires i <= q < m <= j <= |s| && s[q] == op
    ensures s[i..j] == s[i..q] + ([op] + (s[q + 1..m] + s[m..j]))
  {
    assert s[q..q + 1] == [op];
  }

  lemma {:induction false} AmpsDerive(s: Line, i: nat, c: Cmd<Span>) returns (amps: seq<string>)
    requires i <= |s| && Solid(s, i)
    ensures (forall k :: 0 <= k < |amps| ==> White(amps[k])) && !(Backs(s, i, c).1 < |s| && s[Backs(s, i, c).1] == '&')
    ensures IsText(s, i, Backs(s, i, c).0, Backs(s, i, c).1, AmpsString(amps), Background(Resolve(s, c), |amps|))
    decreases |s| - i
  {
    hide Peek, SkipWhite, GetToken, White, AmpsString;
    PeekIs(s, i, "&");
    if !Peek(s, i, "&") {
      amps := [];
      AmpsUnfold(amps);
    } else {
      SymbolPiece(s, i, '&');
      var m := GetToken(s, i).next;
      var rest := AmpsDerive(s, m, Back(c));
      amps := [s[i + 1..m]] + rest;
      assert amps[1..] == rest;
      AmpsUnfold(amps);
      OpPieces(s, i, i, '&', m, Backs(s, i, c).1);
      BackInside(Resolve(s, c), |rest|);
    }
  }

  lemma {:induction false} LineDerive(s: Line, i: nat) returns (l: LineText)
    requires i <= |s| && Solid(s, i) && ParseLine(s, i).Ok?
    ensures LegalLine(l) && IsText(s, i, ParseLine(s, i).value, ParseLine(s, i).pos, LineString(l), LineMeans(l))
    decreases |s| - i, 4
  {
    hide ParsePipe, Backs, Peek, SkipWhite, GetToken, PipeString, PipeMeans, LegalPipe, White, AmpsString, Background;
    var a := ParsePipe(s, i);
    var p := PipeDerive(s, i);
    var (d, n) := Backs(s, a.pos, a.value);
    var amps := AmpsDerive(s, a.pos, a.value);
    PeekIs(s, n, ";");
    if !Peek(s, n, ";") {
      l := LineText(p, amps, End);
      assert s[i..n] == s[i..a.pos] + (s[a.pos..n] + "");
    } else {
      SymbolPiece(s, n, ';');
      var m := GetToken(s, n).next;
      var line := LineDerive(s, m);
      l := LineText(p, amps, Then(s[n + 1..m], line));
      OpPieces(s, a.pos, n, ';', m, ParseLine(s, i).pos);
      assert s[i..ParseLine(s, i).pos] == s[i..a.pos] + s[a.pos..ParseLine(s, i).pos];
    }
  }

  /** A line that is accepted is white space and the text of a legal derivation. */
  lemma Derives(s: Line) returns (g: string, l: LineText)
    requires ParseCmd(s).Ok?
    ensures White(g) && LegalLine(l) && s == g + LineString(l) && Resolve(s, ParseCmd(s).value) == LineMeans(l)
  {
    hide ParseLine, LineString, LineMeans, LegalLine, Resolve;
    var i := SkipWhite(s, 0);
    GapWhite(s, 0);
    LineSkips(s, 0);
    l := LineDerive(s, i);
    var p := ParseLine(s, i);
    PeekIs(s, p.pos, "");
    g := s[0..i];
    assert s == s[0..i] + s[i..];
  }

  /** The line is white space and the text of a legal derivation that means `t`. */
  ghost predicate Says(s: string, t: Cmd<string>, g: string, l: LineText) {
    White(g) && LegalLine(l) && s == g + LineString(l) && LineMeans(l) == t
  }

  /**
   The parser accepts exactly the lines of the grammar, and returns for each the one command that its
   derivations mean.
   */
  lemma Language(s: Line, t: Cmd<string>)
    ensures ParseCmd(s).Ok? && Resolve(s, ParseCmd(s).value) == t <==> exists g, l :: Says(s, t, g, l)
  {
    hide ParseCmd, LineString, LineMeans, LegalLine, Resolve, White;
    if ParseCmd(s).Ok? {
      var g, l := Derives(s);
      assert Says(s, LineMeans(l), g, l);
    }
    if exists g, l :: Says(s, t, g, l) {
      var g, l :| Says(s, t, g, l);
      Accepts(g, l);
    }
  }
}
