/**
 What parsing does with the words of a line (sh.c): the tree of a parsed line holds
 exactly the words of the line, each of them whole.
 */
module ShellWords {
  import opened ShellSyntax

  /** The words that a command's tree refers to. */
  function Words(c: Cmd<Span>): set<Span> {
    match c
    case Exec(argv) => set w | w in argv
    case Redir(d, r) => Words(d) + {r.file}
    case Pipe(l, r) => Words(l) + Words(r)
    case List(l, r) => Words(l) + Words(r)
    case Back(d) => Words(d)
  }

  function Files(rs: seq<Redirection<Span>>): set<Span> {
    set r | r in rs :: r.file
  }

  lemma {:induction false} WrapWords(c: Cmd<Span>, rs: seq<Redirection<Span>>)
    ensures Words(Wrap(c, rs)) == Words(c) + Files(rs)
    decreases |rs|
  {
    if rs != [] {
      WrapWords(Redir(c, rs[0]), rs[1..]);
      assert rs == [rs[0]] + rs[1..];
    }
  }

  /** The words of the line from position `i` on. */
  function WordsFrom(s: Line, i: nat): (ws: set<Span>)
    requires i <= |s|
    decreases |s| - i
  {
    var t := GetToken(s, i);
    if t.kind == '\0' then {}
    else WordsFrom(s, t.next) + if t.kind == 'a' then {Span(t.q, t.eq)} else {}
  }

  lemma {:induction false} WordsAreWhole(s: Line, i: nat)
    requires i <= |s|
    ensures forall w :: w in WordsFrom(s, i) ==> WordAt(s, w)
    decreases |s| - i
  {
    var t := GetToken(s, i);
    if t.kind != '\0' {
      WordsAreWhole(s, t.next);
    }
  }

  lemma {:induction false} SkipTwice(s: Line, i: nat)
    requires i <= |s|
    ensures SkipWhite(s, SkipWhite(s, i)) == SkipWhite(s, i)
    ensures GetToken(s, SkipWhite(s, i)) == GetToken(s, i)
    ensures WordsFrom(s, SkipWhite(s, i)) == WordsFrom(s, i)
  {
  }

  lemma PeekToken(s: Line, i: nat, toks: string)
    requires i <= |s| && Peek(s, i, toks) && forall c :: c in toks ==> IsSymbol(c)
    ensures GetToken(s, i).kind != '\0' && GetToken(s, i).kind != 'a'
    ensures WordsFrom(s, GetToken(s, i).next) == WordsFrom(s, i)
  {
  }

  lemma {:induction false} RedirsWords(s: Line, i: nat)
    requires i <= |s|
    ensures ParseRedirs(s, i).Ok? ==>
              WordsFrom(s, i) == Files(ParseRedirs(s, i).value) + WordsFrom(s, ParseRedirs(s, i).pos)
    decreases |s| - i
  {
    if !Peek(s, i, "<>") {
      SkipTwice(s, i);
    } else {
      PeekToken(s, i, "<>");
      var u := GetToken(s, GetToken(s, i).next);
      if u.kind == 'a' && ParseRedirs(s, u.next).Ok? {
        RedirsWords(s, u.next);
        var rs := ParseRedirs(s, i).value;
        assert rs == [rs[0]] + ParseRedirs(s, u.next).value;
      }
    }
  }

  lemma {:induction false} ArgsWords(s: Line, i: nat, argv: seq<Span>, rs: seq<Redirection<Span>>)
    requires i <= |s| && ParseArgs(s, i, argv, rs).Ok?
    ensures var r := ParseArgs(s, i, argv, rs);
            WordsFrom(s, i) + Words(Exec(argv)) + Files(rs) == Words(r.value) + WordsFrom(s, r.pos)
    decreases |s| - i
  {
    hide GetToken, SkipWhite, Peek, ParseRedirs, WordAt;
    SkipTwice(s, i);
    WrapWords(Exec(argv), rs);
    if !Peek(s, i, "|)&;") {
      var t := GetToken(s, i);
      if t.kind != '\0' {
        RedirsWords(s, t.next);
        var p := ParseRedirs(s, t.next);
        ArgsWords(s, p.pos, argv + [Span(t.q, t.eq)], rs + p.value);
        assert Files(rs + p.value) == Files(rs) + Files(p.value);
      }
    }
  }

  lemma {:induction false} ExecWords(s: Line, i: nat)
    requires i <= |s| && ParseExec(s, i).Ok?
    ensures WordsFrom(s, i) == Words(ParseExec(s, i).value) + WordsFrom(s, ParseExec(s, i).pos)
    decreases |s| - i, 2
  {
    if Peek(s, i, "(") {
      BlockWords(s, i);
    } else {
      RedirsWords(s, i);
      var p := ParseRedirs(s, i);
      ArgsWords(s, p.pos, [], p.value);
    }
  }

  lemma {:induction false} BlockWords(s: Line, i: nat)
    requires i <= |s| && ParseBlock(s, i).Ok?
    ensures WordsFrom(s, i) == Words(ParseBlock(s, i).value) + WordsFrom(s, ParseBlock(s, i).pos)
    decreases |s| - i, 1
  {
    PeekToken(s, i, "(");
    LineWords(s, GetToken(s, i).next);
    var l := ParseLine(s, GetToken(s, i).next);
    PeekToken(s, l.pos, ")");
    RedirsWords(s, GetToken(s, l.pos).next);
    WrapWords(l.value, ParseRedirs(s, GetToken(s, l.pos).next).value);
  }

  lemma {:induction false} PipeWords(s: Line, i: nat)
    requires i <= |s| && ParsePipe(s, i).Ok?
    ensures WordsFrom(s, i) == Words(ParsePipe(s, i).value) + WordsFrom(s, ParsePipe(s, i).pos)
    decreases |s| - i, 3
  {
    hide WordsFrom, GetToken, SkipWhite, Peek, ParseExec;
    ExecWords(s, i);
    var p := ParseExec(s, i);
    if Peek(s, p.pos, "|") {
      PeekToken(s, p.pos, "|");
      PipeWords(s, GetToken(s, p.pos).next);
    } else {
      SkipTwice(s, p.pos);
    }
  }

  lemma {:induction false} BacksWords(s: Line, i: nat, c: Cmd<Span>)
    requires i <= |s|
    ensures Words(Backs(s, i, c).0) == Words(c) && WordsFrom(s, Backs(s, i, c).1) == WordsFrom(s, i)
    decreases |s| - i
  {
    if Peek(s, i, "&") {
      PeekToken(s, i, "&");
      BacksWords(s, GetToken(s, i).next, Back(c));
    } else {
      SkipTwice(s, i);
    }
  }

  lemma {:induction false} LineWords(s: Line, i: nat)
    requires i <= |s| && ParseLine(s, i).Ok?
    ensures WordsFrom(s, i) == Words(ParseLine(s, i).value) + WordsFrom(s, ParseLine(s, i).pos)
    decreases |s| - i, 4
  {
    hide WordsFrom, GetToken, SkipWhite, Peek, ParsePipe, Backs;
    PipeWords(s, i);
    var p := ParsePipe(s, i);
    BacksWords(s, p.pos, p.value);
    var (d, end) := Backs(s, p.pos, p.value);
    if Peek(s, end, ";") {
      PeekToken(s, end, ";");
      LineWords(s, GetToken(s, end).next);
    }
  }

  /** A parsed line's tree refers to every word of the line and to nothing else. */
  lemma ParseKeepsWords(s: Line)
    requires ParseCmd(s).Ok?
    ensures Words(ParseCmd(s).value) == WordsFrom(s, 0)
    ensures forall w :: w in Words(ParseCmd(s).value) ==> WordAt(s, w)
  {
    LineWords(s, 0);
    SkipTwice(s, ParseLine(s, 0).pos);
    WordsAreWhole(s, 0);
  }
}
