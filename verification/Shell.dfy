/**
 The shell's parser as it runs (sh.c): a cursor that moves along the line, and
 nulterminate, which writes NULs into the line's own buffer.
 */
module Shell {
  import opened ShellSyntax
  import opened ShellWords

  class Parser {
    const s: Line
    var ps: nat

    ghost predicate Valid()
      reads this
    {
      ps <= |s|
    }

    constructor (s: Line)
      ensures Valid() && this.s == s && ps == 0
    {
      this.s, ps := s, 0;
    }

    method SkipSpaces()
      requires Valid()
      modifies this
      ensures Valid() && ps == SkipWhite(s, old(ps))
    {
      while ps < |s| && IsWhite(s[ps])
        invariant ps <= |s| && SkipWhite(s, ps) == SkipWhite(s, old(ps))
      {
        ps := ps + 1;
      }
    }

    method Gettoken() returns (t: Token)
      requires Valid()
      modifies this
      ensures Valid() && t == GetToken(s, old(ps)) && ps == t.next
    {
      SkipSpaces();
      var q := ps;
      var kind := '\0';
      if ps < |s| {
        kind := s[ps];
        if kind == '>' {
          ps := ps + 1;
          if ps < |s| && s[ps] == '>' {
            kind := '+';
            ps := ps + 1;
          }
        } else if IsSymbol(kind) {
          ps := ps + 1;
        } else {
          kind := 'a';
          while ps < |s| && IsPlain(s[ps])
            invariant q <= ps <= |s| && SkipPlain(s, ps) == SkipPlain(s, q)
          {
            ps := ps + 1;
          }
        }
      }
      var eq := ps;
      SkipSpaces();
      t := Token(kind, q, eq, ps);
    }

    method PeekFor(toks: string) returns (b: bool)
      requires Valid()
      modifies this
      ensures Valid() && b == Peek(s, old(ps), toks) && ps == SkipWhite(s, old(ps))
    {
      SkipSpaces();
      b := ps < |s| && s[ps] in toks;
    }

    /** parseredirs. */
    method Redirections() returns (r: Parsed<seq<Redirection<Span>>>)
      requires Valid()
      modifies this
      ensures Valid() && r == ParseRedirs(s, old(ps)) && (r.Ok? ==> ps == r.pos)
      decreases |s| - ps, 0
    {
      var acc: seq<Redirection<Span>> := [];
      var more := PeekFor("<>");
      SkipTwice(s, old(ps));
      assert Prepend([], ParseRedirs(s, ps)) == ParseRedirs(s, old(ps)) by { SameRedirs(s, old(ps)); }
      while more
        invariant ps <= |s| && SkipWhite(s, ps) == ps && more == Peek(s, ps, "<>")
        invariant ParseRedirs(s, old(ps)) == Prepend(acc, ParseRedirs(s, ps))
        decreases |s| - ps, more
      {
        ghost var at := ps;
        var t := Gettoken();
        var u := Gettoken();
        if u.kind != 'a' {
          return Err(MissingFile);
        }
        var rd := if t.kind == '<' then Redirection(Span(u.q, u.eq), O_RDONLY, 0)
                  else Redirection(Span(u.q, u.eq), O_WRONLY + O_CREATE, 1);
        PrependStep(s, at, acc, rd);
        acc := acc + [rd];
        ghost var here := ps;
        more := PeekFor("<>");
        SkipTwice(s, here);
        SameRedirs(s, here);
      }
      r := Ok(acc, ps);
      assert acc + [] == acc;
    }

    /** parseexec's loop over arguments and redirections. */
    method Arguments(rs0: seq<Redirection<Span>>) returns (r: Parsed<Cmd<Span>>)
      requires Valid()
      modifies this
      ensures Valid() && r == ParseArgs(s, old(ps), [], rs0) && (r.Ok? ==> ps == r.pos)
      decreases |s| - ps, 1
    {
      hide GetToken, SkipWhite, Peek, ParseRedirs, Wrap;
      var argv: seq<Span>, rs := [], rs0;
      while true
        invariant ps <= |s| && |argv| < MAXARGS
        invariant ParseArgs(s, old(ps), [], rs0) == ParseArgs(s, ps, argv, rs)
        decreases |s| - ps
      {
        ghost var at := ps;
        SkipTwice(s, at);
        var stop := PeekFor("|)&;");
        if stop {
          return Ok(Wrap(Exec(argv), rs), ps);
        }
        var t := Gettoken();
        if t.kind == '\0' {
          return Ok(Wrap(Exec(argv), rs), ps);
        }
        if t.kind != 'a' {
          return Err(Syntax);
        }
        if |argv| + 1 >= MAXARGS {
          return Err(TooManyArgs);
        }
        var more := Redirections();
        if more.Err? {
          return Err(more.error);
        }
        argv := argv + [Span(t.q, t.eq)];
        rs := rs + more.value;
      }
    }

    /** parseexec. */
    method ExecCommand() returns (r: Parsed<Cmd<Span>>)
      requires Valid()
      modifies this
      ensures Valid() && r == ParseExec(s, old(ps)) && (r.Ok? ==> ps == r.pos)
      decreases |s| - ps, 3
    {
      hide GetToken, SkipWhite, Peek, ParseRedirs, ParseArgs, ParseBlock;
      SkipTwice(s, ps);
      SameRedirs(s, ps);
      SameBlock(s, ps);
      var open := PeekFor("(");
      if open {
        r := BlockCommand();
        return;
      }
      var rs := Redirections();
      if rs.Err? {
        return Err(rs.error);
      }
      r := Arguments(rs.value);
    }

    /** parseblock. */
    method BlockCommand() returns (r: Parsed<Cmd<Span>>)
      requires Valid()
      modifies this
      ensures Valid() && r == ParseBlock(s, old(ps)) && (r.Ok? ==> ps == r.pos)
      decreases |s| - ps, 2
    {
      hide GetToken, SkipWhite, Peek, ParseRedirs, ParseLine;
      SkipTwice(s, ps);
      var open := PeekFor("(");
      if !open {
        return Err(NoBlock);
      }
      SymbolAhead(s, old(ps), "(");
      var t := Gettoken();
      var line := LineCommand();
      if line.Err? {
        return Err(line.error);
      }
      ghost var at := ps;
      SkipTwice(s, at);
      var close := PeekFor(")");
      if !close {
        return Err(MissingParen);
      }
      t := Gettoken();
      var rs := Redirections();
      if rs.Err? {
        return Err(rs.error);
      }
      r := Ok(Wrap(line.value, rs.value), ps);
    }

    /** parsepipe. */
    method PipeCommand() returns (r: Parsed<Cmd<Span>>)
      requires Valid()
      modifies this
      ensures Valid() && r == ParsePipe(s, old(ps)) && (r.Ok? ==> ps == r.pos)
      decreases |s| - ps, 4
    {
      hide GetToken, SkipWhite, Peek, ParseExec;
      var left := ExecCommand();
      if left.Err? {
        return Err(left.error);
      }
      ghost var at := ps;
      SkipTwice(s, at);
      var more := PeekFor("|");
      if !more {
        return Ok(left.value, ps);
      }
      SymbolAhead(s, at, "|");
      var t := Gettoken();
      var right := PipeCommand();
      if right.Err? {
        return Err(right.error);
      }
      r := Ok(Pipe(left.value, right.value), ps);
    }

    /** parseline's loop over &. */
    method Background(c: Cmd<Span>) returns (d: Cmd<Span>)
      requires Valid()
      modifies this
      ensures Valid() && (d, ps) == Backs(s, old(ps), c)
    {
      hide GetToken, SkipWhite, Peek;
      d := c;
      ghost var at := ps;
      SkipTwice(s, at);
      var more := PeekFor("&");
      while more
        invariant at <= |s| && ps == SkipWhite(s, at) && ps <= |s| && more == Peek(s, at, "&")
        invariant GetToken(s, ps) == GetToken(s, at)
        invariant Backs(s, old(ps), c) == Backs(s, at, d)
        decreases |s| - at
      {
        SymbolAhead(s, at, "&");
        var t := Gettoken();
        d := Back(d);
        at := ps;
        SkipTwice(s, at);
        more := PeekFor("&");
      }
    }

    /** parseline. */
    method LineCommand() returns (r: Parsed<Cmd<Span>>)
      requires Valid()
      modifies this
      ensures Valid() && r == ParseLine(s, old(ps)) && (r.Ok? ==> ps == r.pos)
      decreases |s| - ps, 5
    {
      hide GetToken, SkipWhite, Peek, ParsePipe, Backs;
      var left := PipeCommand();
      if left.Err? {
        return Err(left.error);
      }
      BacksSkipped(s, ps, left.value);
      var c := Background(left.value);
      ghost var at := ps;
      SkipTwice(s, at);
      var more := PeekFor(";");
      if !more {
        return Ok(c, ps);
      }
      SymbolAhead(s, at, ";");
      var t := Gettoken();
      var right := LineCommand();
      if right.Err? {
        return Err(right.error);
      }
      r := Ok(List(c, right.value), ps);
    }

    /** parsecmd up to nulterminate. */
    method Command() returns (r: Parsed<Cmd<Span>>)
      requires ps == 0
      modifies this
      ensures Valid() && r == ParseCmd(s)
    {
      hide ParseLine, SkipWhite;
      var line := LineCommand();
      if line.Err? {
        return Err(line.error);
      }
      var b := PeekFor("");
      if ps != |s| {
        return Err(Leftovers);
      }
      r := Ok(line.value, ps);
    }
  }

  lemma SymbolAhead(s: Line, i: nat, toks: string)
    requires i <= |s| && Peek(s, i, toks)
    ensures GetToken(s, i).next > i && GetToken(s, i).next <= |s|
  {
  }

  lemma SameBlock(s: Line, i: nat)
    requires i <= |s|
    ensures ParseBlock(s, SkipWhite(s, i)) == ParseBlock(s, i)
    ensures forall toks :: Peek(s, SkipWhite(s, i), toks) == Peek(s, i, toks)
  {
    SkipTwice(s, i);
  }

  lemma {:induction false} BacksSkipped(s: Line, i: nat, c: Cmd<Span>)
    requires i <= |s|
    ensures SkipWhite(s, Backs(s, i, c).1) == Backs(s, i, c).1
    decreases |s| - i
  {
    if Peek(s, i, "&") {
      SymbolAhead(s, i, "&");
      BacksSkipped(s, GetToken(s, i).next, Back(c));
    } else {
      SkipTwice(s, i);
    }
  }

  function Prepend(acc: seq<Redirection<Span>>, r: Parsed<seq<Redirection<Span>>>): Parsed<seq<Redirection<Span>>> {
    match r
    case Err(e) => Err(e)
    case Ok(rs, pos) => Ok(acc + rs, pos)
  }

  lemma SameRedirs(s: Line, i: nat)
    requires i <= |s|
    ensures ParseRedirs(s, SkipWhite(s, i)) == ParseRedirs(s, i)
    ensures Prepend([], ParseRedirs(s, i)) == ParseRedirs(s, i)
  {
    SkipTwice(s, i);
    match ParseRedirs(s, i)
    case Err(e) =>
    case Ok(rs, pos) => assert [] + rs == rs;
  }

  lemma PrependStep(s: Line, i: nat, acc: seq<Redirection<Span>>, rd: Redirection<Span>)
    requires i <= |s| && Peek(s, i, "<>")
    requires var t := GetToken(s, i);
             var u := GetToken(s, t.next);
             u.kind == 'a' && rd == if t.kind == '<' then Redirection(Span(u.q, u.eq), O_RDONLY, 0)
                                    else Redirection(Span(u.q, u.eq), O_WRONLY + O_CREATE, 1)
    ensures Prepend(acc, ParseRedirs(s, i))
         == Prepend(acc + [rd], ParseRedirs(s, GetToken(s, GetToken(s, i).next).next))
  {
    match ParseRedirs(s, GetToken(s, GetToken(s, i).next).next)
    case Err(e) =>
    case Ok(rs, pos) => assert acc + ([rd] + rs) == acc + [rd] + rs;
  }

  // ---------- nulterminate ----------

  /** The positions that nulterminate writes. */
  function Ends(c: Cmd<Span>): set<nat> {
    set w | w in Words(c) :: w.eq
  }

  function Terminated(t: string, ends: set<nat>): (r: string)
    ensures |r| == |t| && forall k :: 0 <= k < |t| ==> r[k] == if k in ends then '\0' else t[k]
  {
    seq(|t|, k requires 0 <= k < |t| => if k in ends then '\0' else t[k])
  }

  lemma TerminatedTwice(t: string, a: set<nat>, b: set<nat>)
    ensures Terminated(Terminated(t, a), b) == Terminated(t, a + b)
  {
  }

  /** nulterminate: a NUL at the end of every word of the command, and nowhere else. */
  method NulTerminate(c: Cmd<Span>, buf: array<char>)
    requires forall w :: w in Words(c) ==> w.eq < buf.Length
    modifies buf
    ensures buf[..] == Terminated(old(buf[..]), Ends(c))
    decreases c
  {
    ghost var t := buf[..];
    match c
    case Exec(argv) =>
      for i := 0 to |argv|
        invariant buf[..] == Terminated(t, Ends(Exec(argv[..i])))
      {
        assert argv[i] in Words(c);
        buf[argv[i].eq] := '\0';
        assert argv[..i + 1] == argv[..i] + [argv[i]];
        ArgEnds(argv[..i], argv[i]);
      }
      assert argv[..|argv|] == argv;
    case Redir(d, r) =>
      NulTerminate(d, buf);
      assert r.file in Words(c);
      buf[r.file.eq] := '\0';
      UnionEnds(c, d, {r.file});
    case Pipe(l, r) =>
      NulTerminate(l, buf);
      NulTerminate(r, buf);
      TerminatedTwice(t, Ends(l), Ends(r));
      UnionEnds(c, l, Words(r));
    case List(l, r) =>
      NulTerminate(l, buf);
      NulTerminate(r, buf);
      TerminatedTwice(t, Ends(l), Ends(r));
      UnionEnds(c, l, Words(r));
    case Back(d) =>
      NulTerminate(d, buf);
  }

  lemma ArgEnds(argv: seq<Span>, w: Span)
    ensures Ends(Exec(argv + [w])) == Ends(Exec(argv)) + {w.eq}
  {
    assert Words(Exec(argv + [w])) == Words(Exec(argv)) + {w};
    UnionEnds(Exec(argv + [w]), Exec(argv), {w});
  }

  lemma UnionEnds(c: Cmd<Span>, d: Cmd<Span>, ws: set<Span>)
    requires Words(c) == Words(d) + ws
    ensures Ends(c) == Ends(d) + set w | w in ws :: w.eq
  {
  }

  /** The C string at position `i`: the characters up to the first NUL. */
  function CString(t: string, i: nat): string
    decreases |t| - i
  {
    if i < |t| && t[i] != '\0' then [t[i]] + CString(t, i + 1) else ""
  }

  lemma {:induction false} StringUpTo(t: string, i: nat, j: nat)
    requires i <= j < |t| && t[j] == '\0' && forall k :: i <= k < j ==> t[k] != '\0'
    ensures CString(t, i) == t[i..j]
    decreases j - i
  {
    if i < j {
      StringUpTo(t, i + 1, j);
      assert t[i..j] == [t[i]] + t[i + 1..j];
    }
  }

  /**
   After nulterminate every word of a parsed line reads as exactly its token, because the
   end of no word lies inside another.
   */
  lemma WordsSurvive(s: Line, w: Span)
    requires ParseCmd(s).Ok? && w in Words(ParseCmd(s).value)
    ensures w.q < w.eq <= |s|
    ensures CString(Terminated(s + ['\0'], Ends(ParseCmd(s).value)), w.q) == s[w.q..w.eq]
  {
    hide ParseCmd, Words;
    ParseKeepsWords(s);
    var c := ParseCmd(s).value;
    var t := Terminated(s + ['\0'], Ends(c));
    assert w.eq in Ends(c);
    forall k | w.q <= k < w.eq ensures k !in Ends(c) && t[k] == s[k] && t[k] != '\0' {
      assert forall v :: v in Words(c) ==> WordAt(s, v);
      assert IsPlain(s[k]);
    }
    StringUpTo(t, w.q, w.eq);
    assert t[w.q..w.eq] == s[w.q..w.eq];
  }

  /** parsecmd on the line's own buffer. */
  method ParseBuffer(s: Line, buf: array<char>) returns (r: Parsed<Cmd<Span>>)
    requires buf[..] == s + ['\0']
    modifies buf
    ensures r == ParseCmd(s)
    ensures r.Ok? ==> forall w :: w in Words(r.value) ==> w.q <= w.eq <= |s| && CString(buf[..], w.q) == s[w.q..w.eq]
    ensures r.Err? ==> buf[..] == old(buf[..])
  {
    var p := new Parser(s);
    r := p.Command();
    if r.Ok? {
      ParseKeepsWords(s);
      NulTerminate(r.value, buf);
      forall w | w in Words(r.value) ensures w.q <= w.eq <= |s| && CString(buf[..], w.q) == s[w.q..w.eq] {
        WordsSurvive(s, w);
      }
    }
  }
}
