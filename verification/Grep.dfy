/**
 The regular-expression matcher of grep.c against a denotational semantics.

 A pattern or a text is the characters before its terminating NUL.
 */
module Grep {

  datatype Atom = Any | Lit(c: char) {
    predicate Accepts(x: char) {
      Any? || c == x
    }
  }

  datatype Item = One(atom: Atom) | Star(atom: Atom)

  /** What a pattern without its leading ^ means: items in order, and whether $ ends it. */
  datatype Pattern = Pattern(items: seq<Item>, atEnd: bool)

  function AtomOf(c: char): Atom {
    if c == '.' then Any else Lit(c)
  }

  /** The grammar: a star binds to the character before it, and $ is special only at the end. */
  function Parse(re: string): (p: Pattern) {
    if re == "" then Pattern([], false)
    else if |re| >= 2 && re[1] == '*' then
      var p := Parse(re[2..]);
      Pattern([Star(AtomOf(re[0]))] + p.items, p.atEnd)
    else if re == "$" then Pattern([], true)
    else
      var p := Parse(re[1..]);
      Pattern([One(AtomOf(re[0]))] + p.items, p.atEnd)
  }

  /** The text `s` is in the language of the items: one piece of it for each, in order. */
  ghost predicate Lang(items: seq<Item>, s: string) {
    if items == [] then s == ""
    else match items[0]
      case One(a) => s != "" && a.Accepts(s[0]) && Lang(items[1..], s[1..])
      case Star(a) =>
        exists k :: 0 <= k <= |s| && AllAccepted(a, s[..k]) && Lang(items[1..], s[k..])
  }

  ghost predicate AllAccepted(a: Atom, s: string) {
    forall i :: 0 <= i < |s| ==> a.Accepts(s[i])
  }

  /** The first `k` characters of `s` match the pattern; at its end, if it says so. */
  ghost predicate Prefix(p: Pattern, s: string, k: int) {
    0 <= k <= |s| && Lang(p.items, s[..k]) && (p.atEnd ==> k == |s|)
  }

  ghost predicate Here(p: Pattern, s: string) {
    exists k :: Prefix(p, s, k)
  }

  /** What grep promises: some part of the text, at its start after ^, matches. */
  ghost predicate Matches(re: string, text: string) {
    if re != "" && re[0] == '^' then Here(Parse(re[1..]), text)
    else exists i :: 0 <= i <= |text| && Here(Parse(re), text[i..])
  }

  lemma OneStep(a: Atom, p: Pattern, s: string)
    ensures Here(Pattern([One(a)] + p.items, p.atEnd), s)
       <==> s != "" && a.Accepts(s[0]) && Here(p, s[1..])
  {
    var q := Pattern([One(a)] + p.items, p.atEnd);
    assert q.items[1..] == p.items;
    if Here(q, s) {
      var k :| Prefix(q, s, k);
      assert s[..k][1..] == s[1..][..k - 1];
      assert Prefix(p, s[1..], k - 1);
    }
    if s != "" && a.Accepts(s[0]) && Here(p, s[1..]) {
      var k :| Prefix(p, s[1..], k);
      assert s[..k + 1][1..] == s[1..][..k];
      assert Prefix(q, s, k + 1);
    }
  }

  /** A starred atom followed by `p`: some run of accepted characters, then `p`. */
  ghost predicate StarHere(a: Atom, p: Pattern, s: string) {
    exists j :: 0 <= j <= |s| && AllAccepted(a, s[..j]) && Here(p, s[j..])
  }

  lemma StarStep(a: Atom, p: Pattern, s: string)
    ensures Here(Pattern([Star(a)] + p.items, p.atEnd), s) <==> StarHere(a, p, s)
  {
    var q := Pattern([Star(a)] + p.items, p.atEnd);
    assert q.items[1..] == p.items;
    if Here(q, s) {
      var k :| Prefix(q, s, k);
      var j :| 0 <= j <= |s[..k]| && AllAccepted(a, s[..k][..j]) && Lang(p.items, s[..k][j..]);
      assert s[..k][..j] == s[..j] && s[..k][j..] == s[j..][..k - j];
      assert Prefix(p, s[j..], k - j);
    }
    if StarHere(a, p, s) {
      var j :| 0 <= j <= |s| && AllAccepted(a, s[..j]) && Here(p, s[j..]);
      var m :| Prefix(p, s[j..], m);
      assert s[..j + m][..j] == s[..j] && s[..j + m][j..] == s[j..][..m];
      assert Lang(q.items, s[..j + m]);
      assert Prefix(q, s, j + m);
    }
  }

  lemma EmptyMatches(s: string)
    ensures Here(Pattern([], false), s)
    ensures Here(Pattern([], true), s) <==> s == ""
  {
    assert Prefix(Pattern([], false), s, 0);
    if s == "" {
      assert Prefix(Pattern([], true), s, 0);
    }
  }

  /** match: the pattern at every position of the text, the empty rest included, or at the start after ^. */
  method Match(re: string, text: string) returns (found: bool)
    ensures found <==> Matches(re, text)
  {
    if re != "" && re[0] == '^' {
      found := MatchHere(re[1..], text);
      return;
    }
    var i := 0;
    found := MatchHere(re, text[i..]);
    while !found && i < |text|
      invariant 0 <= i <= |text|
      invariant found <==> Here(Parse(re), text[i..])
      invariant forall j :: 0 <= j < i ==> !Here(Parse(re), text[j..])
      decreases |text| - i, !found
    {
      i := i + 1;
      found := MatchHere(re, text[i..]);
    }
  }

  /** matchhere: the pattern at the beginning of the text. */
  method MatchHere(re: string, text: string) returns (found: bool)
    ensures found <==> Here(Parse(re), text)
    decreases |re|, 1
  {
    EmptyMatches(text);
    if re == "" {
      return true;
    }
    if |re| >= 2 && re[1] == '*' {
      StarStep(AtomOf(re[0]), Parse(re[2..]), text);
      found := MatchStar(re[0], re[2..], text);
      return;
    }
    if re[0] == '$' && |re| == 1 {
      assert re == "$";
      return text == "";
    }
    OneStep(AtomOf(re[0]), Parse(re[1..]), text);
    if text != "" && (re[0] == '.' || re[0] == text[0]) {
      found := MatchHere(re[1..], text[1..]);
      return;
    }
    return false;
  }

  /** matchstar: any number of characters that `c` accepts, then the pattern. */
  method MatchStar(c: char, re: string, text: string) returns (found: bool)
    ensures found <==> StarHere(AtomOf(c), Parse(re), text)
    decreases |re|, 2
  {
    var a, p := AtomOf(c), Parse(re);
    var i := 0;
    found := MatchHere(re, text[i..]);
    while !found && i < |text| && (text[i] == c || c == '.')
      invariant 0 <= i <= |text| && AllAccepted(a, text[..i])
      invariant found <==> Here(p, text[i..])
      invariant forall j :: 0 <= j < i ==> !Here(p, text[j..])
      decreases |text| - i, !found
    {
      i := i + 1;
      found := MatchHere(re, text[i..]);
    }
    if !found {
      forall j | i < j <= |text| ensures !AllAccepted(a, text[..j]) {
        assert text[..j][i] == text[i];
      }
    }
  }
}
