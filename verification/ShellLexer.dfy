/**
  The lexical level of xv6/sh.c: `gettoken` and `peek` over a line, and the proof that the tokens of a
  rendered token list are that list.
 */
module ShellLexer {
  import opened ShellGrammar

  const NUL: char := '\0'

  /** A member of `whitespace[]`: blank, tab, return, newline, vertical tab. */
  predicate IsSpace(c: char) {
    c == ' ' || c == '\t' || c == '\r' || c == '\n' || c == 11 as char
  }

  /** A member of `symbols[]`. */
  predicate IsSymbol(c: char) {
    c == '<' || c == '|' || c == '>' || c == '&' || c == ';' || c == '(' || c == ')'
  }

  predicate IsWordChar(c: char) {
    !IsSpace(c) && !IsSymbol(c) && c != NUL
  }

  // ---------------------------------------------------------------- tokens of a line

  function SpaceLen(u: string): (n: nat)
    ensures n <= |u|
    ensures forall i :: 0 <= i < n ==> IsSpace(u[i])
    ensures n < |u| ==> !IsSpace(u[n])
  {
    if u != "" && IsSpace(u[0]) then 1 + SpaceLen(u[1..]) else 0
  }

  function WordLen(u: string): (n: nat)
    ensures n <= |u|
    ensures forall i :: 0 <= i < n ==> IsWordChar(u[i])
    ensures n < |u| ==> !IsWordChar(u[n])
  {
    if u != "" && IsWordChar(u[0]) then 1 + WordLen(u[1..]) else 0
  }

  /** No NUL inside: a C string's contents. */
  predicate Clean(u: string) {
    forall i :: 0 <= i < |u| ==> u[i] != NUL
  }

  /** The first token of a string with no leading space, and its length. */
  function First(v: string): (r: (Token, nat))
    requires v != "" && !IsSpace(v[0]) && v[0] != NUL
    ensures 1 <= r.1 <= |v|
  {
    if v[0] == '>' then
      if |v| > 1 && v[1] == '>' then (Append, 2) else (Sym('>'), 1)
    else if IsSymbol(v[0]) then (Sym(v[0]), 1)
    else (Word(v[..WordLen(v)]), WordLen(v))
  }

  function Lex(u: string): seq<Token>
    requires Clean(u)
    decreases |u|
  {
    var v := u[SpaceLen(u)..];
    if v == "" then [] else [First(v).0] + Lex(v[First(v).1..])
  }

  lemma {:induction false} SpaceLenOfSkipped(u: string, k: nat)
    requires k <= SpaceLen(u)
    ensures SpaceLen(u[k..]) == SpaceLen(u) - k
    decreases k
  {
    if k == 0 {
      assert u[0..] == u;
    } else {
      SpaceLenOfSkipped(u[1..], k - 1);
      assert u[1..][k - 1..] == u[k..];
    }
  }

  /** Skipping leading space changes no token. */
  lemma LexSkip(u: string, k: nat)
    requires Clean(u) && k <= SpaceLen(u)
    ensures Lex(u[k..]) == Lex(u)
  {
    SpaceLenOfSkipped(u, k);
    assert u[k..][SpaceLen(u) - k..] == u[SpaceLen(u)..];
  }

  // ---------------------------------------------------------------- rendering

  function Text(t: Token): string {
    match t
    case Word(w) => w
    case Append => ">>"
    case Sym(c) => [c]
  }

  /** Tokens as `gettoken` produces them: words of word characters, real symbols. */
  predicate Plain(t: Token) {
    match t
    case Word(w) => w != "" && forall i :: 0 <= i < |w| ==> IsWordChar(w[i])
    case Append => true
    case Sym(c) => IsSymbol(c)
  }

  /** Each token followed by one blank. */
  function Render(ts: seq<Token>): string {
    if ts == [] then "" else Text(ts[0]) + " " + Render(ts[1..])
  }

  lemma {:induction false} WordLenOfWord(w: string, u: string)
    requires forall i :: 0 <= i < |w| ==> IsWordChar(w[i])
    requires u == "" || !IsWordChar(u[0])
    ensures WordLen(w + u) == |w|
  {
    if w == "" {
      assert w + u == u;
    } else {
      assert (w + u)[1..] == w[1..] + u;
      WordLenOfWord(w[1..], u);
    }
  }

  lemma FirstOfText(t: Token, u: string)
    requires Plain(t) && Clean(u)
    ensures var v := Text(t) + " " + u;
      v != "" && !IsSpace(v[0]) && v[0] != NUL && First(v) == (t, |Text(t)|)
  {
    var v := Text(t) + " " + u;
    if t.Word? {
      assert v == t.text + (" " + u);
      WordLenOfWord(t.text, " " + u);
    }
  }

  lemma CleanText(t: Token, u: string)
    requires Plain(t) && Clean(u)
    ensures Clean(" " + u) && Clean(Text(t) + " " + u)
  {
  }

  lemma LexOne(t: Token, u: string)
    requires Plain(t) && Clean(u)
    ensures Clean(Text(t) + " " + u)
    ensures Lex(Text(t) + " " + u) == [t] + Lex(u)
  {
    FirstOfText(t, u);
    CleanText(t, u);
    var v, w := Text(t) + " " + u, " " + u;
    assert SpaceLen(v) == 0 && v[0..] == v;
    assert v[|Text(t)|..] == w;
    assert w[1..] == u;
    LexSkip(w, 1);
  }

  /** Rendering and lexing are inverse on plain tokens. */
  lemma {:induction false} LexRender(ts: seq<Token>)
    requires forall i :: 0 <= i < |ts| ==> Plain(ts[i])
    ensures Clean(Render(ts)) && Lex(Render(ts)) == ts
  {
    if ts != [] {
      var more := ts[1..];
      LexRender(more);
      LexOne(ts[0], Render(more));
      assert ts == [ts[0]] + more;
    }
  }

  // ---------------------------------------------------------------- all the ways to write tokens

  /** A line as tokens with the white space before each, and at the end. */
  datatype Spelling = Blank(gap: string) | Piece(gap: string, t: Token, next: Spelling)

  function Line(sp: Spelling): string {
    match sp
    case Blank(gap) => gap
    case Piece(gap, t, next) => gap + (Text(t) + Line(next))
  }

  function Tokens(sp: Spelling): seq<Token> {
    match sp
    case Blank(_) => []
    case Piece(_, t, next) => [t] + Tokens(next)
  }

  /** Without white space between them the two would not be read apart. */
  predicate Merges(t: Token, t': Token) {
    (t.Word? && t'.Word?) || (t == Sym('>') && (t' == Sym('>') || t' == Append))
  }

  predicate AllSpace(gap: string) {
    forall i :: 0 <= i < |gap| ==> IsSpace(gap[i])
  }

  predicate Legible(sp: Spelling) {
    && AllSpace(sp.gap)
    && (sp.Piece? ==> Plain(sp.t) && Legible(sp.next))
    && (sp.Piece? && sp.next.Piece? && sp.next.gap == "" ==> !Merges(sp.t, sp.next.t))
  }

  lemma {:induction false} SpaceLenOfGap(gap: string, v: string)
    requires AllSpace(gap) && (v == "" || !IsSpace(v[0]))
    ensures SpaceLen(gap + v) == |gap|
  {
    if gap == "" {
      assert gap + v == v;
    } else {
      assert (gap + v)[1..] == gap[1..] + v;
      SpaceLenOfGap(gap[1..], v);
    }
  }

  /** What a token is followed by does not extend it. */
  lemma Apart(sp: Spelling)
    requires Legible(sp) && sp.Piece?
    ensures var rest := Line(sp.next);
      && (sp.t.Word? && rest != "" ==> !IsWordChar(rest[0]))
      && (sp.t == Sym('>') && rest != "" ==> rest[0] != '>')
  {
    var next := sp.next;
    if next.gap != "" {
      assert Line(next)[0] == next.gap[0] && IsSpace(next.gap[0]);
    } else if next.Piece? {
      assert Line(next) == Text(next.t) + Line(next.next);
      assert Line(next)[0] == Text(next.t)[0];
    }
  }

  lemma FirstOf(t: Token, rest: string)
    requires Plain(t)
    requires (t.Word? && rest != "" ==> !IsWordChar(rest[0])) && (t == Sym('>') && rest != "" ==> rest[0] != '>')
    ensures var v := Text(t) + rest; v != "" && !IsSpace(v[0]) && v[0] != NUL && First(v) == (t, |Text(t)|)
  {
    if t.Word? {
      WordLenOfWord(t.text, rest);
    }
  }

  lemma LexPiece(gap: string, t: Token, rest: string)
    requires AllSpace(gap) && Plain(t) && Clean(rest)
    requires (t.Word? && rest != "" ==> !IsWordChar(rest[0])) && (t == Sym('>') && rest != "" ==> rest[0] != '>')
    ensures Clean(gap + (Text(t) + rest)) && Lex(gap + (Text(t) + rest)) == [t] + Lex(rest)
  {
    var v := Text(t) + rest;
    FirstOf(t, rest);
    SpaceLenOfGap(gap, v);
    assert (gap + v)[|gap|..] == v && v[|Text(t)|..] == rest;
  }

  /** Tokens are read back however they are spaced, as long as they are apart where they must be. */
  lemma {:induction false} LexSpelled(sp: Spelling)
    requires Legible(sp)
    ensures Clean(Line(sp)) && Lex(Line(sp)) == Tokens(sp)
  {
    match sp
    case Blank(gap) =>
      SpaceLenOfGap(gap, "");
      assert gap + "" == gap;
    case Piece(gap, t, next) =>
      LexSpelled(next);
      Apart(sp);
      LexPiece(gap, t, Line(next));
  }

  lemma FirstIsPlain(v: string)
    requires v != "" && !IsSpace(v[0]) && v[0] != NUL
    ensures var f := First(v);
      && Plain(f.0) && v[..f.1] == Text(f.0)
      && (f.0.Word? && f.1 < |v| ==> !IsWordChar(v[f.1])) && (f.0 == Sym('>') && f.1 < |v| ==> v[f.1] != '>')
  {
  }

  /** And every line is such a spelling of the tokens read from it. */
  lemma SpellingOf(u: string) returns (sp: Spelling)
    requires Clean(u)
    ensures Legible(sp) && Line(sp) == u && Tokens(sp) == Lex(u)
  {
    sp := Spelled(u);
    LexSpelled(sp);
  }

  lemma {:induction false} Spelled(u: string) returns (sp: Spelling)
    requires Clean(u)
    ensures Legible(sp) && Line(sp) == u
    decreases |u|
  {
    var n := SpaceLen(u);
    if n == |u| {
      sp := Blank(u);
    } else {
      var gap, v := u[..n], u[n..];
      assert v[0] == u[n];
      var f := First(v);
      var rest := v[f.1..];
      FirstIsPlain(v);
      var next := Spelled(rest);
      sp := Piece(gap, f.0, next);
      NextApart(f.0, rest, next);
      Reassembled(u, n, f.1);
    }
  }

  lemma Reassembled(u: string, n: nat, k: nat)
    requires n <= |u| && k <= |u| - n
    ensures u[..n] + (u[n..][..k] + u[n..][k..]) == u
  {
  }

  lemma NextApart(t: Token, rest: string, next: Spelling)
    requires Legible(next) && Line(next) == rest
    requires (t.Word? && rest != "" ==> !IsWordChar(rest[0])) && (t == Sym('>') && rest != "" ==> rest[0] != '>')
    ensures next.Piece? && next.gap == "" ==> !Merges(t, next.t)
  {
    if next.Piece? && next.gap == "" {
      assert rest == Text(next.t) + Line(next.next);
      assert rest[0] == Text(next.t)[0];
    }
  }

  /** Words in a command are plain and few enough: what can be typed and parsed back. */
  predicate Typeable(c: Cmd<string>) {
    match c
    case Exec(argv) => forall i :: 0 <= i < |argv| ==> Plain(Word(argv[i]))
    case Redir(d, file, mode, fd) => Typeable(d) && Plain(Word(file))
    case Pipe(l, r) => Typeable(l) && Typeable(r)
    case List(l, r) => Typeable(l) && Typeable(r)
    case Back(d) => Typeable(d)
  }

  ghost predicate AllPlain(ts: seq<Token>) {
    forall i :: 0 <= i < |ts| ==> Plain(ts[i])
  }

  lemma PlainJoin(a: seq<Token>, t: Token, b: seq<Token>)
    requires AllPlain(a) && AllPlain(b) && Plain(t)
    ensures AllPlain(a + [t] + b)
  {
  }

  lemma {:induction false} PrintedPlain(c: Cmd<string>)
    requires Typeable(c)
    ensures AllPlain(PrintLine(c)) && AllPlain(PrintBack(c)) && AllPlain(PrintPipe(c)) && AllPlain(PrintExec(c))
  {
    match c
    case Exec(argv) =>
      assert PrintLine(c) == PrintBack(c) == PrintPipe(c) == PrintExec(c);
    case Redir(d, _, _, _) =>
      PrintedPlain(d);
      assert PrintLine(c) == PrintBack(c) == PrintPipe(c) == PrintExec(c);
    case Pipe(l, r) =>
      PrintedPlain(l);
      PrintedPlain(r);
      PlainJoin(PrintExec(l), Sym('|'), PrintPipe(r));
      PrintParens(c);
      assert PrintLine(c) == PrintBack(c) == PrintPipe(c);
    case List(l, r) =>
      PrintedPlain(l);
      PrintedPlain(r);
      PlainJoin(PrintBack(l), Sym(';'), PrintLine(r));
      PrintParens(c);
      assert PrintBack(c) == PrintPipe(c) == PrintExec(c);
    case Back(d) =>
      PrintedPlain(d);
      PrintParens(c);
      assert PrintLine(c) == PrintBack(c) && PrintPipe(c) == PrintExec(c);
  }

  /**
    Round trip from tree to text and back: a command whose words are plain and whose argument lists are
    short enough, printed with the parentheses it needs, parses to itself.
   */
  lemma TypedRoundTrip(c: Cmd<string>)
    requires Expressible(c) && Typeable(c)
    ensures Clean(Render(PrintLine(c))) && Parse(Lex(Render(PrintLine(c)))) == Ok(c, [])
  {
    PrintedPlain(c);
    LexRender(PrintLine(c));
    PrintParse(c);
  }
}
