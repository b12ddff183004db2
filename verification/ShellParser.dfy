/**
  The parser of xv6/sh.c as it runs: a cursor moves along the line, loops rebind the command, words are
  kept as places in the line, and `nulterminate` finally writes NULs into the line's buffer.

  Every procedure returns the moved cursor and is proved to agree with the grammar function of module
  ShellGrammar on the tokens that remain. The source's panics are error results.
 */
module ShellParser {
  import opened ShellGrammar
  import opened ShellLexer

  /** A word in place: `q` to `eq`. */
  datatype Span = Span(q: nat, eq: nat)

  datatype Kind = KEnd | KWord | KAppend | KSym(c: char)

  datatype ParseResult = Parsed(cmd: Cmd<Span>, ps: nat) | Panic(error: Error)

  datatype Files = Files(targets: seq<(Span, int, int)>, ps: nat) | NoFileHere

  /** The span is a whole token: word characters, and none right after. */
  ghost predicate SpanOk(s: string, p: Span) {
    && p.q < p.eq <= |s|
    && (forall k :: p.q <= k < p.eq ==> IsWordChar(s[k]))
    && (p.eq < |s| ==> !IsWordChar(s[p.eq]))
  }

  ghost predicate SpansOk(s: string, c: Cmd<Span>) {
    match c
    case Exec(argv) => ArgsOk(s, argv)
    case Redir(d, file, _, _) => SpansOk(s, d) && SpanOk(s, file)
    case Pipe(l, r) => SpansOk(s, l) && SpansOk(s, r)
    case List(l, r) => SpansOk(s, l) && SpansOk(s, r)
    case Back(d) => SpansOk(s, d)
  }

  ghost predicate ArgsOk(s: string, argv: seq<Span>) {
    forall i :: 0 <= i < |argv| ==> SpanOk(s, argv[i])
  }

  ghost predicate TargetsOk(s: string, ts: seq<(Span, int, int)>) {
    forall i :: 0 <= i < |ts| ==> SpanOk(s, ts[i].0)
  }

  // ---------------------------------------------------------------- reading the words of a placed command

  ghost function TextOf(s: string, p: Span): string
    requires SpanOk(s, p)
  {
    s[p.q..p.eq]
  }

  ghost function ArgTexts(s: string, argv: seq<Span>): (r: seq<string>)
    requires ArgsOk(s, argv)
    ensures |r| == |argv|
  {
    seq(|argv|, i requires 0 <= i < |argv| => TextOf(s, argv[i]))
  }

  ghost function TargetTexts(s: string, ts: seq<(Span, int, int)>): (r: seq<Target>)
    requires TargetsOk(s, ts)
    ensures |r| == |ts|
  {
    seq(|ts|, i requires 0 <= i < |ts| => Target(TextOf(s, ts[i].0), ts[i].1, ts[i].2))
  }

  ghost function Resolve(s: string, c: Cmd<Span>): Cmd<string>
    requires SpansOk(s, c)
  {
    match c
    case Exec(argv) => Exec(ArgTexts(s, argv))
    case Redir(d, file, mode, fd) => Redir(Resolve(s, d), TextOf(s, file), mode, fd)
    case Pipe(l, r) => Pipe(Resolve(s, l), Resolve(s, r))
    case List(l, r) => List(Resolve(s, l), Resolve(s, r))
    case Back(d) => Back(Resolve(s, d))
  }

  lemma {:induction false} ResolveWrap(s: string, c: Cmd<Span>, ts: seq<(Span, int, int)>)
    requires SpansOk(s, c) && TargetsOk(s, ts)
    ensures SpansOk(s, Wrap(c, ts))
    ensures Resolve(s, Wrap(c, ts)) == Wrap(Resolve(s, c), Triples(TargetTexts(s, ts)))
    decreases |ts|
  {
    if ts != [] {
      var n := |ts| - 1;
      ResolveWrap(s, c, ts[..n]);
      assert Triples(TargetTexts(s, ts))[..n] == Triples(TargetTexts(s, ts[..n]));
    }
  }

  // ---------------------------------------------------------------- gettoken and peek

  function At(s: string, i: nat): char {
    if i < |s| then s[i] else NUL
  }

  /** What remains from position i. */
  ghost function Rest(s: string, i: nat): seq<Token>
    requires Clean(s) && i <= |s|
  {
    Lex(s[i..])
  }

  /** Skipping blanks changes no token; at the end of the line there is none. */
  lemma RestSkips(s: string, i: nat, k: nat)
    requires Clean(s) && i <= |s| && k == i + SpaceLen(s[i..])
    ensures k <= |s| && Rest(s, k) == Rest(s, i)
    ensures k < |s| ==> !IsSpace(s[k])
  {
    SliceOfSlice(s, i, k - i);
    LexAfterBlanks(s[i..], s[k..]);
    EndsBlanks(s, i, k);
  }

  lemma LexAfterBlanks(u: string, v: string)
    requires Clean(u) && v == u[SpaceLen(u)..]
    ensures Clean(v) && Lex(v) == Lex(u)
  {
    LexSkip(u, SpaceLen(u));
  }

  /** The character after the blanks is not one. */
  lemma EndsBlanks(s: string, i: nat, k: nat)
    requires i <= |s| && k == i + SpaceLen(s[i..])
    ensures k < |s| ==> !IsSpace(s[k])
  {
    if k < |s| {
      assert s[i..][k - i] == s[k];
    }
  }

  lemma SliceOfSlice(s: string, i: nat, n: nat)
    requires i + n <= |s|
    ensures s[i..][n..] == s[i + n..]
  {
  }

  /** At a non-blank character the first token is split off. */
  lemma RestSplits(s: string, k: nat, e: nat)
    requires Clean(s) && k < |s| && !IsSpace(s[k]) && e == k + First(s[k..]).1
    ensures s[k..][0] == s[k] && e <= |s|
    ensures Rest(s, k) == [First(s[k..]).0] + Rest(s, e)
  {
    var u := s[k..];
    assert u[0] == s[k] && SpaceLen(u) == 0 && u[0..] == u;
    assert u[First(u).1..] == s[e..];
  }

  lemma RestEmpty(s: string)
    requires Clean(s)
    ensures Rest(s, |s|) == []
  {
  }

  /** The blank-skipping loops. */
  method SkipSpace(s: string, start: nat) returns (i: nat)
    requires start <= |s|
    ensures i == start + SpaceLen(s[start..])
  {
    i := start;
    assert s[start..] == s[i..];
    while i < |s| && IsSpace(s[i])
      invariant start <= i <= |s|
      invariant i + SpaceLen(s[i..]) == start + SpaceLen(s[start..])
    {
      assert s[i..][1..] == s[i + 1..];
      i := i + 1;
    }
  }

  /** The word loop. */
  method SkipWord(s: string, start: nat) returns (i: nat)
    requires start <= |s| && Clean(s)
    ensures i == start + WordLen(s[start..])
  {
    i := start;
    while i < |s| && !IsSpace(s[i]) && !IsSymbol(s[i])
      invariant start <= i <= |s|
      invariant i + WordLen(s[i..]) == start + WordLen(s[start..])
    {
      assert s[i..][1..] == s[i + 1..];
      i := i + 1;
    }
  }

  ghost predicate KindOf(k: Kind, t: Token) {
    match t
    case Word(_) => k == KWord
    case Append => k == KAppend
    case Sym(c) => k == KSym(c)
  }

  /** The switch in `gettoken`: the token that starts at q, and where it ends. */
  method Classify(s: string, q: nat) returns (kind: Kind, eq: nat)
    requires Clean(s) && q <= |s| && (q < |s| ==> !IsSpace(s[q]))
    ensures kind == KEnd <==> q == |s|
    ensures kind == KEnd ==> eq == q
    ensures kind != KEnd ==> var f := First(s[q..]); KindOf(kind, f.0) && eq == q + f.1 <= |s|
    ensures kind == KWord ==> SpanOk(s, Span(q, eq)) && First(s[q..]).0 == Word(TextOf(s, Span(q, eq)))
  {
    var c := At(s, q);
    eq := q;
    assert q < |s| ==> s[q..][0] == c;
    if c == NUL {
      kind := KEnd;
    } else if c == '|' || c == '(' || c == ')' || c == ';' || c == '&' || c == '<' {
      kind := KSym(c);
      eq := q + 1;
    } else if c == '>' {
      kind := KSym('>');
      eq := q + 1;
      if At(s, eq) == '>' {
        assert s[q..][1] == s[q + 1];
        kind := KAppend;
        eq := q + 2;
      } else {
        assert |s[q..]| > 1 ==> s[q..][1] == s[q + 1];
      }
    } else {
      kind := KWord;
      eq := SkipWord(s, q);
      assert s[q..][..WordLen(s[q..])] == s[q..eq];
      WordSpan(s, q);
    }
  }

  /** `gettoken` */
  method GetToken(s: string, start: nat) returns (kind: Kind, p: Span, ps: nat)
    requires Clean(s) && start <= |s|
    ensures start <= ps <= |s|
    ensures kind == KEnd <==> Rest(s, start) == []
    ensures kind != KEnd ==> start < ps && KindOf(kind, Rest(s, start)[0]) && Rest(s, ps) == Rest(s, start)[1..]
    ensures kind == KWord ==> SpanOk(s, p) && Rest(s, start)[0] == Word(TextOf(s, p))
  {
    var q := SkipSpace(s, start);
    SkipsToToken(s, start, q);
    var eq;
    kind, eq := Classify(s, q);
    p := Span(q, eq);
    ps := SkipSpace(s, eq);
    if q < |s| {
      TokenThenRest(s, q, eq, ps);
      DropFirst(First(s[q..]).0, Rest(s, ps));
    } else {
      RestSkips(s, eq, ps);
    }
  }

  lemma SkipsToToken(s: string, i: nat, k: nat)
    requires Clean(s) && i <= |s| && k == i + SpaceLen(s[i..])
    ensures k <= |s| && (k < |s| ==> !IsSpace(s[k]))
    ensures Rest(s, k) == Rest(s, i)
    ensures k == |s| <==> Rest(s, i) == []
  {
    RestSkips(s, i, k);
    if k < |s| {
      RestSplits(s, k, k + First(s[k..]).1);
    } else {
      RestEmpty(s);
    }
  }

  lemma TokenThenRest(s: string, q: nat, eq: nat, ps: nat)
    requires Clean(s) && q < |s| && !IsSpace(s[q])
    requires eq == q + First(s[q..]).1 <= |s| && ps == eq + SpaceLen(s[eq..])
    ensures q < ps <= |s|
    ensures Rest(s, q) == [First(s[q..]).0] + Rest(s, ps)
  {
    assert Rest(s, ps) == Rest(s, eq) by {
      RestSkips(s, eq, ps);
    }
    assert Rest(s, q) == [First(s[q..]).0] + Rest(s, eq) by {
      RestSplits(s, q, eq);
    }
  }

  lemma WordSpan(s: string, q: nat)
    requires Clean(s) && q < |s| && IsWordChar(s[q])
    ensures SpanOk(s, Span(q, q + WordLen(s[q..])))
  {
    var u := s[q..];
    var n := WordLen(u);
    assert u[0] == s[q];
    forall k | q <= k < q + n ensures IsWordChar(s[k]) {
      assert u[k - q] == s[k];
    }
    if q + n < |s| {
      assert u[n] == s[q + n];
    }
  }

  /** `peek`: is the next non-blank character one of toks? */
  method Peek(s: string, start: nat, toks: string) returns (ps: nat, b: bool)
    requires Clean(s) && start <= |s|
    requires forall i :: 0 <= i < |toks| ==> IsSymbol(toks[i])
    ensures start <= ps <= |s| && Rest(s, ps) == Rest(s, start)
    ensures b <==> Starts(Rest(s, start), toks)
    ensures ps == |s| <==> Rest(s, start) == []
  {
    ps := SkipSpace(s, start);
    SkipsToToken(s, start, ps);
    b := At(s, ps) != NUL && At(s, ps) in toks;
    if ps < |s| {
      RestSplits(s, ps, ps + First(s[ps..]).1);
    }
  }

  // ---------------------------------------------------------------- the recursive descent

  ghost predicate FilesAgree(s: string, r: Files, spec: Targets)
    requires Clean(s)
  {
    match spec
    case NoFile => r == NoFileHere
    case Found(targets, rest) =>
      && r.Files? && r.ps <= |s| && TargetsOk(s, r.targets)
      && TargetTexts(s, r.targets) == targets && Rest(s, r.ps) == rest
  }

  ghost predicate Agree(s: string, r: ParseResult, spec: Result)
    requires Clean(s)
  {
    match spec
    case Err(e) => r == Panic(e)
    case Ok(c, rest) =>
      r.Parsed? && r.ps <= |s| && SpansOk(s, r.cmd) && Resolve(s, r.cmd) == c && Rest(s, r.ps) == rest
  }

  lemma TargetTextsConcat(s: string, a: seq<(Span, int, int)>, b: seq<(Span, int, int)>)
    requires TargetsOk(s, a) && TargetsOk(s, b)
    ensures TargetsOk(s, a + b) && TargetTexts(s, a + b) == TargetTexts(s, a) + TargetTexts(s, b)
  {
  }

  lemma TargetTextsMore(s: string, a: seq<(Span, int, int)>, b: (Span, int, int), t: Target)
    requires TargetsOk(s, a) && SpanOk(s, b.0) && t == Target(TextOf(s, b.0), b.1, b.2)
    ensures TargetsOk(s, a + [b]) && TargetTexts(s, a + [b]) == TargetTexts(s, a) + [t]
  {
    TargetTextsConcat(s, a, [b]);
    assert TargetTexts(s, [b]) == [t];
  }

  /** One redirection: the operator at the cursor and the file word after it, if there is one. */
  method ReadTarget(s: string, start: nat) returns (ok: bool, target: (Span, int, int), ps: nat)
    requires Clean(s) && start <= |s| && Starts(Rest(s, start), "<>")
    ensures start < ps <= |s|
    ensures !ok ==> ParseRedirs(Rest(s, start)) == NoFile
    ensures ok ==>
      && SpanOk(s, target.0)
      && RedirTarget(Rest(s, start)[0], TextOf(s, target.0)) == Target(TextOf(s, target.0), target.1, target.2)
      && var more := ParseRedirs(Rest(s, ps));
      ParseRedirs(Rest(s, start)) == if more.NoFile? then NoFile
        else Found([RedirTarget(Rest(s, start)[0], TextOf(s, target.0))] + more.targets, more.rest)
  {
    ghost var ts := Rest(s, start);
    var op, _, ps1 := GetToken(s, start);
    var kind, file;
    kind, file, ps := GetToken(s, ps1);
    ok := kind == KWord;
    target := if op == KSym('<') then (file, O_RDONLY, 0) else (file, O_WRONLY + O_CREATE, 1);
    assert |ts| >= 2 ==> ts[1..][1..] == ts[2..];
  }

  /** `parseredirs`: the files to redirect to, from the cursor on. */
  method ParseRedirections(s: string, start: nat) returns (r: Files)
    requires Clean(s) && start <= |s|
    ensures FilesAgree(s, r, ParseRedirs(Rest(s, start)))
    ensures r.Files? ==> start <= r.ps
  {
    var ps := start;
    var targets: seq<(Span, int, int)> := [];
    ghost var done: seq<Target> := [];
    var more: bool;
    ps, more := Peek(s, ps, "<>");
    while more
      invariant start <= ps <= |s|
      invariant more <==> Starts(Rest(s, ps), "<>")
      invariant TargetsOk(s, targets) && TargetTexts(s, targets) == done
      invariant Prefixed(done, ParseRedirs(Rest(s, ps))) == ParseRedirs(Rest(s, start))
      decreases |s| - ps
    {
      var ok, target, ps2 := ReadTarget(s, ps);
      if !ok {
        return NoFileHere;
      }
      ghost var t := RedirTarget(Rest(s, ps)[0], TextOf(s, target.0));
      TargetTextsMore(s, targets, target, t);
      PrefixedStep(done, t, ParseRedirs(Rest(s, ps2)));
      targets := targets + [target];
      done := done + [t];
      ps, more := Peek(s, ps2, "<>");
    }
    r := Files(targets, ps);
    assert done + [] == done;
  }

  /** The result when some redirections have already been read. */
  ghost function Prefixed(done: seq<Target>, r: Targets): Targets {
    if r.NoFile? then NoFile else Found(done + r.targets, r.rest)
  }

  lemma PrefixedStep(done: seq<Target>, t: Target, more: Targets)
    ensures Prefixed(done, if more.NoFile? then NoFile else Found([t] + more.targets, more.rest)) ==
      Prefixed(done + [t], more)
  {
    if more.Found? {
      assert done + ([t] + more.targets) == done + [t] + more.targets;
    }
  }

  lemma ArgTextsConcat(s: string, a: seq<Span>, p: Span)
    requires ArgsOk(s, a) && SpanOk(s, p)
    ensures ArgsOk(s, a + [p]) && ArgTexts(s, a + [p]) == ArgTexts(s, a) + [TextOf(s, p)]
  {
  }

  lemma ResolveSimple(s: string, args: seq<Span>, targets: seq<(Span, int, int)>)
    requires ArgsOk(s, args) && TargetsOk(s, targets)
    ensures SpansOk(s, Wrap(Exec(args), targets))
    ensures Resolve(s, Wrap(Exec(args), targets)) == Wrap(Exec(ArgTexts(s, args)), Triples(TargetTexts(s, targets)))
  {
    ResolveWrap(s, Exec(args), targets);
  }

  /**
    The argument loop of `parseexec`. The source fills the argument vector of a node that redirections
    have already been wrapped around; here the wrapping is done once the vector is complete.
   */
  method ParseArguments(s: string, start: nat, targets0: seq<(Span, int, int)>) returns (r: ParseResult)
    requires Clean(s) && start <= |s| && TargetsOk(s, targets0)
    ensures Agree(s, r, ParseArgs(Rest(s, start), [], TargetTexts(s, targets0)))
    ensures r.Parsed? ==> start <= r.ps
  {
    var ps, args: seq<Span>, targets := start, [], targets0;
    var stop: bool;
    ps, stop := Peek(s, ps, "|)&;");
    while !stop
      invariant start <= ps <= |s| && ArgsOk(s, args) && TargetsOk(s, targets)
      invariant stop <==> Starts(Rest(s, ps), "|)&;")
      invariant ParseArgs(Rest(s, ps), ArgTexts(s, args), TargetTexts(s, targets))
             == ParseArgs(Rest(s, start), [], TargetTexts(s, targets0))
      invariant |args| < MAXARGS
      decreases |s| - ps
    {
      var kind, word, ps1 := GetToken(s, ps);
      if kind == KEnd {
        break;
      }
      if kind != KWord {
        return Panic(Syntax);
      }
      ArgTextsConcat(s, args, word);
      args := args + [word];
      if |args| >= MAXARGS {
        return Panic(TooManyArgs);
      }
      var more := ParseRedirections(s, ps1);
      if more.NoFileHere? {
        return Panic(MissingFile);
      }
      TargetTextsConcat(s, targets, more.targets);
      targets := targets + more.targets;
      ps, stop := Peek(s, more.ps, "|)&;");
    }
    ResolveSimple(s, args, targets);
    r := Parsed(Wrap(Exec(args), targets), ps);
  }

  /** `parseblock`: called with the cursor before a parenthesis. */
  method ParseBlock(s: string, start: nat) returns (r: ParseResult)
    requires Clean(s) && start <= |s| && Starts(Rest(s, start), "(")
    ensures Agree(s, r, ParseExec(Rest(s, start)))
    ensures r.Parsed? ==> start <= r.ps
    decreases |s| - start, 0
  {
    var _, _, ps1 := GetToken(s, start);
    var inner := ParseLineAt(s, ps1);
    if inner.Panic? {
      return inner;
    }
    var ps2, closed := Peek(s, inner.ps, ")");
    if !closed {
      return Panic(MissingParen);
    }
    var _, _, ps3 := GetToken(s, ps2);
    var files := ParseRedirections(s, ps3);
    if files.NoFileHere? {
      return Panic(MissingFile);
    }
    ResolveWrap(s, inner.cmd, files.targets);
    r := Parsed(Wrap(inner.cmd, files.targets), files.ps);
  }

  /** `parseexec` */
  method ParseExecAt(s: string, start: nat) returns (r: ParseResult)
    requires Clean(s) && start <= |s|
    ensures Agree(s, r, ParseExec(Rest(s, start)))
    ensures r.Parsed? ==> start <= r.ps
    decreases |s| - start, 1
  {
    var ps, open := Peek(s, start, "(");
    if open {
      r := ParseBlock(s, ps);
      return;
    }
    var files := ParseRedirections(s, ps);
    if files.NoFileHere? {
      return Panic(MissingFile);
    }
    r := ParseArguments(s, files.ps, files.targets);
  }

  /** `parsepipe` */
  method ParsePipeAt(s: string, start: nat) returns (r: ParseResult)
    requires Clean(s) && start <= |s|
    ensures Agree(s, r, ParsePipe(Rest(s, start)))
    ensures r.Parsed? ==> start <= r.ps
    decreases |s| - start, 2
  {
    var first := ParseExecAt(s, start);
    if first.Panic? {
      return first;
    }
    var ps, bar := Peek(s, first.ps, "|");
    r := Parsed(first.cmd, ps);
    if bar {
      var _, _, ps1 := GetToken(s, ps);
      var second := ParsePipeAt(s, ps1);
      if second.Panic? {
        return second;
      }
      r := Parsed(Pipe(first.cmd, second.cmd), second.ps);
    }
  }

  /** `parseline` */
  method ParseLineAt(s: string, start: nat) returns (r: ParseResult)
    requires Clean(s) && start <= |s|
    ensures Agree(s, r, ParseLine(Rest(s, start)))
    ensures r.Parsed? ==> start <= r.ps
    decreases |s| - start, 3
  {
    var first := ParsePipeAt(s, start);
    if first.Panic? {
      return first;
    }
    var cmd := first.cmd;
    var ps, more := Peek(s, first.ps, "&");
    while more
      invariant start <= ps <= |s| && SpansOk(s, cmd)
      invariant more <==> Starts(Rest(s, ps), "&")
      invariant ParseBacks(Resolve(s, cmd), Rest(s, ps)) == ParseBacks(Resolve(s, first.cmd), Rest(s, first.ps))
      decreases |s| - ps
    {
      var _, _, ps1 := GetToken(s, ps);
      cmd := Back(cmd);
      ps, more := Peek(s, ps1, "&");
    }
    var ps2, semi := Peek(s, ps, ";");
    r := Parsed(cmd, ps2);
    if semi {
      var _, _, ps3 := GetToken(s, ps2);
      var second := ParseLineAt(s, ps3);
      if second.Panic? {
        return second;
      }
      r := Parsed(List(cmd, second.cmd), second.ps);
    }
  }

  // ---------------------------------------------------------------- NUL termination in place

  /** The characters after the words: where `nulterminate` writes. */
  ghost function Ends(c: Cmd<Span>): set<nat> {
    match c
    case Exec(argv) => set i | 0 <= i < |argv| :: argv[i].eq
    case Redir(d, file, _, _) => Ends(d) + {file.eq}
    case Pipe(l, r) => Ends(l) + Ends(r)
    case List(l, r) => Ends(l) + Ends(r)
    case Back(d) => Ends(d)
  }

  /** A C string read from position q. */
  ghost function CString(b: seq<char>, q: nat): string
    decreases |b| - q
  {
    if q >= |b| || b[q] == NUL then "" else [b[q]] + CString(b, q + 1)
  }

  /** The command as the shell runs it: every word read as a C string from its start. */
  ghost function CTree(b: seq<char>, c: Cmd<Span>): Cmd<string> {
    match c
    case Exec(argv) => Exec(seq(|argv|, i requires 0 <= i < |argv| => CString(b, argv[i].q)))
    case Redir(d, file, mode, fd) => Redir(CTree(b, d), CString(b, file.q), mode, fd)
    case Pipe(l, r) => Pipe(CTree(b, l), CTree(b, r))
    case List(l, r) => List(CTree(b, l), CTree(b, r))
    case Back(d) => Back(CTree(b, d))
  }

  lemma {:induction false} EndsOutsideWords(s: string, c: Cmd<Span>, e: nat)
    requires SpansOk(s, c) && e in Ends(c)
    ensures e <= |s| && (e < |s| ==> !IsWordChar(s[e]))
  {
    match c
    case Exec(argv) =>
      var i :| 0 <= i < |argv| && argv[i].eq == e;
      assert SpanOk(s, argv[i]);
    case Redir(d, file, _, _) =>
      if e in Ends(d) {
        EndsOutsideWords(s, d, e);
      }
    case Pipe(l, r) =>
      if e in Ends(l) { EndsOutsideWords(s, l, e); } else { EndsOutsideWords(s, r, e); }
    case List(l, r) =>
      if e in Ends(l) { EndsOutsideWords(s, l, e); } else { EndsOutsideWords(s, r, e); }
    case Back(d) => EndsOutsideWords(s, d, e);
  }

  /** b is the line s with NULs at the given places. */
  ghost predicate Terminated(s: string, b: seq<char>, ends: set<nat>) {
    && |b| > |s|
    && (forall i :: 0 <= i < |s| && i !in ends ==> b[i] == s[i])
    && (forall e :: e in ends ==> e <= |s| && b[e] == NUL && (e < |s| ==> !IsWordChar(s[e])))
  }

  lemma {:induction false} CStringIsToken(s: string, b: seq<char>, ends: set<nat>, q: nat, eq: nat)
    requires Terminated(s, b, ends) && q <= eq <= |s| && eq in ends
    requires forall k :: q <= k < eq ==> IsWordChar(s[k])
    ensures CString(b, q) == s[q..eq]
    decreases eq - q
  {
    if q < eq {
      CStringIsToken(s, b, ends, q + 1, eq);
      assert s[q..eq] == [s[q]] + s[q + 1..eq];
    }
  }

  /** After termination every word, read as a C string, is exactly its token. */
  lemma {:induction false} CTreeIsResolved(s: string, b: seq<char>, ends: set<nat>, c: Cmd<Span>)
    requires SpansOk(s, c) && Terminated(s, b, ends) && Ends(c) <= ends
    ensures CTree(b, c) == Resolve(s, c)
  {
    match c
    case Exec(argv) =>
      forall i | 0 <= i < |argv| ensures CString(b, argv[i].q) == TextOf(s, argv[i]) {
        assert SpanOk(s, argv[i]) && argv[i].eq in Ends(c);
        CStringIsToken(s, b, ends, argv[i].q, argv[i].eq);
      }
    case Redir(d, file, _, _) =>
      CTreeIsResolved(s, b, ends, d);
      CStringIsToken(s, b, ends, file.q, file.eq);
    case Pipe(l, r) =>
      CTreeIsResolved(s, b, ends, l);
      CTreeIsResolved(s, b, ends, r);
    case List(l, r) =>
      CTreeIsResolved(s, b, ends, l);
      CTreeIsResolved(s, b, ends, r);
    case Back(d) => CTreeIsResolved(s, b, ends, d);
  }

  /** buf is what it was, with NULs written at ends. */
  twostate predicate Overwritten(buf: array<char>, ends: set<nat>)
    reads buf
  {
    forall i :: 0 <= i < buf.Length ==> buf[i] == if i in ends then NUL else old(buf[i])
  }

  /** `nulterminate`: NULs after the words and nowhere else. */
  method NulTerminate(buf: array<char>, c: Cmd<Span>, ghost s: string)
    requires SpansOk(s, c) && |s| < buf.Length
    modifies buf
    ensures Overwritten(buf, Ends(c))
    decreases c
  {
    match c
    case Exec(argv) =>
      var i := 0;
      while i < |argv|
        invariant 0 <= i <= |argv|
        invariant forall k :: 0 <= k < buf.Length ==>
          buf[k] == if (exists j :: 0 <= j < i && argv[j].eq == k) then NUL else old(buf[k])
      {
        assert SpanOk(s, argv[i]);
        buf[argv[i].eq] := NUL;
        i := i + 1;
      }
    case Redir(d, file, _, _) =>
      NulTerminate(buf, d, s);
      buf[file.eq] := NUL;
    case Pipe(l, r) =>
      NulTerminate(buf, l, s);
      NulTerminate(buf, r, s);
    case List(l, r) =>
      NulTerminate(buf, l, s);
      NulTerminate(buf, r, s);
    case Back(d) =>
      NulTerminate(buf, d, s);
  }

  lemma {:induction false} CStringLength(b: seq<char>, q: nat, n: nat)
    requires q <= n < |b| && b[n] == NUL && forall i :: q <= i < n ==> b[i] != NUL
    ensures CString(b, q) == b[q..n]
    decreases n - q
  {
    if q < n {
      CStringLength(b, q + 1, n);
      assert b[q..n] == [b[q]] + b[q + 1..n];
    }
  }

  /** `strlen` */
  method StrLen(buf: array<char>) returns (n: nat)
    requires exists i :: 0 <= i < buf.Length && buf[i] == NUL
    ensures n < buf.Length && buf[n] == NUL && Clean(buf[..n])
    ensures buf[..n] == CString(buf[..], 0)
  {
    n := 0;
    while buf[n] != NUL
      invariant n < buf.Length && exists i :: n <= i < buf.Length && buf[i] == NUL
      invariant forall i :: 0 <= i < n ==> buf[i] != NUL
      decreases buf.Length - n
    {
      n := n + 1;
    }
    CStringLength(buf[..], 0, n);
  }

  /**
    `parsecmd`: on a buffer holding a C string, the result is what the grammar says about its tokens;
    on success the words of the returned command, read as C strings out of the changed buffer, are
    exactly the words of the parsed command.
   */
  method ParseCmd(buf: array<char>) returns (r: ParseResult)
    requires exists i :: 0 <= i < buf.Length && buf[i] == NUL
    modifies buf
    ensures Clean(old(CString(buf[..], 0)))
    ensures match Parse(Lex(old(CString(buf[..], 0))))
      case Err(e) => r == Panic(e) && buf[..] == old(buf[..])
      case Ok(c, _) => r.Parsed? && CTree(buf[..], r.cmd) == c
  {
    var es := StrLen(buf);
    var s := buf[..es];
    assert s[0..] == s;
    var line := ParseLineAt(s, 0);
    if line.Panic? {
      return line;
    }
    var ps, _ := Peek(s, line.ps, "");
    if ps != es {
      return Panic(Leftovers);
    }
    forall e | e in Ends(line.cmd) ensures e <= |s| && (e < |s| ==> !IsWordChar(s[e])) {
      EndsOutsideWords(s, line.cmd, e);
    }
    NulTerminate(buf, line.cmd, s);
    assert Terminated(s, buf[..], Ends(line.cmd));
    CTreeIsResolved(s, buf[..], Ends(line.cmd), line.cmd);
    r := Parsed(line.cmd, ps);
  }
}
