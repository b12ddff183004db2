/**
  The command language of xv6/sh.c over tokens: command trees, the recursive-descent parser as a
  function of the remaining tokens, the printer, and the proof that parsing undoes printing.
 */
module ShellGrammar {

  const MAXARGS := 10
  const O_RDONLY := 0x000
  const O_WRONLY := 0x001
  const O_CREATE := 0x200

  /** Commands; W is how a word is given: its text, or its place in the line. */
  datatype Cmd<W> =
    | Exec(argv: seq<W>)
    | Redir(cmd: Cmd<W>, file: W, mode: int, fd: int)
    | Pipe(left: Cmd<W>, right: Cmd<W>)
    | List(left: Cmd<W>, right: Cmd<W>)
    | Back(cmd: Cmd<W>)

  /** `gettoken`'s classes: a word ('a'), `>>` ('+'), or a symbol standing for itself. */
  datatype Token = Word(text: string) | Append | Sym(c: char)

  datatype Error = Syntax | MissingFile | MissingParen | TooManyArgs | Leftovers

  datatype Result = Ok(cmd: Cmd<string>, rest: seq<Token>) | Err(error: Error)

  datatype Target = Target(file: string, mode: int, fd: int)

  datatype Targets = Found(targets: seq<Target>, rest: seq<Token>) | NoFile

  // ---------------------------------------------------------------- the parser

  predicate Starts(ts: seq<Token>, cs: string) {
    ts != [] && match ts[0] case Sym(c) => c in cs case Append => '>' in cs case Word(_) => false
  }

  function RedirTarget(t: Token, file: string): Target {
    if t == Sym('<') then Target(file, O_RDONLY, 0) else Target(file, O_WRONLY + O_CREATE, 1)
  }

  /** `parseredirs`: redirections as far as they go. */
  function ParseRedirs(ts: seq<Token>): (r: Targets)
    ensures r.Found? ==> |r.rest| <= |ts| && !Starts(r.rest, "<>")
  {
    if !Starts(ts, "<>") then Found([], ts)
    else if |ts| < 2 || !ts[1].Word? then NoFile
    else match ParseRedirs(ts[2..])
      case NoFile => NoFile
      case Found(more, rest) => Found([RedirTarget(ts[0], ts[1].text)] + more, rest)
  }

  /** Redirections wrap a command from the inside out, in the order they were written. */
  function Wrap<W>(c: Cmd<W>, targets: seq<(W, int, int)>): Cmd<W>
    decreases |targets|
  {
    if targets == [] then c
    else
      var last := targets[|targets| - 1];
      Redir(Wrap(c, targets[..|targets| - 1]), last.0, last.1, last.2)
  }

  function Triples(targets: seq<Target>): (r: seq<(string, int, int)>)
    ensures |r| == |targets|
  {
    seq(|targets|, i requires 0 <= i < |targets| => (targets[i].file, targets[i].mode, targets[i].fd))
  }

  /** The argument loop of `parseexec`. */
  function ParseArgs(ts: seq<Token>, args: seq<string>, targets: seq<Target>): (r: Result)
    ensures r.Ok? ==> |r.rest| <= |ts|
    decreases |ts|
  {
    if ts == [] || Starts(ts, "|)&;") then Ok(Wrap(Exec(args), Triples(targets)), ts)
    else if !ts[0].Word? then Err(Syntax)
    else if |args| + 1 >= MAXARGS then Err(TooManyArgs)
    else match ParseRedirs(ts[1..])
      case NoFile => Err(MissingFile)
      case Found(more, rest) => ParseArgs(rest, args + [ts[0].text], targets + more)
  }

  /** `parseexec`, with `parseblock` for a parenthesised line. */
  function ParseExec(ts: seq<Token>): (r: Result)
    ensures r.Ok? ==> |r.rest| <= |ts|
    decreases |ts|, 0
  {
    if Starts(ts, "(") then
      match ParseLine(ts[1..])
      case Err(e) => Err(e)
      case Ok(c, rest) =>
        if !Starts(rest, ")") then Err(MissingParen)
        else match ParseRedirs(rest[1..])
          case NoFile => Err(MissingFile)
          case Found(targets, rest') => Ok(Wrap(c, Triples(targets)), rest')
    else
      match ParseRedirs(ts)
      case NoFile => Err(MissingFile)
      case Found(targets, rest) => ParseArgs(rest, [], targets)
  }

  /** `parsepipe` */
  function ParsePipe(ts: seq<Token>): (r: Result)
    ensures r.Ok? ==> |r.rest| <= |ts|
    decreases |ts|, 1
  {
    match ParseExec(ts)
    case Err(e) => Err(e)
    case Ok(c, rest) =>
      if !Starts(rest, "|") then Ok(c, rest)
      else match ParsePipe(rest[1..])
        case Err(e) => Err(e)
        case Ok(d, rest') => Ok(Pipe(c, d), rest')
  }

  /** The `&` loop of `parseline`. */
  function ParseBacks(c: Cmd<string>, ts: seq<Token>): (r: (Cmd<string>, seq<Token>))
    ensures |r.1| <= |ts| && !Starts(r.1, "&")
    decreases |ts|
  {
    if Starts(ts, "&") then ParseBacks(Back(c), ts[1..]) else (c, ts)
  }

  /** `parseline` */
  function ParseLine(ts: seq<Token>): (r: Result)
    ensures r.Ok? ==> |r.rest| <= |ts|
    decreases |ts|, 2
  {
    match ParsePipe(ts)
    case Err(e) => Err(e)
    case Ok(c, rest) =>
      var (c', rest') := ParseBacks(c, rest);
      if !Starts(rest', ";") then Ok(c', rest')
      else match ParseLine(rest'[1..])
        case Err(e) => Err(e)
        case Ok(d, rest'') => Ok(List(c', d), rest'')
  }

  /** `parsecmd`: a line and nothing after it. */
  function Parse(ts: seq<Token>): Result {
    match ParseLine(ts)
    case Err(e) => Err(e)
    case Ok(c, rest) => if rest == [] then Ok(c, []) else Err(Leftovers)
  }

  // ---------------------------------------------------------------- the printer

  function Words(argv: seq<string>): (r: seq<Token>)
    ensures |r| == |argv|
    ensures forall i :: 0 <= i < |argv| ==> r[i] == Word(argv[i])
  {
    seq(|argv|, i requires 0 <= i < |argv| => Word(argv[i]))
  }

  /** Print a command where any line may stand. */
  function PrintLine(c: Cmd<string>): seq<Token>
    decreases c, 3
  {
    if c.List? then PrintBack(c.left) + [Sym(';')] + PrintLine(c.right) else PrintBack(c)
  }

  /** Print a command where a pipeline with trailing `&`s may stand. */
  function PrintBack(c: Cmd<string>): seq<Token>
    decreases c, 2
  {
    if c.Back? then PrintBack(c.cmd) + [Sym('&')] else PrintPipe(c)
  }

  /** Print a command where a pipeline may stand. */
  function PrintPipe(c: Cmd<string>): seq<Token>
    decreases c, 1
  {
    if c.Pipe? then PrintExec(c.left) + [Sym('|')] + PrintPipe(c.right) else PrintExec(c)
  }

  /** Print a simple command with its redirections; anything else goes into parentheses. */
  function PrintExec(c: Cmd<string>): seq<Token>
    decreases c, 0
  {
    match c
    case Exec(argv) => Words(argv)
    case Redir(d, file, mode, fd) => PrintExec(d) + [Sym(if fd == 0 then '<' else '>'), Word(file)]
    case List(l, r) => [Sym('(')] + PrintBack(l) + [Sym(';')] + PrintLine(r) + [Sym(')')]
    case Pipe(l, r) => [Sym('(')] + PrintExec(l) + [Sym('|')] + PrintPipe(r) + [Sym(')')]
    case Back(d) => [Sym('(')] + PrintBack(d) + [Sym('&')] + [Sym(')')]
  }

  /** Trees the shell can represent: fewer than MAXARGS arguments, and redirections it knows. */
  predicate Expressible(c: Cmd<string>) {
    match c
    case Exec(argv) => |argv| < MAXARGS
    case Redir(d, file, mode, fd) =>
      Expressible(d) && ((mode == O_RDONLY && fd == 0) || (mode == O_WRONLY + O_CREATE && fd == 1))
    case Pipe(l, r) => Expressible(l) && Expressible(r)
    case List(l, r) => Expressible(l) && Expressible(r)
    case Back(d) => Expressible(d)
  }

  // ---------------------------------------------------------------- parsing undoes printing

  /** A parenthesised command is its line between parentheses. */
  lemma PrintParens(c: Cmd<string>)
    requires c.List? || c.Pipe? || c.Back?
    ensures PrintExec(c) == [Sym('(')] + PrintLine(c) + [Sym(')')]
  {
    assert c.Pipe? ==> PrintBack(c) == PrintPipe(c);
    assert !c.List? ==> PrintLine(c) == PrintBack(c);
    match c
    case List(l, r) =>
      assert PrintExec(c) == [Sym('(')] + (PrintBack(l) + [Sym(';')] + PrintLine(r)) + [Sym(')')];
    case Pipe(l, r) =>
      assert PrintExec(c) == [Sym('(')] + (PrintExec(l) + [Sym('|')] + PrintPipe(r)) + [Sym(')')];
    case Back(d) =>
      assert PrintExec(c) == [Sym('(')] + (PrintBack(d) + [Sym('&')]) + [Sym(')')];
  }

  lemma Associate<T>(a: seq<T>, b: seq<T>, c: seq<T>)
    ensures (a + b) + c == a + (b + c)
  {
  }

  lemma DropFirst<T>(x: T, a: seq<T>)
    ensures ([x] + a)[0] == x && ([x] + a)[1..] == a
  {
  }

  /** The command under the redirections, and the redirections from the inside out. */
  function Core(c: Cmd<string>): (d: Cmd<string>)
    ensures !d.Redir?
  {
    if c.Redir? then Core(c.cmd) else c
  }

  function Redirs(c: Cmd<string>): seq<Target> {
    if c.Redir? then Redirs(c.cmd) + [Target(c.file, c.mode, c.fd)] else []
  }

  lemma {:induction false} WrapCore(c: Cmd<string>)
    ensures Wrap(Core(c), Triples(Redirs(c))) == c
  {
    if c.Redir? {
      WrapCore(c.cmd);
      var ts := Triples(Redirs(c));
      assert ts[..|ts| - 1] == Triples(Redirs(c.cmd));
    }
  }

  function PrintTargets(targets: seq<Target>): seq<Token> {
    if targets == [] then []
    else
      var last := targets[|targets| - 1];
      PrintTargets(targets[..|targets| - 1]) + [Sym(if last.fd == 0 then '<' else '>'), Word(last.file)]
  }

  lemma {:induction false} PrintExecSplits(c: Cmd<string>)
    ensures PrintExec(c) == PrintExec(Core(c)) + PrintTargets(Redirs(c))
  {
    if c.Redir? {
      PrintExecSplits(c.cmd);
      var ts := Redirs(c);
      assert ts[..|ts| - 1] == Redirs(c.cmd);
    }
  }

  predicate KnownTarget(t: Target) {
    (t.mode == O_RDONLY && t.fd == 0) || (t.mode == O_WRONLY + O_CREATE && t.fd == 1)
  }

  lemma {:induction false} RedirsKnown(c: Cmd<string>)
    requires Expressible(c)
    ensures Expressible(Core(c))
    ensures forall i :: 0 <= i < |Redirs(c)| ==> KnownTarget(Redirs(c)[i])
  {
    if c.Redir? {
      RedirsKnown(c.cmd);
    }
  }

  lemma {:induction false} PrintTargetsCons(t: Target, targets: seq<Target>)
    ensures PrintTargets([t] + targets) == [Sym(if t.fd == 0 then '<' else '>'), Word(t.file)] + PrintTargets(targets)
    decreases |targets|
  {
    if targets == [] {
      assert [t] + targets == [t];
      assert [t][..0] == [];
    } else {
      var n := |targets| - 1;
      assert ([t] + targets)[..n + 1] == [t] + targets[..n];
      PrintTargetsCons(t, targets[..n]);
    }
  }

  lemma {:induction false} ParsesTargets(targets: seq<Target>, rest: seq<Token>)
    requires forall i :: 0 <= i < |targets| ==> KnownTarget(targets[i])
    requires !Starts(rest, "<>")
    ensures ParseRedirs(PrintTargets(targets) + rest) == Found(targets, rest)
    decreases |targets|
  {
    if targets == [] {
      assert PrintTargets(targets) + rest == rest;
    } else {
      var t, more := targets[0], targets[1..];
      assert targets == [t] + more;
      PrintTargetsCons(t, more);
      var ts := PrintTargets(targets) + rest;
      assert ts[2..] == PrintTargets(more) + rest;
      ParsesTargets(more, rest);
    }
  }

  lemma ParsesWord(ts: seq<Token>, args: seq<string>, before: seq<Target>, more: seq<Target>, rest: seq<Token>)
    requires ts != [] && ts[0].Word? && |args| + 1 < MAXARGS && ParseRedirs(ts[1..]) == Found(more, rest)
    ensures ParseArgs(ts, args, before) == ParseArgs(rest, args + [ts[0].text], before + more)
  {
  }

  lemma {:induction false} ParsesArgs(argv: seq<string>, args: seq<string>, before: seq<Target>,
                                      targets: seq<Target>, rest: seq<Token>)
    requires |args| + |argv| < MAXARGS
    requires forall i :: 0 <= i < |targets| ==> KnownTarget(targets[i])
    requires rest == [] || Starts(rest, "|)&;")
    requires argv != [] || targets == []
    ensures ParseArgs(Words(argv) + PrintTargets(targets) + rest, args, before)
         == Ok(Wrap(Exec(args + argv), Triples(before + targets)), rest)
    decreases |argv|
  {
    var ts := Words(argv) + PrintTargets(targets) + rest;
    if argv == [] {
      assert ts == rest;
      assert args + argv == args && before + targets == before;
    } else {
      var more := argv[1..];
      assert ts[0] == Word(argv[0]);
      if more == [] {
        assert ts[1..] == PrintTargets(targets) + rest;
        ParsesTargets(targets, rest);
        ParsesWord(ts, args, before, targets, rest);
        assert args + argv == args + [argv[0]];
      } else {
        var next := Words(more) + PrintTargets(targets) + rest;
        assert ts[1..] == next;
        assert next[0] == Word(more[0]);
        assert before + [] == before;
        ParsesWord(ts, args, before, [], next);
        ParsesArgs(more, args + [argv[0]], before, targets, rest);
        assert args + [argv[0]] + more == args + argv by {
          assert argv == [argv[0]] + more;
          Associate(args, [argv[0]], more);
        }
      }
    }
  }

  lemma ParsesSimple(c: Cmd<string>, rest: seq<Token>)
    requires Expressible(c) && Core(c).Exec?
    requires rest == [] || Starts(rest, "|)&;")
    ensures ParseExec(PrintExec(c) + rest) == Ok(c, rest)
  {
    var argv, targets := Core(c).argv, Redirs(c);
    PrintExecSplits(c);
    RedirsKnown(c);
    WrapCore(c);
    ParsesSimpleTokens(argv, targets, rest);
  }

  lemma ParsesSimpleTokens(argv: seq<string>, targets: seq<Target>, rest: seq<Token>)
    requires |argv| < MAXARGS && forall i :: 0 <= i < |targets| ==> KnownTarget(targets[i])
    requires rest == [] || Starts(rest, "|)&;")
    ensures ParseExec(Words(argv) + PrintTargets(targets) + rest) == Ok(Wrap(Exec(argv), Triples(targets)), rest)
  {
    if argv == [] {
      assert Words(argv) + PrintTargets(targets) + rest == PrintTargets(targets) + rest;
      ParsesNoArgs(targets, rest);
    } else {
      ParsesSomeArgs(argv, targets, rest);
    }
  }

  lemma ParsesNoArgs(targets: seq<Target>, rest: seq<Token>)
    requires forall i :: 0 <= i < |targets| ==> KnownTarget(targets[i])
    requires rest == [] || Starts(rest, "|)&;")
    ensures ParseExec(PrintTargets(targets) + rest) == Ok(Wrap(Exec([]), Triples(targets)), rest)
  {
    ParsesTargets(targets, rest);
    SimpleStart(targets, rest);
  }

  lemma ParsesSomeArgs(argv: seq<string>, targets: seq<Target>, rest: seq<Token>)
    requires 0 < |argv| < MAXARGS && forall i :: 0 <= i < |targets| ==> KnownTarget(targets[i])
    requires rest == [] || Starts(rest, "|)&;")
    ensures ParseExec(Words(argv) + PrintTargets(targets) + rest) == Ok(Wrap(Exec(argv), Triples(targets)), rest)
  {
    var ts := Words(argv) + PrintTargets(targets) + rest;
    assert ts[0] == Word(argv[0]);
    assert ParseRedirs(ts) == Found([], ts);
    ParsesArgs(argv, [], [], targets, rest);
    assert [] + argv == argv && [] + targets == targets;
  }

  lemma SimpleStart(targets: seq<Target>, rest: seq<Token>)
    requires rest == [] || Starts(rest, "|)&;")
    ensures !Starts(PrintTargets(targets) + rest, "(")
  {
    if targets == [] {
      assert PrintTargets(targets) + rest == rest;
    } else {
      assert targets == [targets[0]] + targets[1..];
      PrintTargetsCons(targets[0], targets[1..]);
    }
  }

  lemma {:induction false} ParsesExec(c: Cmd<string>, rest: seq<Token>)
    requires Expressible(c)
    requires rest == [] || Starts(rest, "|)&;")
    ensures ParseExec(PrintExec(c) + rest) == Ok(c, rest)
    decreases c, 1
  {
    var core := Core(c);
    CoreSmaller(c);
    if core.Exec? {
      ParsesSimple(c, rest);
    } else {
      RedirsKnown(c);
      var tail := [Sym(')')] + PrintTargets(Redirs(c)) + rest;
      ParsesCompound(core, tail);
      ExecFromLine(c, rest, tail);
    }
  }

  lemma ExecFromLine(c: Cmd<string>, rest: seq<Token>, tail: seq<Token>)
    requires Expressible(c) && !Core(c).Exec?
    requires rest == [] || Starts(rest, "|)&;")
    requires tail == [Sym(')')] + PrintTargets(Redirs(c)) + rest
    requires ParseLine(PrintLine(Core(c)) + tail) == Ok(Core(c), tail)
    ensures ParseExec(PrintExec(c) + rest) == Ok(c, rest)
  {
    var core, targets := Core(c), Redirs(c);
    PrintExecSplits(c);
    RedirsKnown(c);
    WrapCore(c);
    PrintParens(core);
    ParsesTargets(targets, rest);
    Associate([Sym(')')], PrintTargets(targets), rest);
    ParenExec(PrintLine(core), core, targets, PrintTargets(targets) + rest, rest);
    ParenTokens(PrintLine(core), PrintTargets(targets), rest);
  }

  lemma ParenExec(line: seq<Token>, core: Cmd<string>, targets: seq<Target>, after: seq<Token>, rest: seq<Token>)
    requires ParseLine(line + ([Sym(')')] + after)) == Ok(core, [Sym(')')] + after)
    requires ParseRedirs(after) == Found(targets, rest)
    ensures ParseExec([Sym('(')] + (line + ([Sym(')')] + after))) == Ok(Wrap(core, Triples(targets)), rest)
  {
    DropFirst(Sym('('), line + ([Sym(')')] + after));
    DropFirst(Sym(')'), after);
  }

  lemma ParenTokens(line: seq<Token>, targets: seq<Token>, rest: seq<Token>)
    ensures [Sym('(')] + line + [Sym(')')] + targets + rest == [Sym('(')] + (line + ([Sym(')')] + targets + rest))
  {
  }

  /** Either the core is a strict part of the command, or the command is its own core. */
  lemma CoreSmaller(c: Cmd<string>)
    ensures Core(c) == c || Core(c) < c
  {
  }

  lemma JoinTokens(a: seq<Token>, t: Token, b: seq<Token>, rest: seq<Token>)
    ensures a + [t] + b + rest == a + ([t] + b + rest)
    ensures ([t] + b + rest)[0] == t && ([t] + b + rest)[1..] == b + rest
  {
  }

  /** A pipeline from its two sides. */
  lemma PipeFromParts(l: Cmd<string>, r: Cmd<string>, rest: seq<Token>)
    requires var tail := [Sym('|')] + PrintPipe(r) + rest; ParseExec(PrintExec(l) + tail) == Ok(l, tail)
    requires ParsePipe(PrintPipe(r) + rest) == Ok(r, rest)
    ensures ParsePipe(PrintPipe(Pipe(l, r)) + rest) == Ok(Pipe(l, r), rest)
  {
    JoinTokens(PrintExec(l), Sym('|'), PrintPipe(r), rest);
  }

  lemma {:induction false} ParsesPipe(c: Cmd<string>, rest: seq<Token>)
    requires Expressible(c)
    requires rest == [] || Starts(rest, ")&;")
    ensures ParsePipe(PrintPipe(c) + rest) == Ok(c, rest)
    decreases c, 2
  {
    if c.Pipe? {
      ParsesExec(c.left, [Sym('|')] + PrintPipe(c.right) + rest);
      ParsesPipe(c.right, rest);
      PipeFromParts(c.left, c.right, rest);
    } else {
      ParsesExec(c, rest);
    }
  }

  /** After a printed background chain, what `parsepipe` left and the `&` loop together give the command. */
  lemma {:induction false} ParsesBack(c: Cmd<string>, rest: seq<Token>)
    requires Expressible(c)
    requires rest == [] || Starts(rest, ")&;")
    ensures var r := ParsePipe(PrintBack(c) + rest);
      r.Ok? && ParseBacks(r.cmd, r.rest) == ParseBacks(c, rest)
    decreases c, 3
  {
    if c.Back? {
      BackToken(c.cmd, rest);
      ParsesBack(c.cmd, [Sym('&')] + rest);
    } else {
      ParsesPipe(c, rest);
    }
  }

  lemma BackToken(c: Cmd<string>, rest: seq<Token>)
    ensures PrintBack(Back(c)) + rest == PrintBack(c) + ([Sym('&')] + rest)
    ensures ParseBacks(c, [Sym('&')] + rest) == ParseBacks(Back(c), rest)
  {
    assert ([Sym('&')] + rest)[1..] == rest;
  }

  lemma {:induction false} ParsesLine(c: Cmd<string>, rest: seq<Token>)
    requires Expressible(c)
    requires rest == [] || Starts(rest, ")")
    ensures ParseLine(PrintLine(c) + rest) == Ok(c, rest)
    decreases c, 4
  {
    if c.List? {
      ParsesCompound(c, rest);
    } else {
      ParsesBack(c, rest);
    }
  }

  lemma ListFromParts(l: Cmd<string>, r: Cmd<string>, rest: seq<Token>)
    requires var tail := [Sym(';')] + PrintLine(r) + rest;
      var p := ParsePipe(PrintBack(l) + tail);
      p.Ok? && ParseBacks(p.cmd, p.rest) == ParseBacks(l, tail)
    requires ParseLine(PrintLine(r) + rest) == Ok(r, rest)
    ensures ParseLine(PrintLine(List(l, r)) + rest) == Ok(List(l, r), rest)
  {
    JoinTokens(PrintBack(l), Sym(';'), PrintLine(r), rest);
  }

  /** Commands that need parentheses inside a pipeline, read as a line of their own. */
  lemma {:induction false} ParsesCompound(c: Cmd<string>, rest: seq<Token>)
    requires Expressible(c) && (c.List? || c.Pipe? || c.Back?)
    requires rest == [] || Starts(rest, ")")
    ensures ParseLine(PrintLine(c) + rest) == Ok(c, rest)
    decreases c, 0
  {
    match c
    case List(l, r) =>
      ParsesBack(l, [Sym(';')] + PrintLine(r) + rest);
      ParsesLine(r, rest);
      ListFromParts(l, r, rest);
    case Pipe(l, r) =>
      ParsesExec(l, [Sym('|')] + PrintPipe(r) + rest);
      ParsesPipe(r, rest);
      PipeFromParts(l, r, rest);
    case Back(d) =>
      BackToken(d, rest);
      ParsesBack(d, [Sym('&')] + rest);
  }

  /** Round trip over tokens: every expressible command is what its printed form parses to. */
  lemma PrintParse(c: Cmd<string>)
    requires Expressible(c)
    ensures Parse(PrintLine(c)) == Ok(c, [])
  {
    ParsesLine(c, []);
    assert PrintLine(c) + [] == PrintLine(c);
  }

  // ---------------------------------------------------------------- what parsing yields

  lemma {:induction false} RedirsParsedKnown(ts: seq<Token>)
    ensures var r := ParseRedirs(ts); r.Found? ==> forall i :: 0 <= i < |r.targets| ==> KnownTarget(r.targets[i])
    decreases |ts|
  {
    if Starts(ts, "<>") && |ts| >= 2 && ts[1].Word? {
      RedirsParsedKnown(ts[2..]);
    }
  }

  lemma {:induction false} WrapExpressible(c: Cmd<string>, targets: seq<Target>)
    requires Expressible(c) && forall i :: 0 <= i < |targets| ==> KnownTarget(targets[i])
    ensures Expressible(Wrap(c, Triples(targets)))
    decreases |targets|
  {
    if targets != [] {
      var n := |targets| - 1;
      assert Triples(targets)[..n] == Triples(targets[..n]);
      WrapExpressible(c, targets[..n]);
    }
  }

  lemma WrapParsed(c: Cmd<string>, ts: seq<Token>)
    requires Expressible(c)
    ensures var t := ParseRedirs(ts); t.Found? ==> Expressible(Wrap(c, Triples(t.targets)))
  {
    RedirsParsedKnown(ts);
    var t := ParseRedirs(ts);
    if t.Found? {
      WrapExpressible(c, t.targets);
    }
  }

  lemma {:induction false} ArgsExpressible(ts: seq<Token>, args: seq<string>, targets: seq<Target>)
    requires |args| < MAXARGS && forall i :: 0 <= i < |targets| ==> KnownTarget(targets[i])
    ensures var r := ParseArgs(ts, args, targets); r.Ok? ==> Expressible(r.cmd)
    decreases |ts|
  {
    if ts == [] || Starts(ts, "|)&;") {
      WrapExpressible(Exec(args), targets);
    } else if ts[0].Word? && |args| + 1 < MAXARGS {
      RedirsParsedKnown(ts[1..]);
      var r := ParseRedirs(ts[1..]);
      if r.Found? {
        ArgsExpressible(r.rest, args + [ts[0].text], targets + r.targets);
      }
    }
  }

  lemma {:induction false} ExecExpressible(ts: seq<Token>)
    ensures var r := ParseExec(ts); r.Ok? ==> Expressible(r.cmd)
    decreases |ts|, 0
  {
    if Starts(ts, "(") {
      LineExpressible(ts[1..]);
      var r := ParseLine(ts[1..]);
      if r.Ok? && Starts(r.rest, ")") {
        WrapParsed(r.cmd, r.rest[1..]);
      }
    } else {
      RedirsParsedKnown(ts);
      var t := ParseRedirs(ts);
      if t.Found? {
        ArgsExpressible(t.rest, [], t.targets);
      }
    }
  }

  lemma {:induction false} PipeExpressible(ts: seq<Token>)
    ensures var r := ParsePipe(ts); r.Ok? ==> Expressible(r.cmd)
    decreases |ts|, 1
  {
    ExecExpressible(ts);
    var r := ParseExec(ts);
    if r.Ok? && Starts(r.rest, "|") {
      PipeExpressible(r.rest[1..]);
    }
  }

  lemma {:induction false} BacksExpressible(c: Cmd<string>, ts: seq<Token>)
    requires Expressible(c)
    ensures Expressible(ParseBacks(c, ts).0)
    decreases |ts|
  {
    if Starts(ts, "&") {
      BacksExpressible(Back(c), ts[1..]);
    }
  }

  lemma {:induction false} LineExpressible(ts: seq<Token>)
    ensures var r := ParseLine(ts); r.Ok? ==> Expressible(r.cmd)
    decreases |ts|, 2
  {
    PipeExpressible(ts);
    var r := ParsePipe(ts);
    if r.Ok? {
      BacksExpressible(r.cmd, r.rest);
      var (c, rest) := ParseBacks(r.cmd, r.rest);
      if Starts(rest, ";") {
        LineExpressible(rest[1..]);
      }
    }
  }

  /** Whatever a token line parses to, printing and parsing again gives the same command. */
  lemma ParsePrintParse(ts: seq<Token>)
    requires Parse(ts).Ok?
    ensures Expressible(Parse(ts).cmd)
    ensures Parse(PrintLine(Parse(ts).cmd)) == Parse(ts)
  {
    LineExpressible(ts);
    PrintParse(Parse(ts).cmd);
  }
}
