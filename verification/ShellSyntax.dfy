/**
  The language of xv6/sh.c, given by syntax trees instead of a parser: which token lists are commands, and what
  each means. The recursive-descent parser of ShellGrammar accepts exactly these and gives them that meaning.
 */
module ShellSyntax {
  import opened ShellGrammar

  datatype Op = From | To | AppendTo

  datatype Redirection = Redirection(op: Op, file: string)

  datatype Redirections = NoMore | Also(r: Redirection, next: Redirections)

  /** Words and redirections of a simple command, in any order. */
  datatype Items = Nothing | Arg(text: string, next: Items) | Redirect(r: Redirection, next: Items)

  datatype Element = Simple(items: Items) | Block(line: Line, redirs: Redirections)

  datatype Pipeline = Single(e: Element) | Into(e: Element, next: Pipeline)

  /** A pipeline with as many `&`s, and what follows a `;` if one does. */
  datatype Line = Final(p: Pipeline, backs: nat) | Then(p: Pipeline, backs: nat, next: Line)

  // ---------------------------------------------------------------- how trees are written

  function OpToken(op: Op): Token {
    match op
    case From => Sym('<')
    case To => Sym('>')
    case AppendTo => Append
  }

  function RedirTokens(rs: Redirections): seq<Token> {
    match rs
    case NoMore => []
    case Also(r, next) => [OpToken(r.op), Word(r.file)] + RedirTokens(next)
  }

  function ItemTokens(items: Items): seq<Token> {
    match items
    case Nothing => []
    case Arg(w, next) => [Word(w)] + ItemTokens(next)
    case Redirect(r, next) => [OpToken(r.op), Word(r.file)] + ItemTokens(next)
  }

  function ElementTokens(e: Element): seq<Token> {
    match e
    case Simple(items) => ItemTokens(items)
    case Block(line, redirs) => [Sym('(')] + LineTokens(line) + [Sym(')')] + RedirTokens(redirs)
  }

  function PipeTokens(p: Pipeline): seq<Token> {
    match p
    case Single(e) => ElementTokens(e)
    case Into(e, next) => ElementTokens(e) + [Sym('|')] + PipeTokens(next)
  }

  function Ampersands(n: nat): seq<Token> {
    if n == 0 then [] else [Sym('&')] + Ampersands(n - 1)
  }

  function LineTokens(l: Line): seq<Token> {
    match l
    case Final(p, backs) => PipeTokens(p) + Ampersands(backs)
    case Then(p, backs, next) => PipeTokens(p) + Ampersands(backs) + [Sym(';')] + LineTokens(next)
  }

  // ---------------------------------------------------------------- what trees mean

  function Args(items: Items): seq<string> {
    match items
    case Nothing => []
    case Arg(w, next) => [w] + Args(next)
    case Redirect(_, next) => Args(next)
  }

  function RedirsAmong(items: Items): Redirections {
    match items
    case Nothing => NoMore
    case Arg(_, next) => RedirsAmong(next)
    case Redirect(r, next) => Also(r, RedirsAmong(next))
  }

  /** The first redirection is innermost. `<` reads into descriptor 0; `>` and `>>` both create and write from 1. */
  function Redirected(c: Cmd<string>, rs: Redirections): Cmd<string>
    decreases rs
  {
    match rs
    case NoMore => c
    case Also(r, next) =>
      Redirected(Redir(c, r.file, if r.op == From then 0 else 0x201, if r.op == From then 0 else 1), next)
  }

  function ElementCmd(e: Element): Cmd<string> {
    match e
    case Simple(items) => Redirected(Exec(Args(items)), RedirsAmong(items))
    case Block(line, redirs) => Redirected(LineCmd(line), redirs)
  }

  function PipeCmd(p: Pipeline): Cmd<string> {
    match p
    case Single(e) => ElementCmd(e)
    case Into(e, next) => Pipe(ElementCmd(e), PipeCmd(next))
  }

  function Backed(c: Cmd<string>, n: nat): Cmd<string>
    decreases n
  {
    if n == 0 then c else Backed(Back(c), n - 1)
  }

  function LineCmd(l: Line): Cmd<string> {
    match l
    case Final(p, backs) => Backed(PipeCmd(p), backs)
    case Then(p, backs, next) => List(Backed(PipeCmd(p), backs), LineCmd(next))
  }

  /** Every simple command has at most nine words. */
  predicate FitsElement(e: Element) {
    match e
    case Simple(items) => |Args(items)| <= 9
    case Block(line, _) => FitsLine(line)
  }

  predicate FitsPipe(p: Pipeline) {
    match p
    case Single(e) => FitsElement(e)
    case Into(e, next) => FitsElement(e) && FitsPipe(next)
  }

  predicate FitsLine(l: Line) {
    match l
    case Final(p, _) => FitsPipe(p)
    case Then(p, _, next) => FitsPipe(p) && FitsLine(next)
  }

  // ---------------------------------------------------------------- redirections

  function TargetOf(r: Redirection): Target {
    RedirTarget(OpToken(r.op), r.file)
  }

  function Targets(rs: Redirections): seq<Target> {
    match rs
    case NoMore => []
    case Also(r, next) => [TargetOf(r)] + Targets(next)
  }

  lemma {:induction false} WrapFirst(c: Cmd<string>, t: Target, ts: seq<Target>)
    ensures Wrap(c, Triples([t] + ts)) == Wrap(Redir(c, t.file, t.mode, t.fd), Triples(ts))
    decreases |ts|
  {
    var n := |ts|;
    var all := Triples([t] + ts);
    if n == 0 {
      assert all[..0] == [];
    } else {
      WrapFirst(c, t, ts[..n - 1]);
      assert all[..n] == Triples([t] + ts[..n - 1]);
      assert Triples(ts)[..n - 1] == Triples(ts[..n - 1]);
    }
  }

  lemma {:induction false} WrapRedirected(c: Cmd<string>, rs: Redirections)
    ensures Wrap(c, Triples(Targets(rs))) == Redirected(c, rs)
    decreases rs
  {
    match rs
    case NoMore =>
    case Also(r, next) =>
      var t := TargetOf(r);
      WrapFirst(c, t, Targets(next));
      WrapRedirected(Redir(c, t.file, t.mode, t.fd), next);
  }

  lemma TwoThenMore(s: Token, t: Token, a: seq<Token>, b: seq<Token>)
    ensures [s, t] + a + b == [s, t] + (a + b)
    ensures ([s, t] + (a + b))[0] == s && ([s, t] + (a + b))[1] == t && ([s, t] + (a + b))[2..] == a + b
  {
  }

  lemma RedirStep(r: Redirection, more: seq<Token>, rest: seq<Token>)
    ensures var x := ParseRedirs(more + rest);
      ParseRedirs([OpToken(r.op), Word(r.file)] + more + rest) ==
      if x.NoFile? then NoFile else Found([TargetOf(r)] + x.targets, x.rest)
  {
    TwoThenMore(OpToken(r.op), Word(r.file), more, rest);
  }

  lemma {:induction false} RedirsParse(rs: Redirections, rest: seq<Token>)
    requires !Starts(rest, "<>")
    ensures ParseRedirs(RedirTokens(rs) + rest) == Found(Targets(rs), rest)
  {
    match rs
    case NoMore =>
      assert RedirTokens(rs) + rest == rest;
    case Also(r, next) =>
      RedirsParse(next, rest);
      RedirStep(r, RedirTokens(next), rest);
  }

  lemma {:induction false} RedirsParsed(ts: seq<Token>) returns (rs: Redirections)
    requires ParseRedirs(ts).Found?
    ensures var r := ParseRedirs(ts); r.targets == Targets(rs) && ts == RedirTokens(rs) + r.rest
    decreases |ts|
  {
    if Starts(ts, "<>") {
      var more := RedirsParsed(ts[2..]);
      var op := if ts[0] == Sym('<') then From else if ts[0] == Append then AppendTo else To;
      rs := Also(Redirection(op, ts[1].text), more);
      FirstTwo(ts);
      TwoThenMore(ts[0], ts[1], RedirTokens(more), ParseRedirs(ts).rest);
    } else {
      rs := NoMore;
    }
  }

  lemma FirstTwo(ts: seq<Token>)
    requires |ts| >= 2
    ensures ts == [ts[0], ts[1]] + ts[2..]
  {
  }

  // ---------------------------------------------------------------- simple commands

  /** The targets of the redirections that items begin with. */
  function Leading(items: Items): seq<Target> {
    if items.Redirect? then [TargetOf(items.r)] + Leading(items.next) else []
  }

  /** What follows them: nothing, or a word first. */
  function After(items: Items): (r: Items)
    ensures !r.Redirect?
  {
    if items.Redirect? then After(items.next) else items
  }

  lemma {:induction false} LeadingParse(items: Items, rest: seq<Token>)
    requires !Starts(rest, "<>")
    ensures ParseRedirs(ItemTokens(items) + rest) == Found(Leading(items), ItemTokens(After(items)) + rest)
  {
    match items
    case Nothing =>
      assert ItemTokens(items) + rest == rest;
    case Arg(w, next) =>
      assert (ItemTokens(items) + rest)[0] == Word(w);
    case Redirect(r, next) =>
      LeadingParse(next, rest);
      RedirStep(r, ItemTokens(next), rest);
  }

  lemma {:induction false} LeadingSplit(items: Items)
    ensures Args(items) == Args(After(items))
    ensures Targets(RedirsAmong(items)) == Leading(items) + Targets(RedirsAmong(After(items)))
  {
    if items.Redirect? {
      LeadingSplit(items.next);
      Associate([TargetOf(items.r)], Leading(items.next), Targets(RedirsAmong(After(items))));
    }
  }

  /** Redirections put before other items. */
  function Prepend(rs: Redirections, more: Items): Items {
    match rs
    case NoMore => more
    case Also(r, next) => Redirect(r, Prepend(next, more))
  }

  lemma {:induction false} Prepended(rs: Redirections, more: Items)
    ensures ItemTokens(Prepend(rs, more)) == RedirTokens(rs) + ItemTokens(more)
    ensures Args(Prepend(rs, more)) == Args(more)
    ensures Targets(RedirsAmong(Prepend(rs, more))) == Targets(rs) + Targets(RedirsAmong(more))
  {
    if rs.Also? {
      Prepended(rs.next, more);
      TwoThenMore(OpToken(rs.r.op), Word(rs.r.file), RedirTokens(rs.next), ItemTokens(more));
      Associate([TargetOf(rs.r)], Targets(rs.next), Targets(RedirsAmong(more)));
    }
  }

  lemma WordStep(w: string, more: seq<Token>, rest: seq<Token>, args: seq<string>, targets: seq<Target>)
    ensures var r := ParseRedirs(more + rest);
      ParseArgs([Word(w)] + more + rest, args, targets) ==
      if |args| + 1 >= MAXARGS then Err(TooManyArgs)
      else if r.NoFile? then Err(MissingFile)
      else ParseArgs(r.rest, args + [w], targets + r.targets)
  {
    Associate([Word(w)], more, rest);
    DropFirst(Word(w), more + rest);
  }

  /** Items from a word on: words and redirections are collected in order, up to the tenth word. */
  lemma {:induction false} ArgsParse(items: Items, args: seq<string>, targets: seq<Target>, rest: seq<Token>)
    requires |args| < MAXARGS && !items.Redirect? && (rest == [] || Starts(rest, "|)&;"))
    ensures ParseArgs(ItemTokens(items) + rest, args, targets) ==
      if |args| + |Args(items)| >= MAXARGS then Err(TooManyArgs)
      else Ok(Wrap(Exec(args + Args(items)), Triples(targets + Targets(RedirsAmong(items)))), rest)
    decreases items
  {
    if items.Nothing? {
      assert ItemTokens(items) + rest == rest;
      assert args + Args(items) == args && targets + Targets(RedirsAmong(items)) == targets;
    } else {
      var w, more := items.text, items.next;
      WordStep(w, ItemTokens(more), rest, args, targets);
      LeadingParse(more, rest);
      LeadingSplit(more);
      if |args| + 1 < MAXARGS {
        AfterSmaller(more);
        ArgsParse(After(more), args + [w], targets + Leading(more), rest);
        Associate(args, [w], Args(more));
        Associate(targets, Leading(more), Targets(RedirsAmong(After(more))));
      }
    }
  }

  lemma {:induction false} AfterSmaller(items: Items)
    ensures After(items) == items || After(items) < items
  {
    if items.Redirect? {
      AfterSmaller(items.next);
    }
  }

  lemma SimpleParse(items: Items, rest: seq<Token>)
    requires rest == [] || Starts(rest, "|)&;")
    ensures ParseExec(ItemTokens(items) + rest) ==
      if |Args(items)| >= MAXARGS then Err(TooManyArgs) else Ok(ElementCmd(Simple(items)), rest)
  {
    NotParen(items, rest);
    LeadingParse(items, rest);
    LeadingSplit(items);
    ArgsParse(After(items), [], Leading(items), rest);
    assert [] + Args(After(items)) == Args(items);
    WrapRedirected(Exec(Args(items)), RedirsAmong(items));
  }

  lemma NotParen(items: Items, rest: seq<Token>)
    requires rest == [] || Starts(rest, "|)&;")
    ensures !Starts(ItemTokens(items) + rest, "(")
  {
    if items.Nothing? {
      assert ItemTokens(items) + rest == rest;
    } else {
      assert (ItemTokens(items) + rest)[0] == ItemTokens(items)[0];
    }
  }

  lemma {:induction false} ArgsParsed(ts: seq<Token>, args: seq<string>, targets: seq<Target>) returns (items: Items)
    requires |args| < MAXARGS && ParseArgs(ts, args, targets).Ok?
    ensures var r := ParseArgs(ts, args, targets);
      && ts == ItemTokens(items) + r.rest && |args| + |Args(items)| < MAXARGS
      && r.cmd == Wrap(Exec(args + Args(items)), Triples(targets + Targets(RedirsAmong(items))))
    decreases |ts|
  {
    if ts == [] || Starts(ts, "|)&;") {
      items := Nothing;
      assert args + Args(items) == args && targets + Targets(RedirsAmong(items)) == targets;
    } else {
      var w := ts[0].text;
      var rs := RedirsParsed(ts[1..]);
      var more := ArgsParsed(ParseRedirs(ts[1..]).rest, args + [w], targets + Targets(rs));
      items := Arg(w, Prepend(rs, more));
      Prepended(rs, more);
      WordTokens(ts, w, RedirTokens(rs), ItemTokens(more), ParseArgs(ts, args, targets).rest);
      Associate(args, [w], Args(more));
      Associate(targets, Targets(rs), Targets(RedirsAmong(more)));
    }
  }

  lemma WordTokens(ts: seq<Token>, w: string, a: seq<Token>, b: seq<Token>, rest: seq<Token>)
    requires ts != [] && ts[0] == Word(w) && ts[1..] == a + (b + rest)
    ensures ts == [Word(w)] + (a + b) + rest
  {
  }

  // ---------------------------------------------------------------- what is written is parsed

  lemma {:induction false} ElementParse(e: Element, rest: seq<Token>)
    requires rest == [] || Starts(rest, "|)&;")
    ensures ParseExec(ElementTokens(e) + rest) ==
      if FitsElement(e) then Ok(ElementCmd(e), rest) else Err(TooManyArgs)
    decreases e, 0
  {
    match e
    case Simple(items) =>
      SimpleParse(items, rest);
    case Block(line, redirs) =>
      var after := RedirTokens(redirs) + rest;
      LineParse(line, [Sym(')')] + after);
      RedirsParse(redirs, rest);
      WrapRedirected(LineCmd(line), redirs);
      BlockStep(LineTokens(line), after);
      BlockTokens(LineTokens(line), RedirTokens(redirs), rest);
  }

  lemma BlockTokens(line: seq<Token>, redirs: seq<Token>, rest: seq<Token>)
    ensures [Sym('(')] + line + [Sym(')')] + redirs + rest == [Sym('(')] + (line + ([Sym(')')] + (redirs + rest)))
  {
  }

  lemma BlockStep(line: seq<Token>, after: seq<Token>)
    requires var r := ParseLine(line + ([Sym(')')] + after)); r.Ok? ==> r.rest == [Sym(')')] + after
    ensures var r := ParseLine(line + ([Sym(')')] + after));
      var x := ParseRedirs(after);
      ParseExec([Sym('(')] + (line + ([Sym(')')] + after))) ==
      if r.Err? then r
      else if x.NoFile? then Err(MissingFile)
      else Ok(Wrap(r.cmd, Triples(x.targets)), x.rest)
  {
    DropFirst(Sym('('), line + ([Sym(')')] + after));
    DropFirst(Sym(')'), after);
  }

  lemma {:induction false} PipeParse(p: Pipeline, rest: seq<Token>)
    requires rest == [] || Starts(rest, ")&;")
    ensures ParsePipe(PipeTokens(p) + rest) == if FitsPipe(p) then Ok(PipeCmd(p), rest) else Err(TooManyArgs)
    decreases p, 1
  {
    match p
    case Single(e) =>
      ElementParse(e, rest);
    case Into(e, next) =>
      ElementParse(e, [Sym('|')] + PipeTokens(next) + rest);
      PipeParse(next, rest);
      JoinTokens(ElementTokens(e), Sym('|'), PipeTokens(next), rest);
  }

  lemma {:induction false} BacksParse(c: Cmd<string>, n: nat, rest: seq<Token>)
    requires !Starts(rest, "&")
    ensures ParseBacks(c, Ampersands(n) + rest) == (Backed(c, n), rest)
    decreases n
  {
    if n == 0 {
      assert Ampersands(n) + rest == rest;
    } else {
      BacksParse(Back(c), n - 1, rest);
      assert Ampersands(n) + rest == [Sym('&')] + (Ampersands(n - 1) + rest);
      DropFirst(Sym('&'), Ampersands(n - 1) + rest);
    }
  }

  lemma AmpersandsStart(n: nat, rest: seq<Token>)
    requires rest == [] || Starts(rest, ");")
    ensures Ampersands(n) + rest == [] || Starts(Ampersands(n) + rest, ")&;")
  {
    if n == 0 {
      assert Ampersands(n) + rest == rest;
    }
  }

  /** A pipeline with its `&`s, before the end or a `;`. */
  lemma BackedParse(p: Pipeline, n: nat, rest: seq<Token>)
    requires rest == [] || Starts(rest, ");")
    requires ParsePipe(PipeTokens(p) + (Ampersands(n) + rest)) ==
      if FitsPipe(p) then Ok(PipeCmd(p), Ampersands(n) + rest) else Err(TooManyArgs)
    ensures ParseLine(PipeTokens(p) + Ampersands(n) + rest) ==
      if !FitsPipe(p) then Err(TooManyArgs)
      else if !Starts(rest, ";") then Ok(Backed(PipeCmd(p), n), rest)
      else
        var r := ParseLine(rest[1..]);
        if r.Err? then r else Ok(List(Backed(PipeCmd(p), n), r.cmd), r.rest)
  {
    Associate(PipeTokens(p), Ampersands(n), rest);
    BacksParse(PipeCmd(p), n, rest);
  }

  lemma {:induction false} LineParse(l: Line, rest: seq<Token>)
    requires rest == [] || Starts(rest, ")")
    ensures ParseLine(LineTokens(l) + rest) == if FitsLine(l) then Ok(LineCmd(l), rest) else Err(TooManyArgs)
    decreases l, 2
  {
    match l
    case Final(p, n) =>
      AmpersandsStart(n, rest);
      PipeParse(p, Ampersands(n) + rest);
      BackedParse(p, n, rest);
    case Then(p, n, next) =>
      var tail := [Sym(';')] + LineTokens(next) + rest;
      AmpersandsStart(n, tail);
      PipeParse(p, Ampersands(n) + tail);
      BackedParse(p, n, tail);
      LineParse(next, rest);
      JoinTokens(PipeTokens(p) + Ampersands(n), Sym(';'), LineTokens(next), rest);
  }

  /**
    Every line written from a syntax tree parses to what the tree means, wherever redirections stand among the
    words; only a simple command of ten words or more is refused.
   */
  lemma WrittenIsParsed(l: Line)
    ensures Parse(LineTokens(l)) == if FitsLine(l) then Ok(LineCmd(l), []) else Err(TooManyArgs)
  {
    LineParse(l, []);
    assert LineTokens(l) + [] == LineTokens(l);
  }

  // ---------------------------------------------------------------- what is parsed was so written

  lemma {:induction false} ElementParsed(ts: seq<Token>) returns (e: Element)
    requires ParseExec(ts).Ok?
    ensures var r := ParseExec(ts); FitsElement(e) && ts == ElementTokens(e) + r.rest && r.cmd == ElementCmd(e)
    decreases |ts|, 0
  {
    if Starts(ts, "(") {
      e := BlockParsed(ts);
    } else {
      var rs := RedirsParsed(ts);
      var r := ParseRedirs(ts);
      var more := ArgsParsed(r.rest, [], r.targets);
      e := Simple(Prepend(rs, more));
      Prepended(rs, more);
      assert [] + Args(more) == Args(more);
      WrapRedirected(Exec(Args(more)), RedirsAmong(Prepend(rs, more)));
      Associate(RedirTokens(rs), ItemTokens(more), ParseExec(ts).rest);
    }
  }

  lemma Enclosed(ts: seq<Token>, line: seq<Token>, redirs: seq<Token>, rest: seq<Token>)
    requires ts != [] && ts[0] == Sym('(') && ts[1..] == line + [Sym(')')] + redirs + rest
    ensures ts == [Sym('(')] + line + [Sym(')')] + redirs + rest
  {
    assert ts == [ts[0]] + ts[1..];
  }

  lemma {:induction false} BlockParsed(ts: seq<Token>) returns (e: Element)
    requires Starts(ts, "(") && ParseExec(ts).Ok?
    ensures var r := ParseExec(ts); FitsElement(e) && ts == ElementTokens(e) + r.rest && r.cmd == ElementCmd(e)
    decreases |ts|, 0, 0
  {
    var line := LineParsed(ts[1..]);
    var after := ParseLine(ts[1..]).rest;
    var redirs := RedirsParsed(after[1..]);
    e := Block(line, redirs);
    WrapRedirected(LineCmd(line), redirs);
    Rejoin(ts[1..], LineTokens(line), after, Sym(')'), RedirTokens(redirs), ParseRedirs(after[1..]).rest);
    Enclosed(ts, LineTokens(line), RedirTokens(redirs), ParseRedirs(after[1..]).rest);
  }

  lemma Rejoin(ts: seq<Token>, a: seq<Token>, more: seq<Token>, t: Token, b: seq<Token>, rest: seq<Token>)
    requires ts == a + more && more != [] && more[0] == t && more[1..] == b + rest
    ensures ts == a + [t] + b + rest
  {
    assert more == [t] + more[1..];
  }

  lemma {:induction false} PipeParsed(ts: seq<Token>) returns (p: Pipeline)
    requires ParsePipe(ts).Ok?
    ensures var r := ParsePipe(ts); FitsPipe(p) && ts == PipeTokens(p) + r.rest && r.cmd == PipeCmd(p)
    decreases |ts|, 1
  {
    var e := ElementParsed(ts);
    var rest := ParseExec(ts).rest;
    if !Starts(rest, "|") {
      p := Single(e);
    } else {
      var next := PipeParsed(rest[1..]);
      p := Into(e, next);
      Rejoin(ts, ElementTokens(e), rest, Sym('|'), PipeTokens(next), ParsePipe(rest[1..]).rest);
    }
  }

  lemma {:induction false} BacksParsed(c: Cmd<string>, ts: seq<Token>) returns (n: nat)
    ensures var r := ParseBacks(c, ts); ts == Ampersands(n) + r.1 && r.0 == Backed(c, n)
    decreases |ts|
  {
    if Starts(ts, "&") {
      var m := BacksParsed(Back(c), ts[1..]);
      n := m + 1;
      assert ts == [Sym('&')] + ts[1..];
    } else {
      n := 0;
    }
  }

  lemma {:induction false} LineParsed(ts: seq<Token>) returns (l: Line)
    requires ParseLine(ts).Ok?
    ensures var r := ParseLine(ts); FitsLine(l) && ts == LineTokens(l) + r.rest && r.cmd == LineCmd(l)
    decreases |ts|, 2
  {
    var p := PipeParsed(ts);
    var first := ParsePipe(ts);
    var n := BacksParsed(first.cmd, first.rest);
    var rest := ParseBacks(first.cmd, first.rest).1;
    Associate(PipeTokens(p), Ampersands(n), rest);
    if !Starts(rest, ";") {
      l := Final(p, n);
    } else {
      var next := LineParsed(rest[1..]);
      l := Then(p, n, next);
      Rejoin(ts, PipeTokens(p) + Ampersands(n), rest, Sym(';'), LineTokens(next), ParseLine(rest[1..]).rest);
    }
  }

  /** Whatever is parsed is written from a syntax tree that means what was parsed. */
  lemma ParsedIsWritten(ts: seq<Token>) returns (l: Line)
    requires Parse(ts).Ok?
    ensures FitsLine(l) && ts == LineTokens(l) && Parse(ts).cmd == LineCmd(l)
  {
    l := LineParsed(ts);
    assert LineTokens(l) + [] == LineTokens(l);
  }

  // ---------------------------------------------------------------- what is refused

  /** A redirection without its file. */
  predicate Fileless(ts: seq<Token>) {
    Starts(ts, "<>") && (|ts| < 2 || !ts[1].Word?)
  }

  lemma {:induction false} LeadingFileless(items: Items, bad: seq<Token>)
    requires Fileless(bad)
    ensures ParseRedirs(ItemTokens(items) + bad) ==
      if After(items).Nothing? then NoFile else Found(Leading(items), ItemTokens(After(items)) + bad)
  {
    match items
    case Nothing =>
      assert ItemTokens(items) + bad == bad;
    case Arg(w, next) =>
      assert (ItemTokens(items) + bad)[0] == Word(w);
    case Redirect(r, next) =>
      LeadingFileless(next, bad);
      RedirStep(r, ItemTokens(next), bad);
  }

  lemma {:induction false} ArgsFileless(items: Items, args: seq<string>, targets: seq<Target>, bad: seq<Token>)
    requires Fileless(bad) && items.Arg? && |args| + |Args(items)| < MAXARGS
    ensures ParseArgs(ItemTokens(items) + bad, args, targets) == Err(MissingFile)
    decreases items
  {
    var w, more := items.text, items.next;
    WordStep(w, ItemTokens(more), bad, args, targets);
    LeadingFileless(more, bad);
    LeadingSplit(more);
    if !After(more).Nothing? {
      AfterSmaller(more);
      ArgsFileless(After(more), args + [w], targets + Leading(more), bad);
    }
  }

  lemma ExecFails(ts: seq<Token>, e: Error)
    requires ParseExec(ts) == Err(e)
    ensures Parse(ts) == Err(e)
  {
    assert ParsePipe(ts) == Err(e);
    assert ParseLine(ts) == Err(e);
  }

  /** A redirection at the end or before a symbol lacks its file. */
  lemma FileMissing(items: Items, bad: seq<Token>)
    requires Fileless(bad) && |Args(items)| < MAXARGS
    ensures Parse(ItemTokens(items) + bad) == Err(MissingFile)
  {
    var ts := ItemTokens(items) + bad;
    LeadingFileless(items, bad);
    LeadingSplit(items);
    if items.Nothing? {
      assert ts == bad;
    } else {
      assert ts[0] == ItemTokens(items)[0];
    }
    assert !Starts(ts, "(");
    if !After(items).Nothing? {
      ArgsFileless(After(items), [], Leading(items), bad);
    }
    ExecFails(ts, MissingFile);
  }

  lemma {:induction false} ArgsThenParen(items: Items, args: seq<string>, targets: seq<Target>, rest: seq<Token>)
    requires Starts(rest, "(") && !items.Redirect? && |args| + |Args(items)| < MAXARGS
    ensures ParseArgs(ItemTokens(items) + rest, args, targets) == Err(Syntax)
    decreases items
  {
    if items.Nothing? {
      assert ItemTokens(items) + rest == rest;
    } else {
      var w, more := items.text, items.next;
      WordStep(w, ItemTokens(more), rest, args, targets);
      LeadingParse(more, rest);
      LeadingSplit(more);
      AfterSmaller(more);
      ArgsThenParen(After(more), args + [w], targets + Leading(more), rest);
    }
  }

  /** A parenthesis after words or redirections is a syntax error. */
  lemma ParenAfterWords(items: Items, rest: seq<Token>)
    requires items != Nothing && Starts(rest, "(") && |Args(items)| < MAXARGS
    ensures Parse(ItemTokens(items) + rest) == Err(Syntax)
  {
    var ts := ItemTokens(items) + rest;
    assert ts[0] == ItemTokens(items)[0];
    LeadingParse(items, rest);
    LeadingSplit(items);
    ArgsThenParen(After(items), [], Leading(items), rest);
    ExecFails(ts, Syntax);
  }

  /** An opening parenthesis without its closing one, */
  lemma ParenNotClosed(l: Line)
    requires FitsLine(l)
    ensures Parse([Sym('(')] + LineTokens(l)) == Err(MissingParen)
  {
    LineParse(l, []);
    assert LineTokens(l) + [] == LineTokens(l);
    DropFirst(Sym('('), LineTokens(l));
    ExecFails([Sym('(')] + LineTokens(l), MissingParen);
  }

  /** and a closing one too many. */
  lemma ParenTooMany(l: Line, rest: seq<Token>)
    requires FitsLine(l) && Starts(rest, ")")
    ensures Parse(LineTokens(l) + rest) == Err(Leftovers)
  {
    LineParse(l, rest);
  }

  // ---------------------------------------------------------------- `>>` is `>`

  /** The tokens with `>` for every `>>`. */
  function NoAppend(ts: seq<Token>): (r: seq<Token>)
    ensures |r| == |ts|
    ensures forall i :: 0 <= i < |ts| ==> r[i] == if ts[i] == Append then Sym('>') else ts[i]
  {
    seq(|ts|, i requires 0 <= i < |ts| => if ts[i] == Append then Sym('>') else ts[i])
  }

  function NoAppendRest(r: Result): Result {
    if r.Err? then r else Ok(r.cmd, NoAppend(r.rest))
  }

  lemma NoAppendFrom(ts: seq<Token>, k: nat)
    requires k <= |ts|
    ensures NoAppend(ts)[k..] == NoAppend(ts[k..])
  {
  }

  lemma NoAppendStarts(ts: seq<Token>, cs: string)
    ensures Starts(NoAppend(ts), cs) <==> Starts(ts, cs)
  {
  }

  lemma {:induction false} SameRedirs(ts: seq<Token>)
    ensures var r := ParseRedirs(ts);
      ParseRedirs(NoAppend(ts)) == if r.NoFile? then NoFile else Found(r.targets, NoAppend(r.rest))
    decreases |ts|
  {
    NoAppendStarts(ts, "<>");
    if Starts(ts, "<>") && |ts| >= 2 && ts[1].Word? {
      SameRedirs(ts[2..]);
      NoAppendFrom(ts, 2);
    }
  }

  lemma {:induction false} SameArgs(ts: seq<Token>, args: seq<string>, targets: seq<Target>)
    ensures ParseArgs(NoAppend(ts), args, targets) == NoAppendRest(ParseArgs(ts, args, targets))
    decreases |ts|
  {
    NoAppendStarts(ts, "|)&;");
    if ts != [] && !Starts(ts, "|)&;") && ts[0].Word? && |args| + 1 < MAXARGS {
      SameRedirs(ts[1..]);
      NoAppendFrom(ts, 1);
      var r := ParseRedirs(ts[1..]);
      if r.Found? {
        SameArgs(r.rest, args + [ts[0].text], targets + r.targets);
      }
    }
  }

  lemma {:induction false} SameExec(ts: seq<Token>)
    ensures ParseExec(NoAppend(ts)) == NoAppendRest(ParseExec(ts))
    decreases |ts|, 0
  {
    NoAppendStarts(ts, "(");
    if Starts(ts, "(") {
      SameLine(ts[1..]);
      NoAppendFrom(ts, 1);
      var r := ParseLine(ts[1..]);
      if r.Ok? {
        NoAppendStarts(r.rest, ")");
        if Starts(r.rest, ")") {
          NoAppendFrom(r.rest, 1);
          SameRedirs(r.rest[1..]);
        }
      }
    } else {
      SameRedirs(ts);
      var r := ParseRedirs(ts);
      if r.Found? {
        SameArgs(r.rest, [], r.targets);
      }
    }
  }

  lemma {:induction false} SamePipe(ts: seq<Token>)
    ensures ParsePipe(NoAppend(ts)) == NoAppendRest(ParsePipe(ts))
    decreases |ts|, 1
  {
    SameExec(ts);
    var r := ParseExec(ts);
    if r.Ok? {
      NoAppendStarts(r.rest, "|");
      if Starts(r.rest, "|") {
        NoAppendFrom(r.rest, 1);
        SamePipe(r.rest[1..]);
      }
    }
  }

  lemma {:induction false} SameBacks(c: Cmd<string>, ts: seq<Token>)
    ensures ParseBacks(c, NoAppend(ts)) == (ParseBacks(c, ts).0, NoAppend(ParseBacks(c, ts).1))
    decreases |ts|
  {
    NoAppendStarts(ts, "&");
    if Starts(ts, "&") {
      NoAppendFrom(ts, 1);
      SameBacks(Back(c), ts[1..]);
    }
  }

  lemma {:induction false} SameLine(ts: seq<Token>)
    ensures ParseLine(NoAppend(ts)) == NoAppendRest(ParseLine(ts))
    decreases |ts|, 2
  {
    SamePipe(ts);
    var r := ParsePipe(ts);
    if r.Ok? {
      SameBacks(r.cmd, r.rest);
      var rest := ParseBacks(r.cmd, r.rest).1;
      NoAppendStarts(rest, ";");
      if Starts(rest, ";") {
        NoAppendFrom(rest, 1);
        SameLine(rest[1..]);
      }
    }
  }

  /** The shell does not append: a line parses, or fails to, as if it had `>` for every `>>`. */
  lemma AppendIsOutput(ts: seq<Token>)
    ensures Parse(NoAppend(ts)) == Parse(ts)
  {
    SameLine(ts);
  }
}
