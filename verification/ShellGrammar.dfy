/** The grammar of user/sh.c as it is written: scripts, their tokens and what they mean. The parser
    accepts exactly the texts of scripts, with any spacing, and yields what they mean. */
module ShellGrammar {
  import opened ShellSpec

  // ---------------------------------------------------------------- tokens

  datatype Tok = Sym(c: char) | DoubleGt | Word(w: string)

  function Slice(s: string, w: Span): (t: string) { if w.q <= w.eq <= |s| then s[w.q..w.eq] else "" }

  function TokOf(s: string, t: Token): (k: Tok)
  {
    if t.kind == 'a' then Word(Slice(s, Span(t.q, t.eq))) else if t.kind == '+' then DoubleGt else Sym(t.kind)
  }

  /** All tokens of the input from i on. */
  function Lex(s: string, i: nat): (ts: seq<Tok>)
    requires i <= |s| && CString(s)
    decreases |s| - i
  {
    var t := TokenAt(s, i);
    if t.kind == NUL then [] else [TokOf(s, t)] + Lex(s, t.next)
  }

  /** The first token is one of these symbols. */
  predicate Begins(ts: seq<Tok>, toks: string)
  {
    ts != [] && match ts[0] case Sym(c) => c in toks case DoubleGt => '>' in toks case Word(_) => false
  }

  lemma LexStep(s: string, i: nat)
    requires i <= |s| && CString(s)
    ensures var t, ts := TokenAt(s, i), Lex(s, i);
            && (t.kind == NUL <==> ts == [])
            && (ts != [] ==> ts[0] == TokOf(s, t) && Lex(s, t.next) == ts[1..])
  {
    hide TokenAt;
  }

  lemma SkipLex(s: string, i: nat)
    requires i <= |s| && CString(s)
    ensures Lex(s, SkipSpace(s, i)) == Lex(s, i)
  {
    assert SkipSpace(s, SkipSpace(s, i)) == SkipSpace(s, i);
    assert TokenAt(s, SkipSpace(s, i)) == TokenAt(s, i);
  }

  lemma PeekIs(s: string, i: nat, toks: string)
    requires i <= |s| && CString(s) && forall c | c in toks :: Symbol(c)
    ensures PeekAt(s, i, toks) <==> Begins(Lex(s, i), toks)
    ensures Lex(s, SkipSpace(s, i)) == Lex(s, i)
  {
    SkipLex(s, i);
    LexStep(s, i);
  }

  // ---------------------------------------------------------------- scripts

  datatype Rd = Rd(mode: Mode, file: string)

  /** A word and the redirections after it. */
  datatype Arg = Arg(word: string, reds: seq<Rd>)

  /** item | item | ... */
  datatype Flow = Last(item: Item) | Then(item: Item, rest: Flow)

  /** flow & & ... ; flow & ... ; ... */
  datatype Script = End(flow: Flow, amps: nat) | More(flow: Flow, amps: nat, rest: Script)

  /** A simple command with redirections before, between and after its words, or a parenthesised
      script with redirections after it. */
  datatype Item = Plain(pre: seq<Rd>, args: seq<Arg>) | Group(body: Script, reds: seq<Rd>)

  function RedirTok(m: Mode): (t: Tok)
  {
    match m
    case Read => Sym('<')
    case Truncate => Sym('>')
    case Append => DoubleGt
  }

  function RedToks(rds: seq<Rd>): (ts: seq<Tok>)
  {
    if rds == [] then [] else [RedirTok(rds[0].mode), Word(rds[0].file)] + RedToks(rds[1..])
  }

  function ArgToks(args: seq<Arg>): (ts: seq<Tok>)
  {
    if args == [] then [] else [Word(args[0].word)] + RedToks(args[0].reds) + ArgToks(args[1..])
  }

  function Amps(n: nat): (ts: seq<Tok>) { if n == 0 then [] else [Sym('&')] + Amps(n - 1) }

  function FlowToks(x: Flow): (ts: seq<Tok>)
  {
    match x
    case Last(item) => ItemToks(item)
    case Then(item, rest) => ItemToks(item) + [Sym('|')] + FlowToks(rest)
  }

  function ScriptToks(x: Script): (ts: seq<Tok>)
  {
    match x
    case End(flow, n) => FlowToks(flow) + Amps(n)
    case More(flow, n, rest) => FlowToks(flow) + Amps(n) + [Sym(';')] + ScriptToks(rest)
  }

  function ItemToks(x: Item): (ts: seq<Tok>)
  {
    match x
    case Plain(pre, args) => RedToks(pre) + ArgToks(args)
    case Group(body, reds) => [Sym('(')] + ScriptToks(body) + [Sym(')')] + RedToks(reds)
  }

  // ---------------------------------------------------------------- what they mean

  /** Later redirections lie outside earlier ones. */
  function Wrap(c: Cmd<string>, rds: seq<Rd>): (d: Cmd<string>)
    decreases |rds|
  {
    if rds == [] then c else Wrap(Redir(c, rds[0].file, rds[0].mode), rds[1..])
  }

  function WordsOf(args: seq<Arg>): (ws: seq<string>)
    ensures |ws| == |args| && forall k | 0 <= k < |ws| :: ws[k] == args[k].word
  {
    if args == [] then [] else [args[0].word] + WordsOf(args[1..])
  }

  function RedsOf(args: seq<Arg>): (rds: seq<Rd>)
  {
    if args == [] then [] else args[0].reds + RedsOf(args[1..])
  }

  function Backed(c: Cmd<string>, n: nat): (d: Cmd<string>)
    decreases n
  {
    if n == 0 then c else Backed(Back(c), n - 1)
  }

  /** A pipeline groups to the right. */
  function FlowMeans(x: Flow): (c: Cmd<string>)
  {
    match x
    case Last(item) => ItemMeans(item)
    case Then(item, rest) => Pipe(ItemMeans(item), FlowMeans(rest))
  }

  function ScriptMeans(x: Script): (c: Cmd<string>)
  {
    match x
    case End(flow, n) => Backed(FlowMeans(flow), n)
    case More(flow, n, rest) => List(Backed(FlowMeans(flow), n), ScriptMeans(rest))
  }

  /** A simple command: its words, under all redirections in the order written. */
  function ItemMeans(x: Item): (c: Cmd<string>)
  {
    match x
    case Plain(pre, args) => Wrap(Exec(WordsOf(args)), pre + RedsOf(args))
    case Group(body, reds) => Wrap(ScriptMeans(body), reds)
  }

  predicate FlowFits(x: Flow)
  {
    match x
    case Last(item) => ItemFits(item)
    case Then(item, rest) => ItemFits(item) && FlowFits(rest)
  }

  predicate ScriptFits(x: Script)
  {
    match x
    case End(flow, n) => FlowFits(flow)
    case More(flow, n, rest) => FlowFits(flow) && ScriptFits(rest)
  }

  /** At most nine words per command. */
  predicate ItemFits(x: Item)
  {
    match x
    case Plain(pre, args) => |args| < MAXARGS
    case Group(body, reds) => ScriptFits(body)
  }

  function ReadAll(s: string, args: seq<Span>): (ws: seq<string>)
  {
    seq(|args|, i requires 0 <= i < |args| => Slice(s, args[i]))
  }

  /** The tree of words that a tree of spans stands for. */
  function Reading(s: string, c: Cmd<Span>): (d: Cmd<string>)
  {
    match c
    case Exec(args) => Exec(ReadAll(s, args))
    case Redir(d, f, m) => Redir(Reading(s, d), Slice(s, f), m)
    case Pipe(l, r) => Pipe(Reading(s, l), Reading(s, r))
    case List(l, r) => List(Reading(s, l), Reading(s, r))
    case Back(d) => Back(Reading(s, d))
  }

  // ---------------------------------------------------------------- wrapping

  lemma {:induction false} WrapTwice(c: Cmd<string>, a: seq<Rd>, b: seq<Rd>)
    ensures Wrap(Wrap(c, a), b) == Wrap(c, a + b)
    decreases |a|
  {
    if a == [] {
      assert a + b == b;
    } else {
      WrapTwice(Redir(c, a[0].file, a[0].mode), a[1..], b);
      assert (a + b)[1..] == a[1..] + b;
    }
  }

  lemma {:induction false} WrapArgs(c: Cmd<string>, rds: seq<Rd>, ws: seq<string>)
    ensures WithArgs(Wrap(c, rds), ws) == Wrap(WithArgs(c, ws), rds)
    decreases |rds|
  {
    if rds != [] {
      WrapArgs(Redir(c, rds[0].file, rds[0].mode), rds[1..], ws);
    }
  }

  lemma {:induction false} ReadingArgs(s: string, c: Cmd<Span>, args: seq<Span>)
    ensures Reading(s, WithArgs(c, args)) == WithArgs(Reading(s, c), ReadAll(s, args))
  {
    if c.Redir? {
      ReadingArgs(s, c.cmd, args);
    }
  }

  // ---------------------------------------------------------------- scripts are accepted

  /** The parser read c and stands before the tokens `rest`. */
  ghost predicate Gives(s: string, r: Result, c: Cmd<string>, rest: seq<Tok>)
    requires CString(s)
  {
    r.Ok? && r.next <= |s| && Reading(s, r.cmd) == c && Lex(s, r.next) == rest
  }

  lemma RedirBegins(m: Mode, rest: seq<Tok>)
    ensures Begins([RedirTok(m)] + rest, "<>")
  {
  }

  lemma {:induction false} RedirsGive(s: string, c: Cmd<Span>, i: nat, rds: seq<Rd>, rest: seq<Tok>)
    requires i <= |s| && CString(s) && Lex(s, i) == RedToks(rds) + rest && !Begins(rest, "<>")
    ensures Gives(s, Redirs(s, c, i), Wrap(Reading(s, c), rds), rest)
    decreases |rds|
  {
    hide TokenAt, PeekAt, Lex, SkipSpace;
    PeekIs(s, i, "<>");
    if rds == [] {
      assert RedToks(rds) + rest == rest;
    } else {
      var more := RedToks(rds[1..]) + rest;
      assert Lex(s, i) == [RedirTok(rds[0].mode)] + ([Word(rds[0].file)] + more);
      RedirBegins(rds[0].mode, [Word(rds[0].file)] + more);
      LexStep(s, i);
      var t := TokenAt(s, i);
      assert Lex(s, t.next) == [Word(rds[0].file)] + more;
      LexStep(s, t.next);
      var f := TokenAt(s, t.next);
      assert ([Word(rds[0].file)] + more)[1..] == more;
      RedirsGive(s, Redir(c, Span(f.q, f.eq), ModeOf(t.kind)), f.next, rds[1..], rest);
    }
  }

  /** Where a simple command ends. */
  predicate Stops(ts: seq<Tok>) { ts == [] || Begins(ts, "|)&;") }

  lemma StopsNo(ts: seq<Tok>)
    requires Stops(ts)
    ensures !Begins(ts, "<>") && !Begins(ts, "(")
  {
  }

  lemma ArgsNoRedir(args: seq<Arg>, rest: seq<Tok>)
    requires Stops(rest)
    ensures !Begins(ArgToks(args) + rest, "<>") && !Begins(ArgToks(args) + rest, "(")
    ensures args != [] ==> !Begins(ArgToks(args) + rest, "|)&;")
  {
    if args == [] {
      assert ArgToks(args) + rest == rest;
    }
  }

  lemma {:induction false} ArgsCons(ws: seq<string>, done: seq<Rd>, a: Arg, rest: seq<Arg>, ts: seq<Tok>)
    ensures ws + WordsOf([a] + rest) == ws + [a.word] + WordsOf(rest)
    ensures done + RedsOf([a] + rest) == done + a.reds + RedsOf(rest)
    ensures ArgToks([a] + rest) + ts == [Word(a.word)] + (RedToks(a.reds) + (ArgToks(rest) + ts))
  {
    hide RedToks;
    assert ([a] + rest)[1..] == rest;
    assert WordsOf([a] + rest) == [a.word] + WordsOf(rest);
    assert RedsOf([a] + rest) == a.reds + RedsOf(rest);
    assert ArgToks([a] + rest) == [Word(a.word)] + RedToks(a.reds) + ArgToks(rest);
  }

  lemma OneMore(s: string, args: seq<Span>, t: Token, w: string)
    requires t.kind == 'a' && TokOf(s, t) == Word(w)
    ensures ReadAll(s, args + [Span(t.q, t.eq)]) == ReadAll(s, args) + [w]
  {
  }

  lemma ArgAdded(s: string, c: Cmd<Span>, args: seq<Span>, args1: seq<Span>, done: seq<Rd>)
    requires Reading(s, c) == Wrap(Exec(ReadAll(s, args)), done)
    ensures Reading(s, WithArgs(c, args1)) == Wrap(Exec(ReadAll(s, args1)), done)
  {
    hide ReadAll;
    ReadingArgs(s, c, args1);
    WrapArgs(Exec(ReadAll(s, args)), done, ReadAll(s, args1));
  }

  /** A word and the redirections after it. */
  lemma ArgRead(s: string, c: Cmd<Span>, args: seq<Span>, t: Token, done: seq<Rd>, a: Arg, next: seq<Tok>)
    requires CString(s) && t.next <= |s| && t.kind == 'a' && TokOf(s, t) == Word(a.word) && !Begins(next, "<>")
    requires Reading(s, c) == Wrap(Exec(ReadAll(s, args)), done) && Lex(s, t.next) == RedToks(a.reds) + next
    ensures var args1 := args + [Span(t.q, t.eq)];
            && ReadAll(s, args1) == ReadAll(s, args) + [a.word]
            && Gives(s, Redirs(s, WithArgs(c, args1), t.next), Wrap(Exec(ReadAll(s, args1)), done + a.reds), next)
  {
    hide Lex, Redirs, Reading, ReadAll, Wrap, WithArgs, Begins, RedToks, Gives;
    var args1 := args + [Span(t.q, t.eq)];
    OneMore(s, args, t, a.word);
    ArgAdded(s, c, args, args1, done);
    RedirsGive(s, WithArgs(c, args1), t.next, a.reds, next);
    WrapTwice(Exec(ReadAll(s, args1)), done, a.reds);
  }

  lemma NoWords()
    ensures WordsOf([]) == [] && RedsOf([]) == []
  {
  }

  lemma NoArgs(rest: seq<Tok>)
    ensures ArgToks([]) + rest == rest
  {
  }

  lemma AtEnd(s: string, i: nat)
    requires i <= |s| && CString(s) && Lex(s, i) == []
    ensures TokenAt(s, i).next == |s| && Lex(s, |s|) == []
  {
    LexStep(s, i);
    LexStep(s, |s|);
  }

  lemma ArgsDone(s: string, c: Cmd<Span>, args: seq<Span>, i: nat, rest: seq<Tok>)
    requires i <= |s| && CString(s) && Lex(s, i) == rest && Stops(rest)
    ensures Gives(s, Args(s, c, args, i), Reading(s, c), rest)
  {
    hide TokenAt, PeekAt, Lex, SkipSpace, Redirs, Reading;
    PeekIs(s, i, "|)&;");
    LexStep(s, i);
    if rest == [] {
      AtEnd(s, i);
    }
  }

  /** The next word of a command. */
  lemma {:induction false} ArgFirst(s: string, i: nat, more: seq<Arg>, rest: seq<Tok>)
    requires i <= |s| && CString(s) && more != [] && Lex(s, i) == ArgToks(more) + rest && Stops(rest)
    ensures !PeekAt(s, i, "|)&;") && TokenAt(s, i).kind == 'a' && TokOf(s, TokenAt(s, i)) == Word(more[0].word)
    ensures Lex(s, TokenAt(s, i).next) == RedToks(more[0].reds) + (ArgToks(more[1..]) + rest)
  {
    hide TokenAt, PeekAt, Lex, RedToks;
    PeekIs(s, i, "|)&;");
    ArgsNoRedir(more, rest);
    LexStep(s, i);
    assert ArgToks(more) + rest == [Word(more[0].word)] + (RedToks(more[0].reds) + (ArgToks(more[1..]) + rest));
  }

  /** One round of the argument loop. */
  lemma ArgsStep(s: string, c: Cmd<Span>, args: seq<Span>, i: nat)
    requires i <= |s| && CString(s) && !PeekAt(s, i, "|)&;") && TokenAt(s, i).kind == 'a' && |args| + 1 < MAXARGS
    ensures var t := TokenAt(s, i);
            var args1 := args + [Span(t.q, t.eq)];
            var r := Redirs(s, WithArgs(c, args1), t.next);
            Args(s, c, args, i) == if r.Ok? then Args(s, r.cmd, args1, r.next) else r
  {
    hide TokenAt, PeekAt, Redirs, WithArgs;
  }

  lemma {:induction false} ArgsGive(s: string, c: Cmd<Span>, args: seq<Span>, i: nat, done: seq<Rd>, more: seq<Arg>,
                                    rest: seq<Tok>)
    requires i <= |s| && CString(s) && Lex(s, i) == ArgToks(more) + rest && Stops(rest)
    requires Reading(s, c) == Wrap(Exec(ReadAll(s, args)), done) && |args| + |more| < MAXARGS
    ensures Gives(s, Args(s, c, args, i), Wrap(Exec(ReadAll(s, args) + WordsOf(more)), done + RedsOf(more)), rest)
    decreases |more|
  {
    hide TokenAt, PeekAt, Lex, SkipSpace, Redirs, Args, Reading, ReadAll, Wrap, WithArgs, Begins, RedToks, ArgToks,
         Stops, WordsOf, RedsOf, CString;
    if more == [] {
      NoArgs(rest);
      assert ReadAll(s, args) + [] == ReadAll(s, args) && done + [] == done;
      NoWords();
      ArgsDone(s, c, args, i, rest);
    } else {
      ArgFirst(s, i, more, rest);
      var t, a := TokenAt(s, i), more[0];
      var args1 := args + [Span(t.q, t.eq)];
      ArgsNoRedir(more[1..], rest);
      ArgRead(s, c, args, t, done, a, ArgToks(more[1..]) + rest);
      var r := Redirs(s, WithArgs(c, args1), t.next);
      ArgsGive(s, r.cmd, args1, r.next, done + a.reds, more[1..], rest);
      ArgsStep(s, c, args, i);
      assert more == [a] + more[1..];
      ArgsCons(ReadAll(s, args), done, a, more[1..], rest);
    }
  }

  lemma {:induction false} AmpsGive(s: string, c: Cmd<Span>, i: nat, n: nat, rest: seq<Tok>)
    requires i <= |s| && CString(s) && Lex(s, i) == Amps(n) + rest && !Begins(rest, "&")
    ensures Reading(s, Backs(s, c, i).0) == Backed(Reading(s, c), n) && Lex(s, Backs(s, c, i).1) == rest
    decreases n
  {
    hide TokenAt, PeekAt, Lex, SkipSpace;
    PeekIs(s, i, "&");
    if n == 0 {
      assert Amps(n) + rest == rest;
    } else {
      assert Amps(n) + rest == [Sym('&')] + (Amps(n - 1) + rest);
      LexStep(s, i);
      AmpsGive(s, Back(c), TokenAt(s, i).next, n - 1, rest);
    }
  }

  /** Where a script ends: at the end of the text or at a closing parenthesis. */
  predicate Closes(ts: seq<Tok>) { ts == [] || ts[0] == Sym(')') }

  lemma PlainStart(pre: seq<Rd>, next: seq<Tok>)
    requires !Begins(next, "(")
    ensures !Begins(RedToks(pre) + next, "(")
  {
    if pre == [] {
      assert RedToks(pre) + next == next;
    }
  }

  lemma {:induction false} FlowGives(x: Flow, s: string, i: nat, rest: seq<Tok>)
    requires i <= |s| && CString(s) && FlowFits(x) && Lex(s, i) == FlowToks(x) + rest
    requires Stops(rest) && !Begins(rest, "|")
    ensures Gives(s, PipeLine(s, i), FlowMeans(x), rest)
    decreases x
  {
    hide TokenAt, PeekAt, Lex, SkipSpace, Simple;
    match x
    case Last(item) =>
      ItemGives(item, s, i, rest);
      PeekIs(s, Simple(s, i).next, "|");
    case Then(item, more) =>
      var next := [Sym('|')] + (FlowToks(more) + rest);
      assert FlowToks(x) + rest == ItemToks(item) + next;
      ItemGives(item, s, i, next);
      var j := Simple(s, i).next;
      PeekIs(s, j, "|");
      LexStep(s, j);
      assert next[1..] == FlowToks(more) + rest;
      FlowGives(more, s, TokenAt(s, j).next, rest);
  }

  lemma AmpsStop(n: nat, rest: seq<Tok>)
    requires rest == [] || Begins(rest, ");")
    ensures Stops(Amps(n) + rest) && !Begins(Amps(n) + rest, "|") && !Begins(rest, "&")
  {
    if n == 0 {
      assert Amps(n) + rest == rest;
    }
  }

  lemma {:induction false} ScriptGives(x: Script, s: string, i: nat, rest: seq<Tok>)
    requires i <= |s| && CString(s) && ScriptFits(x) && Lex(s, i) == ScriptToks(x) + rest && Closes(rest)
    ensures Gives(s, Line(s, i), ScriptMeans(x), rest)
    decreases x
  {
    hide TokenAt, PeekAt, Lex, SkipSpace, PipeLine, Backs, FlowToks, FlowMeans, FlowFits, CString, TokOf, ReadAll;
    var more := if x.End? then rest else [Sym(';')] + (ScriptToks(x.rest) + rest);
    assert ScriptToks(x) + rest == FlowToks(x.flow) + (Amps(x.amps) + more);
    AmpsStop(x.amps, more);
    FlowGives(x.flow, s, i, Amps(x.amps) + more);
    var r := PipeLine(s, i);
    AmpsGive(s, r.cmd, r.next, x.amps, more);
    var j := Backs(s, r.cmd, r.next).1;
    PeekIs(s, j, ";");
    if x.More? {
      LexStep(s, j);
      assert more[1..] == ScriptToks(x.rest) + rest;
      ScriptGives(x.rest, s, TokenAt(s, j).next, rest);
    }
  }

  lemma {:induction false} ItemGives(x: Item, s: string, i: nat, rest: seq<Tok>)
    requires i <= |s| && CString(s) && ItemFits(x) && Lex(s, i) == ItemToks(x) + rest && Stops(rest)
    ensures Gives(s, Simple(s, i), ItemMeans(x), rest)
    decreases x
  {
    hide TokenAt, PeekAt, Lex, SkipSpace, Redirs, Args, Line, Stops;
    PeekIs(s, i, "(");
    match x
    case Plain(pre, args) =>
      var next := ArgToks(args) + rest;
      assert ItemToks(x) + rest == RedToks(pre) + next;
      ArgsNoRedir(args, rest);
      PlainStart(pre, next);
      var j := SkipSpace(s, i);
      assert ReadAll(s, []) == [];
      RedirsGive(s, Exec([]), j, pre, next);
      var r := Redirs(s, Exec([]), j);
      ArgsGive(s, r.cmd, [], r.next, pre, args, rest);
      assert ReadAll(s, []) + WordsOf(args) == WordsOf(args);
    case Group(body, reds) =>
      var next := [Sym(')')] + (RedToks(reds) + rest);
      assert ItemToks(x) + rest == [Sym('(')] + (ScriptToks(body) + next);
      LexStep(s, i);
      var j := TokenAt(s, i).next;
      ScriptGives(body, s, j, next);
      var r := Line(s, j);
      PeekIs(s, r.next, ")");
      LexStep(s, r.next);
      assert next[1..] == RedToks(reds) + rest;
      StopsNo(rest);
      RedirsGive(s, r.cmd, TokenAt(s, r.next).next, reds, rest);
  }

  // ---------------------------------------------------------------- nothing else is accepted

  lemma RedirKind(s: string, t: Token, ts: seq<Tok>)
    requires ts != [] && ts[0] == TokOf(s, t) && Begins(ts, "<>")
    ensures ts[0] == RedirTok(ModeOf(t.kind))
  {
  }

  lemma HasFirst(ts: seq<Tok>, toks: string)
    requires Begins(ts, toks)
    ensures ts != []
  {
  }

  lemma {:induction false} RedirsHas(s: string, c: Cmd<Span>, i: nat) returns (rds: seq<Rd>)
    requires i <= |s| && CString(s) && Redirs(s, c, i).Ok?
    ensures var r := Redirs(s, c, i);
            && Lex(s, i) == RedToks(rds) + Lex(s, r.next) && Reading(s, r.cmd) == Wrap(Reading(s, c), rds)
            && !Begins(Lex(s, r.next), "<>")
    decreases |s| - i
  {
    hide TokenAt, PeekAt, Lex, SkipSpace, Begins;
    PeekIs(s, i, "<>");
    if PeekAt(s, i, "<>") {
      var t := TokenAt(s, i);
      LexStep(s, i);
      HasFirst(Lex(s, i), "<>");
      RedirKind(s, t, Lex(s, i));
      var f := TokenAt(s, t.next);
      LexStep(s, t.next);
      var file := Slice(s, Span(f.q, f.eq));
      var more := RedirsHas(s, Redir(c, Span(f.q, f.eq), ModeOf(t.kind)), f.next);
      rds := [Rd(ModeOf(t.kind), file)] + more;
      assert rds[1..] == more;
      var rest := Lex(s, Redirs(s, c, i).next);
      assert Lex(s, t.next) == [Word(file)] + (RedToks(more) + rest);
      assert Lex(s, i) == [RedirTok(ModeOf(t.kind))] + ([Word(file)] + (RedToks(more) + rest));
    } else {
      rds := [];
      assert RedToks(rds) + Lex(s, i) == Lex(s, i);
    }
  }

  lemma {:induction false} ArgsHas(s: string, c: Cmd<Span>, args: seq<Span>, i: nat, done: seq<Rd>)
    returns (more: seq<Arg>)
    requires i <= |s| && CString(s) && Args(s, c, args, i).Ok? && |args| < MAXARGS
    requires Reading(s, c) == Wrap(Exec(ReadAll(s, args)), done)
    ensures var r := Args(s, c, args, i);
            && Lex(s, i) == ArgToks(more) + Lex(s, r.next) && |args| + |more| < MAXARGS
            && Reading(s, r.cmd) == Wrap(Exec(ReadAll(s, args) + WordsOf(more)), done + RedsOf(more))
    decreases |s| - i
  {
    hide TokenAt, PeekAt, Lex, SkipSpace, Redirs, Reading, ReadAll, Wrap, WithArgs, Begins, RedToks;
    PeekIs(s, i, "|)&;");
    LexStep(s, i);
    var t := TokenAt(s, i);
    if PeekAt(s, i, "|)&;") || t.kind == NUL {
      more := [];
      assert ReadAll(s, args) + WordsOf(more) == ReadAll(s, args) && done + RedsOf(more) == done;
      if !PeekAt(s, i, "|)&;") {
        AtEnd(s, i);
      }
      NoArgs(Lex(s, Args(s, c, args, i).next));
    } else {
      var w, args1 := Slice(s, Span(t.q, t.eq)), args + [Span(t.q, t.eq)];
      OneMore(s, args, t, w);
      ArgAdded(s, c, args, args1, done);
      ArgsStep(s, c, args, i);
      var reds := RedirsHas(s, WithArgs(c, args1), t.next);
      WrapTwice(Exec(ReadAll(s, args1)), done, reds);
      var r := Redirs(s, WithArgs(c, args1), t.next);
      var rest := ArgsHas(s, r.cmd, args1, r.next, done + reds);
      more := [Arg(w, reds)] + rest;
      ArgsCons(ReadAll(s, args), done, Arg(w, reds), rest, Lex(s, Args(s, c, args, i).next));
    }
  }

  lemma {:induction false} BacksHas(s: string, c: Cmd<Span>, i: nat) returns (n: nat)
    requires i <= |s| && CString(s)
    ensures Lex(s, i) == Amps(n) + Lex(s, Backs(s, c, i).1) && Reading(s, Backs(s, c, i).0) == Backed(Reading(s, c), n)
    decreases |s| - i
  {
    hide TokenAt, PeekAt, Lex, SkipSpace;
    PeekIs(s, i, "&");
    if PeekAt(s, i, "&") {
      LexStep(s, i);
      var m := BacksHas(s, Back(c), TokenAt(s, i).next);
      n := m + 1;
      assert Lex(s, i) == [Sym('&')] + (Amps(m) + Lex(s, Backs(s, c, i).1));
    } else {
      n := 0;
      assert Amps(n) + Lex(s, i) == Lex(s, i);
    }
  }

  lemma ReadNone(s: string)
    ensures ReadAll(s, []) == []
  {
  }

  lemma {:induction false} FlowHas(s: string, i: nat) returns (x: Flow)
    requires i <= |s| && CString(s) && PipeLine(s, i).Ok?
    ensures var r := PipeLine(s, i);
            FlowFits(x) && Lex(s, i) == FlowToks(x) + Lex(s, r.next) && Reading(s, r.cmd) == FlowMeans(x)
    decreases |s| - i, 2
  {
    hide TokenAt, PeekAt, Lex, SkipSpace, Simple, ItemToks, ItemMeans, ItemFits, CString, TokOf, ReadAll;
    var item := ItemHas(s, i);
    var j := Simple(s, i).next;
    PeekIs(s, j, "|");
    if PeekAt(s, j, "|") {
      LexStep(s, j);
      var more := FlowHas(s, TokenAt(s, j).next);
      x := Then(item, more);
      var rest := Lex(s, PipeLine(s, i).next);
      assert Lex(s, j) == [Sym('|')] + (FlowToks(more) + rest);
      assert Lex(s, i) == ItemToks(item) + ([Sym('|')] + (FlowToks(more) + rest));
    } else {
      x := Last(item);
    }
  }

  lemma {:induction false} ScriptHas(s: string, i: nat) returns (x: Script)
    requires i <= |s| && CString(s) && Line(s, i).Ok?
    ensures var r := Line(s, i);
            ScriptFits(x) && Lex(s, i) == ScriptToks(x) + Lex(s, r.next) && Reading(s, r.cmd) == ScriptMeans(x)
    decreases |s| - i, 3
  {
    hide TokenAt, PeekAt, Lex, SkipSpace, PipeLine, Backs, FlowToks, FlowMeans, FlowFits, CString, TokOf, ReadAll;
    var flow := FlowHas(s, i);
    var r := PipeLine(s, i);
    var n := BacksHas(s, r.cmd, r.next);
    var j := Backs(s, r.cmd, r.next).1;
    PeekIs(s, j, ";");
    var rest := Lex(s, Line(s, i).next);
    if PeekAt(s, j, ";") {
      LexStep(s, j);
      var more := ScriptHas(s, TokenAt(s, j).next);
      x := More(flow, n, more);
      assert Lex(s, j) == [Sym(';')] + (ScriptToks(more) + rest);
      assert Lex(s, i) == FlowToks(flow) + (Amps(n) + ([Sym(';')] + (ScriptToks(more) + rest)));
    } else {
      x := End(flow, n);
      assert Lex(s, i) == FlowToks(flow) + (Amps(n) + rest);
    }
  }

  lemma {:induction false} ItemHas(s: string, i: nat) returns (x: Item)
    requires i <= |s| && CString(s) && Simple(s, i).Ok?
    ensures var r := Simple(s, i);
            ItemFits(x) && Lex(s, i) == ItemToks(x) + Lex(s, r.next) && Reading(s, r.cmd) == ItemMeans(x)
    decreases |s| - i, 1
  {
    hide TokenAt, PeekAt, Lex, SkipSpace, Redirs, Args, Line, ReadAll, CString, RedToks, ArgToks, ScriptToks, Wrap,
         WordsOf, RedsOf, ScriptFits, ScriptMeans;
    PeekIs(s, i, "(");
    var rest := Lex(s, Simple(s, i).next);
    if PeekAt(s, i, "(") {
      LexStep(s, i);
      var j := TokenAt(s, i).next;
      var body := ScriptHas(s, j);
      var r := Line(s, j);
      PeekIs(s, r.next, ")");
      LexStep(s, r.next);
      var reds := RedirsHas(s, r.cmd, TokenAt(s, r.next).next);
      x := Group(body, reds);
      assert Lex(s, r.next) == [Sym(')')] + (RedToks(reds) + rest);
      assert Lex(s, i) == [Sym('(')] + (ScriptToks(body) + ([Sym(')')] + (RedToks(reds) + rest)));
    } else {
      var j := SkipSpace(s, i);
      var pre := RedirsHas(s, Exec([]), j);
      var r := Redirs(s, Exec([]), j);
      ReadNone(s);
      var args := ArgsHas(s, r.cmd, [], r.next, pre);
      x := Plain(pre, args);
      assert [] + WordsOf(args) == WordsOf(args);
      assert Lex(s, i) == RedToks(pre) + (ArgToks(args) + rest);
    }
  }

  // ---------------------------------------------------------------- the parser, exactly

  /** The input is this script, with any spacing. */
  ghost predicate Writes(s: string, x: Script)
    requires CString(s)
  {
    ScriptFits(x) && Lex(s, 0) == ScriptToks(x)
  }

  lemma EndIs(s: string, i: nat)
    requires i <= |s| && CString(s)
    ensures Lex(s, i) == [] <==> SkipSpace(s, i) == |s|
  {
    LexStep(s, i);
  }

  /** A script, however it is spaced, parses to what it means. */
  lemma ParsesScript(s: string, x: Script)
    requires CString(s) && Writes(s, x)
    ensures Parsed(s).Ok? && Reading(s, Parsed(s).cmd) == ScriptMeans(x)
  {
    hide TokenAt, Lex, SkipSpace, Line;
    assert ScriptToks(x) + [] == ScriptToks(x);
    ScriptGives(x, s, 0, []);
    EndIs(s, Line(s, 0).next);
  }

  lemma IsWritten(s: string, x: Script)
    requires CString(s) && ScriptFits(x) && Lex(s, 0) == ScriptToks(x)
    ensures Writes(s, x)
  {
  }

  /** The parser accepts a text if and only if it is a script. */
  lemma ParsesExactly(s: string)
    requires CString(s)
    ensures Parsed(s).Ok? <==> exists x :: Writes(s, x)
  {
    hide TokenAt, Lex, SkipSpace, Line, Writes;
    if Parsed(s).Ok? {
      var x := ScriptHas(s, 0);
      EndIs(s, Line(s, 0).next);
      assert ScriptToks(x) + [] == ScriptToks(x);
      IsWritten(s, x);
    }
    if x :| Writes(s, x) {
      ParsesScript(s, x);
    }
  }
}
