/** Writing commands: any script of the shell's grammar as text, and every command tree as the
    script with no needless parentheses. The parser inverts both. */
module ShellPrint {
  import opened ShellSpec
  import opened ShellGrammar

  // ---------------------------------------------------------------- text

  predicate LegalWord(w: string) { |w| > 0 && forall i | 0 <= i < |w| :: WordChar(w[i]) }

  predicate LegalTok(t: Tok)
  {
    match t
    case Sym(c) => Symbol(c)
    case DoubleGt => true
    case Word(w) => LegalWord(w)
  }

  predicate LegalToks(ts: seq<Tok>) { forall i | 0 <= i < |ts| :: LegalTok(ts[i]) }

  function Spelling(t: Tok): (w: string)
  {
    match t
    case Sym(c) => [c]
    case DoubleGt => ">>"
    case Word(w) => w
  }

  function Text(ts: seq<Tok>): (s: string)
  {
    if ts == [] then "" else Spelling(ts[0]) + " " + Text(ts[1..])
  }

  /** From i on, the input is the printed form of ts. */
  ghost predicate Follows(s: string, i: nat, ts: seq<Tok>)
  {
    i <= |s| && CString(s) && LegalToks(ts) && s[i..] == Text(ts)
  }

  lemma Starts(t: Tok)
    requires LegalTok(t)
    ensures |Spelling(t)| > 0 && !Space(Spelling(t)[0]) && Spelling(t)[0] != NUL
  {
  }

  /** Printed text does not begin with a space. */
  lemma NoGap(s: string, i: nat, ts: seq<Tok>)
    requires Follows(s, i, ts)
    ensures SkipSpace(s, i) == i
    ensures ts == [] <==> i == |s|
    ensures ts != [] ==> At(s, i) == Spelling(ts[0])[0] && At(s, i) != NUL
  {
    if ts != [] {
      Starts(ts[0]);
      assert s[i..][0] == Spelling(ts[0])[0];
    }
  }

  lemma TextStep(ts: seq<Tok>)
    requires LegalToks(ts) && ts != []
    ensures Text(ts) == Spelling(ts[0]) + " " + Text(ts[1..]) && LegalToks(ts[1..])
  {
  }

  lemma Cut(s: string, i: nat, w: string, rest: string)
    requires i <= |s| && s[i..] == w + " " + rest
    ensures i + |w| < |s| && s[i..i + |w|] == w && s[i + |w|] == ' ' && s[i + |w| + 1..] == rest
  {
    var t := w + " " + rest;
    assert t[|w|] == ' ' && t[..|w|] == w && t[|w| + 1..] == rest;
    assert s[i..][|w|] == s[i + |w|];
    assert s[i..][..|w|] == s[i..i + |w|];
    assert s[i..][|w| + 1..] == s[i + |w| + 1..];
  }

  lemma OneSpace(s: string, j: nat)
    requires j < |s| && s[j] == ' ' && SkipSpace(s, j + 1) == j + 1
    ensures SkipSpace(s, j) == j + 1
  {
  }

  lemma Advance(s: string, i: nat, ts: seq<Tok>)
    requires Follows(s, i, ts) && ts != []
    ensures var j := i + |Spelling(ts[0])|;
            && j < |s| && s[i..j] == Spelling(ts[0]) && s[j] == ' '
            && Follows(s, j + 1, ts[1..]) && SkipSpace(s, j) == j + 1
  {
    hide SkipSpace, Text, Spelling, LegalToks, CString, Space;
    var w := Spelling(ts[0]);
    var j := i + |w|;
    TextStep(ts);
    Cut(s, i, w, Text(ts[1..]));
    NoGap(s, j + 1, ts[1..]);
    OneSpace(s, j);
  }

  lemma {:induction false} WordRun(s: string, i: nat, j: nat)
    requires i <= j < |s| && (forall k | i <= k < j :: !Space(s[k]) && !Symbol(s[k])) && Space(s[j])
    ensures SkipWord(s, i) == j
    decreases j - i
  {
    if i < j {
      WordRun(s, i + 1, j);
    }
  }

  /** gettoken on printed text yields the next token. */
  lemma TokenIs(s: string, i: nat, ts: seq<Tok>)
    requires Follows(s, i, ts) && ts != []
    ensures var t := TokenAt(s, i);
            t.kind != NUL && TokOf(s, t) == ts[0] && Follows(s, t.next, ts[1..])
  {
    NoGap(s, i, ts);
    Advance(s, i, ts);
    var w := Spelling(ts[0]);
    var j := i + |w|;
    assert forall k | i <= k < j :: s[k] == s[i..j][k - i];
    match ts[0]
    case Sym(c) =>
      assert w[0] == c;
    case DoubleGt =>
      assert s[i + 1] == s[i..j][1] == '>';
    case Word(v) =>
      WordRun(s, i, j);
  }

  lemma {:induction false} TextIsCString(ts: seq<Tok>)
    requires LegalToks(ts)
    ensures CString(Text(ts))
  {
    if ts != [] {
      TextIsCString(ts[1..]);
      var w := Spelling(ts[0]);
      assert forall k | 0 <= k < |w| :: w[k] != NUL;
    }
  }

  /** The tokens of printed text are the tokens printed. */
  lemma {:induction false} LexText(s: string, i: nat, ts: seq<Tok>)
    requires Follows(s, i, ts)
    ensures i <= |s| && CString(s) && Lex(s, i) == ts
    decreases |ts|
  {
    hide Text, LegalToks, TokenAt, LegalTok;
    LexStep(s, i);
    if ts == [] {
      NoGap(s, i, ts);
    } else {
      TokenIs(s, i, ts);
      LexText(s, TokenAt(s, i).next, ts[1..]);
    }
  }

  // ---------------------------------------------------------------- legal trees

  /** Words a shell could be given, and at most nine of them per command. */
  predicate Legal(c: Cmd<string>)
  {
    match c
    case Exec(args) => |args| < MAXARGS && forall i | 0 <= i < |args| :: LegalWord(args[i])
    case Redir(d, f, m) => Legal(d) && LegalWord(f)
    case Pipe(l, r) => Legal(l) && Legal(r)
    case List(l, r) => Legal(l) && Legal(r)
    case Back(d) => Legal(d)
  }

  predicate LegalFiles(rds: seq<Rd>) { forall rd | rd in rds :: LegalWord(rd.file) }

  lemma {:induction false} LegalWrap(c: Cmd<string>, rds: seq<Rd>)
    requires Legal(Wrap(c, rds))
    ensures Legal(c) && LegalFiles(rds)
    decreases |rds|
  {
    if rds != [] {
      LegalWrap(Redir(c, rds[0].file, rds[0].mode), rds[1..]);
      assert rds == [rds[0]] + rds[1..];
    }
  }

  lemma {:induction false} LegalBacked(c: Cmd<string>, n: nat)
    requires Legal(Backed(c, n))
    ensures Legal(c)
    decreases n
  {
    if n > 0 {
      LegalBacked(Back(c), n - 1);
    }
  }

  lemma {:induction false} RedsLegal(rds: seq<Rd>)
    requires LegalFiles(rds)
    ensures LegalToks(RedToks(rds))
  {
    if rds != [] {
      RedsLegal(rds[1..]);
    }
  }

  lemma {:induction false} ArgsLegal(args: seq<Arg>)
    requires (forall w | w in WordsOf(args) :: LegalWord(w)) && LegalFiles(RedsOf(args))
    ensures LegalToks(ArgToks(args))
  {
    if args != [] {
      assert WordsOf(args) == [args[0].word] + WordsOf(args[1..]);
      RedsLegal(args[0].reds);
      ArgsLegal(args[1..]);
    }
  }

  lemma {:induction false} AmpsLegal(n: nat)
    ensures LegalToks(Amps(n))
  {
    if n > 0 {
      AmpsLegal(n - 1);
    }
  }

  lemma {:induction false} FlowLegal(x: Flow)
    requires Legal(FlowMeans(x))
    ensures FlowFits(x) && LegalToks(FlowToks(x))
  {
    ItemLegal(x.item);
    if x.Then? {
      FlowLegal(x.rest);
    }
  }

  /** A script fits the shell's limits and is spelled legally if what it means is. */
  lemma {:induction false} ScriptLegal(x: Script)
    requires Legal(ScriptMeans(x))
    ensures ScriptFits(x) && LegalToks(ScriptToks(x))
  {
    LegalBacked(FlowMeans(x.flow), x.amps);
    FlowLegal(x.flow);
    AmpsLegal(x.amps);
    if x.More? {
      ScriptLegal(x.rest);
    }
  }

  lemma {:induction false} ItemLegal(x: Item)
    requires Legal(ItemMeans(x))
    ensures ItemFits(x) && LegalToks(ItemToks(x))
  {
    match x
    case Plain(pre, args) =>
      LegalWrap(Exec(WordsOf(args)), pre + RedsOf(args));
      RedsLegal(pre);
      ArgsLegal(args);
    case Group(body, reds) =>
      LegalWrap(ScriptMeans(body), reds);
      ScriptLegal(body);
      RedsLegal(reds);
  }

  /** However a legal command is written, redirections before, between or after the words and
      parentheses wherever allowed, the parser yields what was written. */
  lemma ParseInvertsText(x: Script)
    requires Legal(ScriptMeans(x))
    ensures var s := Text(ScriptToks(x)); CString(s) && Parsed(s).Ok? && Reading(s, Parsed(s).cmd) == ScriptMeans(x)
  {
    hide Text, Parsed, Lex, Legal;
    var ts := ScriptToks(x);
    var s := Text(ts);
    ScriptLegal(x);
    TextIsCString(ts);
    assert s[0..] == s;
    LexText(s, 0, ts);
    ParsesScript(s, x);
  }

  // ---------------------------------------------------------------- no needless parentheses

  /** A command without its redirections. */
  function Core(c: Cmd<string>): (d: Cmd<string>)
    ensures !d.Redir? && if c.Redir? then d < c else d == c
  {
    if c.Redir? then Core(c.cmd) else c
  }

  function Peeled(c: Cmd<string>): (rds: seq<Rd>)
  {
    if c.Redir? then Peeled(c.cmd) + [Rd(c.mode, c.file)] else []
  }

  /** A command without its trailing &. */
  function Job(c: Cmd<string>): (d: Cmd<string>)
    ensures !d.Back? && if c.Back? then d < c else d == c
  {
    if c.Back? then Job(c.cmd) else c
  }

  function AmpsOf(c: Cmd<string>): (n: nat) { if c.Back? then AmpsOf(c.cmd) + 1 else 0 }

  /** The words, with the redirections after the last one. */
  function Spread(ws: seq<string>, rds: seq<Rd>): (args: seq<Arg>)
    requires ws != []
  {
    if |ws| == 1 then [Arg(ws[0], rds)] else [Arg(ws[0], [])] + Spread(ws[1..], rds)
  }

  function PlainOf(ws: seq<string>, rds: seq<Rd>): (x: Item)
  {
    if ws == [] then Plain(rds, []) else Plain([], Spread(ws, rds))
  }

  predicate Compound(c: Cmd<string>) { c.Pipe? || c.List? || c.Back? }

  function FlowOf(c: Cmd<string>): (x: Flow)
    decreases c, if c.Pipe? then 0 else if Compound(c) then 5 else 1
  {
    if c.Pipe? then Then(ItemOf(c.left), FlowOf(c.right)) else Last(ItemOf(c))
  }

  /** A tree as a script: pipes flat to the right, lists flat to the right, & after a bare pipeline,
      and parentheses elsewhere. */
  function Unparse(c: Cmd<string>): (x: Script)
    decreases c, 3
  {
    if c.List? then More(FlowOf(Job(c.left)), AmpsOf(c.left), Unparse(c.right)) else End(FlowOf(Job(c)), AmpsOf(c))
  }

  function ItemOf(c: Cmd<string>): (x: Item)
    decreases c, if Compound(c) then 4 else 0
  {
    var d := Core(c);
    if d.Exec? then PlainOf(d.args, Peeled(c)) else Group(Unparse(d), Peeled(c))
  }

  lemma {:induction false} WrapPeeled(c: Cmd<string>)
    ensures Wrap(Core(c), Peeled(c)) == c
  {
    if c.Redir? {
      WrapPeeled(c.cmd);
      WrapTwice(Core(c), Peeled(c.cmd), [Rd(c.mode, c.file)]);
    }
  }

  lemma {:induction false} BackedMore(c: Cmd<string>, n: nat)
    ensures Backed(c, n + 1) == Back(Backed(c, n))
    decreases n
  {
    if n > 0 {
      BackedMore(Back(c), n - 1);
    }
  }

  lemma {:induction false} BackedJob(c: Cmd<string>)
    ensures Backed(Job(c), AmpsOf(c)) == c
  {
    if c.Back? {
      BackedJob(c.cmd);
      BackedMore(Job(c), AmpsOf(c.cmd));
    }
  }

  lemma {:induction false} SpreadMeans(ws: seq<string>, rds: seq<Rd>)
    requires ws != []
    ensures WordsOf(Spread(ws, rds)) == ws && RedsOf(Spread(ws, rds)) == rds
  {
    if |ws| > 1 {
      SpreadMeans(ws[1..], rds);
    }
  }

  lemma PlainMeans(ws: seq<string>, rds: seq<Rd>)
    ensures ItemMeans(PlainOf(ws, rds)) == Wrap(Exec(ws), rds)
  {
    if ws == [] {
      assert rds + RedsOf([]) == rds;
    } else {
      SpreadMeans(ws, rds);
      assert [] + rds == rds;
    }
  }

  lemma {:induction false} FlowOfMeans(c: Cmd<string>)
    ensures FlowMeans(FlowOf(c)) == c
    decreases c, if c.Pipe? then 0 else if Compound(c) then 5 else 1
  {
    if c.Pipe? {
      ItemOfMeans(c.left);
      FlowOfMeans(c.right);
    } else {
      ItemOfMeans(c);
    }
  }

  /** The script of a tree means that tree. */
  lemma {:induction false} UnparseMeans(c: Cmd<string>)
    ensures ScriptMeans(Unparse(c)) == c
    decreases c, 3
  {
    if c.List? {
      BackedJob(c.left);
      FlowOfMeans(Job(c.left));
      UnparseMeans(c.right);
    } else {
      BackedJob(c);
      FlowOfMeans(Job(c));
    }
  }

  lemma {:induction false} ItemOfMeans(c: Cmd<string>)
    ensures ItemMeans(ItemOf(c)) == c
    decreases c, if Compound(c) then 4 else 0
  {
    WrapPeeled(c);
    var d := Core(c);
    if d.Exec? {
      PlainMeans(d.args, Peeled(c));
    } else {
      UnparseMeans(d);
    }
  }

  /** Every legal command tree is what the parser makes of its text. */
  lemma ParseInvertsPrint(c: Cmd<string>)
    requires Legal(c)
    ensures var s := Text(ScriptToks(Unparse(c))); CString(s) && Parsed(s).Ok? && Reading(s, Parsed(s).cmd) == c
  {
    UnparseMeans(c);
    ParseInvertsText(Unparse(c));
  }

  // ---------------------------------------------------------------- and the printer inverts the parser

  /** Redirections only after the words. */
  predicate Trailing(args: seq<Arg>) { forall k | 0 <= k < |args| - 1 :: args[k].reds == [] }

  /** In a pipeline: none around a pipeline at the end. */
  predicate TightFlow(x: Flow)
  {
    && TightItem(x.item)
    && match x
       case Last(item) => !(item.Group? && item.reds == [] && item.body.End? && item.body.amps == 0)
       case Then(item, rest) => TightFlow(rest)
  }

  /** A script that is one pair of parentheses. */
  predicate Bare(x: Flow) { x.Last? && x.item.Group? && x.item.reds == [] }

  /** In a list: none around a job, nor around a list at the end. */
  predicate TightScript(x: Script)
  {
    && TightFlow(x.flow) && !(Bare(x.flow) && x.flow.item.body.End?)
    && match x
       case End(flow, n) => !(Bare(flow) && n == 0)
       case More(flow, n, rest) => TightScript(rest)
  }

  /** Parentheses around these would change nothing when taken away. */
  predicate TightItem(x: Item)
  {
    match x
    case Plain(pre, args) => (args == [] || pre == []) && Trailing(args)
    case Group(body, reds) => TightScript(body) && !(body.End? && body.flow.Last? && body.amps == 0)
  }

  lemma {:induction false} SpreadTrails(ws: seq<string>, rds: seq<Rd>)
    requires ws != []
    ensures Trailing(Spread(ws, rds))
  {
    if |ws| > 1 {
      SpreadTrails(ws[1..], rds);
    }
  }

  /** Parentheses are only put around what needs them. */
  lemma UnparseKind(c: Cmd<string>)
    requires Compound(c)
    ensures var x := Unparse(c);
            && (x.End? ==> !c.List?) && (x.End? && x.amps == 0 ==> c.Pipe? && x.flow.Then?)
  {
  }

  lemma FlowOfKind(c: Cmd<string>)
    ensures var x := FlowOf(c); Bare(x) ==> (c.List? || c.Back?) && x.item.body == Unparse(c)
  {
  }

  lemma {:induction false} FlowOfTight(c: Cmd<string>)
    ensures TightFlow(FlowOf(c))
    decreases c, if c.Pipe? then 0 else if Compound(c) then 5 else 1
  {
    if c.Pipe? {
      ItemOfTight(c.left);
      FlowOfTight(c.right);
    } else {
      ItemOfTight(c);
      FlowOfKind(c);
      if Compound(c) {
        UnparseKind(c);
      }
    }
  }

  lemma {:induction false} JobTight(c: Cmd<string>)
    ensures var x := FlowOf(Job(c)); TightFlow(x) && (Bare(x) ==> x.item.body.More? && (c.List? || c.Back?))
    decreases c, if c.List? then 6 else 2
  {
    FlowOfTight(Job(c));
    FlowOfKind(Job(c));
  }

  lemma {:induction false} UnparseTight(c: Cmd<string>)
    ensures TightScript(Unparse(c))
    decreases c, 3
  {
    if c.List? {
      JobTight(c.left);
      UnparseTight(c.right);
    } else {
      JobTight(c);
    }
  }

  lemma {:induction false} ItemOfTight(c: Cmd<string>)
    ensures TightItem(ItemOf(c))
    decreases c, if Compound(c) then 4 else 0
  {
    var d := Core(c);
    if d.Exec? {
      if d.args != [] {
        SpreadTrails(d.args, Peeled(c));
      }
    } else {
      UnparseKind(d);
      UnparseTight(d);
    }
  }

  lemma {:induction false} WrapCore(c: Cmd<string>, rds: seq<Rd>)
    requires !c.Redir?
    ensures Core(Wrap(c, rds)) == c && Peeled(Wrap(c, rds)) == rds
    decreases |rds|
  {
    if rds != [] {
      var k := |rds| - 1;
      WrapCore(c, rds[..k]);
      WrapTwice(c, rds[..k], [rds[k]]);
      assert rds[..k] + [rds[k]] == rds;
    }
  }

  lemma {:induction false} JobBacked(c: Cmd<string>, n: nat)
    requires !c.Back?
    ensures Job(Backed(c, n)) == c && AmpsOf(Backed(c, n)) == n
  {
    if n > 0 {
      JobBacked(c, n - 1);
      BackedMore(c, n - 1);
    }
  }

  lemma {:induction false} TrailingSpread(args: seq<Arg>)
    requires args != [] && Trailing(args)
    ensures Spread(WordsOf(args), RedsOf(args)) == args
  {
    if |args| > 1 {
      TrailingSpread(args[1..]);
      assert [] + RedsOf(args[1..]) == RedsOf(args[1..]);
    } else {
      assert args == [args[0]] && WordsOf(args) == [args[0].word];
      assert RedsOf(args) == args[0].reds + [] == args[0].reds;
    }
  }

  lemma WrapKind(c: Cmd<string>, rds: seq<Rd>)
    ensures if rds == [] then Wrap(c, rds) == c else Wrap(c, rds).Redir?
  {
    if rds != [] {
      var k := |rds| - 1;
      WrapTwice(c, rds[..k], [rds[k]]);
      assert rds[..k] + [rds[k]] == rds;
    }
  }

  lemma ScriptKind(x: Script)
    ensures var c := ScriptMeans(x);
            && (x.More? ==> c.List?)
            && (x.End? && x.amps > 0 ==> c.Back?)
            && (x.End? && x.amps == 0 ==> c == FlowMeans(x.flow))
  {
    if x.End? && x.amps > 0 {
      BackedMore(FlowMeans(x.flow), x.amps - 1);
    }
  }

  /** Only a bare pair of parentheses reads as a pipe, a list or a background job. */
  lemma ItemKind(x: Item)
    requires TightItem(x)
    ensures var c := ItemMeans(x);
            if x.Group? && x.reds == [] then c == ScriptMeans(x.body) && Compound(c) else c.Redir? || c.Exec?
  {
    match x
    case Plain(pre, args) => WrapKind(Exec(WordsOf(args)), pre + RedsOf(args));
    case Group(body, reds) =>
      WrapKind(ScriptMeans(body), reds);
      ScriptKind(body);
  }

  lemma {:induction false} FlowIsOf(x: Flow)
    requires TightFlow(x)
    ensures FlowOf(FlowMeans(x)) == x
  {
    ItemIsOf(x.item);
    match x
    case Last(item) =>
      ItemKind(item);
      if item.Group? {
        ScriptKind(item.body);
      }
    case Then(item, rest) => FlowIsOf(rest);
  }

  lemma FlowKind(x: Flow)
    requires TightFlow(x)
    ensures var c := FlowMeans(x); (c.List? || c.Back?) ==> Bare(x) && (c.Back? ==> x.item.body.End?)
  {
    if x.Last? {
      ItemKind(x.item);
      if x.item.Group? {
        ScriptKind(x.item.body);
      }
    }
  }

  lemma {:induction false} ScriptIsOf(x: Script)
    requires TightScript(x)
    ensures Unparse(ScriptMeans(x)) == x
  {
    FlowKind(x.flow);
    FlowIsOf(x.flow);
    JobBacked(FlowMeans(x.flow), x.amps);
    ScriptKind(x);
    if x.More? {
      ScriptIsOf(x.rest);
    }
  }

  lemma {:induction false} ItemIsOf(x: Item)
    requires TightItem(x)
    ensures ItemOf(ItemMeans(x)) == x
  {
    match x
    case Plain(pre, args) =>
      WrapCore(Exec(WordsOf(args)), pre + RedsOf(args));
      if args == [] {
        assert pre + RedsOf(args) == pre;
      } else {
        assert pre + RedsOf(args) == RedsOf(args);
        TrailingSpread(args);
      }
    case Group(body, reds) =>
      ScriptKind(body);
      WrapCore(ScriptMeans(body), reds);
      ScriptIsOf(body);
  }

  /** The printer's scripts are exactly those without needless parentheses, one for each tree. */
  lemma TightExactly(x: Script)
    ensures TightScript(x) <==> Unparse(ScriptMeans(x)) == x
  {
    if TightScript(x) {
      ScriptIsOf(x);
    } else {
      UnparseTight(ScriptMeans(x));
    }
  }
}
