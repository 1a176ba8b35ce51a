/** The recursive-descent parser of user/sh.c, with its moving cursor, and nulterminate on the
    line buffer. */
module Shell {
  import opened ShellSpec
  import opened ShellLaws

  datatype Outcome = Done(cmd: Cmd<Span>) | Failed(msg: string)

  /** The method's outcome and cursor are what the grammar says. */
  predicate Agrees(r: Result, o: Outcome, ps: nat)
  {
    match r
    case Ok(c, n) => o == Done(c) && ps == n
    case Panic(m) => o == Failed(m)
  }

  lemma SkipTwice(s: string, i: nat)
    requires i <= |s| && CString(s)
    ensures SkipSpace(s, SkipSpace(s, i)) == SkipSpace(s, i) && TokenAt(s, SkipSpace(s, i)) == TokenAt(s, i)
    ensures forall toks :: PeekAt(s, SkipSpace(s, i), toks) == PeekAt(s, i, toks)
  {
  }

  /** Skipping blanks first makes no difference to the loops. */
  lemma LoopsSkip(s: string, i: nat)
    requires i <= |s| && CString(s)
    ensures forall c :: Backs(s, c, SkipSpace(s, i)) == Backs(s, c, i)
    ensures forall c :: Redirs(s, c, SkipSpace(s, i)) == Redirs(s, c, i)
    ensures forall c, a :: Args(s, c, a, SkipSpace(s, i)) == Args(s, c, a, i)
  {
    hide SkipSpace, TokenAt, PeekAt;
    SkipTwice(s, i);
  }

  lemma EndStays(s: string, i: nat)
    requires i <= |s| && CString(s)
    ensures At(s, SkipSpace(s, i)) == NUL ==> SkipSpace(s, SkipSpace(s, i)) == SkipSpace(s, i)
  {
  }

  lemma BlockSkip(s: string, i: nat)
    requires i <= |s| && CString(s)
    ensures PeekAt(s, i, "(") ==> PeekAt(s, SkipSpace(s, i), "(") && Block(s, SkipSpace(s, i)) == Block(s, i)
  {
    hide SkipSpace, TokenAt, PeekAt, Line, Redirs;
    SkipTwice(s, i);
  }

  /** Consuming a token that was seen moves the cursor. */
  lemma Progress(s: string, i: nat, toks: string)
    requires i <= |s| && CString(s) && PeekAt(s, i, toks)
    ensures TokenAt(s, i).next > i
  {
  }

  lemma ArgsSkip(s: string, c: Cmd<Span>, args: seq<Span>, i: nat)
    requires i <= |s| && CString(s)
    ensures Args(s, c, args, SkipSpace(s, i)) == Args(s, c, args, i)
  {
    hide SkipSpace, TokenAt, PeekAt, Redirs;
    SkipTwice(s, i);
  }

  lemma ArgsEnd(s: string, c: Cmd<Span>, args: seq<Span>, i: nat)
    requires i <= |s| && CString(s) && PeekAt(s, i, "|)&;") && SkipSpace(s, i) == i
    ensures Args(s, c, args, i) == Ok(c, i)
  {
  }

  /** One round of parseexec's loop. */
  lemma ArgsRound(s: string, c: Cmd<Span>, args: seq<Span>, i: nat)
    requires i <= |s| && CString(s) && !PeekAt(s, i, "|)&;")
    ensures var t := TokenAt(s, i);
            var args1 := args + [Span(t.q, t.eq)];
            && (t.kind == NUL ==> Args(s, c, args, i) == Ok(c, t.next))
            && (t.kind != NUL ==> t.next > i)
            && (t.kind != NUL && t.kind != 'a' ==> Args(s, c, args, i) == Panic("syntax"))
            && (t.kind == 'a' && |args1| >= MAXARGS ==> Args(s, c, args, i) == Panic("too many args"))
            && (t.kind == 'a' && |args1| < MAXARGS ==>
                  var r := Redirs(s, WithArgs(c, args1), t.next);
                  Args(s, c, args, i) == if r.Panic? then r else Args(s, r.cmd, args1, r.next))
  {
    hide TokenAt, PeekAt, Redirs, SkipSpace;
  }

  lemma RedirsStep(s: string, c: Cmd<Span>, i: nat)
    requires i <= |s| && CString(s) && PeekAt(s, i, "<>")
    ensures var t := TokenAt(s, i); var f := TokenAt(s, t.next);
            && t.next > i && (t.kind == '<' || t.kind == '>' || t.kind == '+')
            && Redirs(s, c, i) == if f.kind != 'a' then Panic("missing file for redirection")
                                  else Redirs(s, Redir(c, Span(f.q, f.eq), ModeOf(t.kind)), f.next)
  {
  }

  lemma RedirsSkip(s: string, c: Cmd<Span>, i: nat)
    requires i <= |s| && CString(s)
    ensures Redirs(s, c, SkipSpace(s, i)) == Redirs(s, c, i)
  {
    hide SkipSpace, TokenAt, PeekAt;
    SkipTwice(s, i);
  }

  lemma RedirsDone(s: string, c: Cmd<Span>, i: nat)
    requires i <= |s| && CString(s) && !PeekAt(s, i, "<>") && SkipSpace(s, i) == i
    ensures Redirs(s, c, i) == Ok(c, i)
  {
  }

  ghost predicate EndsIn(args: seq<Span>, k: nat) { exists j :: 0 <= j < |args| && args[j].eq == k }

  lemma EndsInMore(args: seq<Span>, i: nat)
    requires i < |args|
    ensures forall k: nat :: EndsIn(args[..i + 1], k) <==> EndsIn(args[..i], k) || args[i].eq == k
  {
    forall k: nat ensures EndsIn(args[..i + 1], k) <==> EndsIn(args[..i], k) || args[i].eq == k {
      if EndsIn(args[..i], k) {
        var j :| 0 <= j < i && args[..i][j].eq == k;
        assert args[..i + 1][j].eq == k;
      }
      if args[i].eq == k {
        assert args[..i + 1][i].eq == k;
      }
      if EndsIn(args[..i + 1], k) && args[i].eq != k {
        var j :| 0 <= j < i + 1 && args[..i + 1][j].eq == k;
        assert args[..i][j].eq == k;
      }
    }
  }

  lemma AllEnds(args: seq<Span>)
    ensures forall k: nat :: EndsIn(args, k) <==> k in Ends(Exec(args))
  {
    forall k: nat ensures EndsIn(args, k) <==> k in Ends(Exec(args)) {
      if EndsIn(args, k) {
        var j :| 0 <= j < |args| && args[j].eq == k;
        assert args[j] in args;
      }
    }
  }

  // ---------------------------------------------------------------- NUL termination in place

  /** nulterminate: NULs at the ends of the tree's words and nowhere else. */
  method NulTerminate(c: Cmd<Span>, buf: array<char>, s: string)
    requires TreeOk(s, c) && buf.Length == |s| + 1
    modifies buf
    ensures forall i: nat | i < buf.Length :: buf[i] == if i in Ends(c) then NUL else old(buf[i])
    decreases c
  {
    match c
    case Exec(args) =>
      var i := 0;
      while i < |args|
        invariant 0 <= i <= |args|
        invariant forall k: nat | k < buf.Length :: buf[k] == if EndsIn(args[..i], k) then NUL else old(buf[k])
      {
        buf[args[i].eq] := NUL;
        EndsInMore(args, i);
        i := i + 1;
      }
      assert args[..|args|] == args;
      AllEnds(args);
    case Redir(d, f, m) =>
      NulTerminate(d, buf, s);
      buf[f.eq] := NUL;
    case Pipe(l, r) =>
      NulTerminate(l, buf, s);
      NulTerminate(r, buf, s);
    case List(l, r) =>
      NulTerminate(l, buf, s);
      NulTerminate(r, buf, s);
    case Back(d) =>
      NulTerminate(d, buf, s);
  }

  class Parser {
    const s: string
    var ps: nat

    constructor (s: string)
      ensures this.s == s && ps == 0
    {
      this.s := s;
      ps := 0;
    }

    ghost predicate Valid()
      reads this
    {
      ps <= |s| && CString(s)
    }

    method SkipBlanks(i: nat) returns (j: nat)
      requires i <= |s|
      ensures j == SkipSpace(s, i)
    {
      j := i;
      while j < |s| && Space(s[j])
        invariant i <= j <= |s| && SkipSpace(s, j) == SkipSpace(s, i)
      {
        j := j + 1;
      }
    }

    method GetToken() returns (kind: char, q: nat, eq: nat)
      requires Valid()
      modifies this`ps
      ensures Valid() && TokenAt(s, old(ps)) == Token(kind, q, eq, ps)
    {
      hide SkipSpace, SkipWord;
      q := SkipBlanks(ps);
      kind := At(s, q);
      var i := q;
      if kind == NUL {
      } else if kind == '|' || kind == '(' || kind == ')' || kind == ';' || kind == '&' || kind == '<' {
        i := i + 1;
      } else if kind == '>' {
        i := i + 1;
        if At(s, i) == '>' {
          kind := '+';
          i := i + 1;
        }
      } else {
        kind := 'a';
        i := EndOfWord(i);
      }
      eq := i;
      ps := SkipBlanks(i);
      if kind == NUL {
        EndStays(s, old(ps));
      }
    }

    method EndOfWord(i: nat) returns (j: nat)
      requires i <= |s|
      ensures j == SkipWord(s, i)
    {
      j := i;
      while j < |s| && !Space(s[j]) && !Symbol(s[j])
        invariant i <= j <= |s| && SkipWord(s, j) == SkipWord(s, i)
      {
        j := j + 1;
      }
    }

    method Peek(toks: string) returns (b: bool)
      requires Valid()
      modifies this`ps
      ensures Valid() && ps == SkipSpace(s, old(ps)) && b == PeekAt(s, old(ps), toks)
    {
      ps := SkipBlanks(ps);
      return At(s, ps) != NUL && At(s, ps) in toks;
    }

    method ParseCmd() returns (o: Outcome)
      requires Valid() && ps == 0
      modifies this`ps
      ensures Agrees(Parsed(s), o, ps)
    {
      hide Line, SkipSpace;
      o := ParseLine();
      if o.Done? {
        var b := Peek("");
        if ps != |s| {
          return Failed("syntax");
        }
      }
    }

    method ParseLine() returns (o: Outcome)
      requires Valid()
      modifies this`ps
      ensures o.Done? ==> Valid()
      ensures Agrees(Line(s, old(ps)), o, ps)
      decreases |s| - ps, 3
    {
      hide PipeLine, SkipSpace, TokenAt, PeekAt, Backs;
      o := ParsePipe();
      if o.Failed? {
        return;
      }
      var cmd := ParseBacks(o.cmd);
      SkipTwice(s, ps);
      var list := Peek(";");
      if list {
        ghost var j := ps;
        var kind, q, eq := GetToken();
        Progress(s, j, ";");
        var rest := ParseLine();
        if rest.Failed? {
          return rest;
        }
        cmd := List(cmd, rest.cmd);
      }
      return Done(cmd);
    }

    /** The loop of parseline over trailing &. */
    method ParseBacks(c: Cmd<Span>) returns (cmd: Cmd<Span>)
      requires Valid()
      modifies this`ps
      ensures Valid() && old(ps) <= ps && (cmd, ps) == Backs(s, c, old(ps))
    {
      hide SkipSpace, TokenAt, PeekAt, Redirs, Args;
      cmd := c;
      LoopsSkip(s, ps);
      SkipTwice(s, ps);
      var more := Peek("&");
      while more
        invariant Valid() && old(ps) <= ps && SkipSpace(s, ps) == ps && more == PeekAt(s, ps, "&")
        invariant Backs(s, cmd, ps) == Backs(s, c, old(ps))
        decreases |s| - ps
      {
        Progress(s, ps, "&");
        var kind, q, eq := GetToken();
        cmd := Back(cmd);
        LoopsSkip(s, ps);
        SkipTwice(s, ps);
        more := Peek("&");
      }
    }

    method ParsePipe() returns (o: Outcome)
      requires Valid()
      modifies this`ps
      ensures o.Done? ==> Valid()
      ensures Agrees(PipeLine(s, old(ps)), o, ps)
      decreases |s| - ps, 2
    {
      hide Simple, SkipSpace, TokenAt, PeekAt;
      o := ParseExec();
      if o.Failed? {
        return;
      }
      SkipTwice(s, ps);
      var piped := Peek("|");
      if piped {
        ghost var j := ps;
        var kind, q, eq := GetToken();
        Progress(s, j, "|");
        var rest := ParsePipe();
        if rest.Failed? {
          return rest;
        }
        return Done(Pipe(o.cmd, rest.cmd));
      }
    }

    method ParseRedirs(c: Cmd<Span>) returns (o: Outcome)
      requires Valid()
      modifies this`ps
      ensures o.Done? ==> Valid() && old(ps) <= ps
      ensures Agrees(Redirs(s, c, old(ps)), o, ps)
    {
      hide SkipSpace, TokenAt, PeekAt, Redirs;
      var cmd := c;
      RedirsSkip(s, cmd, ps);
      SkipTwice(s, ps);
      var more := Peek("<>");
      while more
        invariant Valid() && old(ps) <= ps && SkipSpace(s, ps) == ps && more == PeekAt(s, ps, "<>")
        invariant Redirs(s, cmd, ps) == Redirs(s, c, old(ps))
        decreases |s| - ps
      {
        RedirsStep(s, cmd, ps);
        var tok, q0, eq0 := GetToken();
        var kind, q, eq := GetToken();
        if kind != 'a' {
          return Failed("missing file for redirection");
        }
        if tok == '<' {
          cmd := Redir(cmd, Span(q, eq), Read);
        } else if tok == '>' {
          cmd := Redir(cmd, Span(q, eq), Truncate);
        } else if tok == '+' {
          cmd := Redir(cmd, Span(q, eq), Append);
        }
        RedirsSkip(s, cmd, ps);
        SkipTwice(s, ps);
        more := Peek("<>");
      }
      RedirsDone(s, cmd, ps);
      return Done(cmd);
    }

    /** parseblock; its first panic is unreachable. */
    method ParseBlock() returns (o: Outcome)
      requires Valid() && PeekAt(s, ps, "(")
      modifies this`ps
      ensures o.Done? ==> Valid()
      ensures Agrees(Block(s, old(ps)), o, ps)
      decreases |s| - ps, 0
    {
      hide Line, SkipSpace, TokenAt, PeekAt, Redirs;
      SkipTwice(s, ps);
      var open := Peek("(");
      assert open;
      ghost var i := ps;
      var kind, q, eq := GetToken();
      Progress(s, i, "(");
      o := ParseLine();
      if o.Failed? {
        return;
      }
      SkipTwice(s, ps);
      var close := Peek(")");
      if !close {
        return Failed("syntax - missing )");
      }
      kind, q, eq := GetToken();
      o := ParseRedirs(o.cmd);
    }

    method ParseExec() returns (o: Outcome)
      requires Valid()
      modifies this`ps
      ensures o.Done? ==> Valid()
      ensures Agrees(Simple(s, old(ps)), o, ps)
      decreases |s| - ps, 1
    {
      hide Block, SkipSpace, TokenAt, PeekAt, Redirs, Args, WithArgs;
      SkipTwice(s, ps);
      BlockSkip(s, ps);
      var block := Peek("(");
      if block {
        o := ParseBlock();
        return;
      }
      ghost var start := ps;
      var ret := ParseRedirs(Exec([]));
      if ret.Failed? {
        return ret;
      }
      var args: seq<Span> := [];
      ghost var c0, i0 := ret.cmd, ps;
      ArgsSkip(s, ret.cmd, args, ps);
      SkipTwice(s, ps);
      var stop := Peek("|)&;");
      while !stop
        invariant Valid() && i0 <= ps && SkipSpace(s, ps) == ps && stop == PeekAt(s, ps, "|)&;")
        invariant ret.Done? && |args| < MAXARGS && Args(s, ret.cmd, args, ps) == Args(s, c0, [], i0)
        decreases |s| - ps
      {
        ArgsRound(s, ret.cmd, args, ps);
        var tok, q, eq := GetToken();
        if tok == NUL {
          return ret;
        }
        if tok != 'a' {
          return Failed("syntax");
        }
        args := args + [Span(q, eq)];
        if |args| >= MAXARGS {
          return Failed("too many args");
        }
        ret := ParseRedirs(WithArgs(ret.cmd, args));
        if ret.Failed? {
          return ret;
        }
        ArgsSkip(s, ret.cmd, args, ps);
        SkipTwice(s, ps);
        stop := Peek("|)&;");
      }
      ArgsEnd(s, ret.cmd, args, ps);
      return ret;
    }
  }

  /** parsecmd as a whole: parse, then cut the line buffer into C strings. */
  method ParseLineBuffer(s: string, buf: array<char>) returns (o: Outcome)
    requires CString(s) && buf.Length == |s| + 1 && buf[..|s|] == s && buf[|s|] == NUL
    modifies buf
    ensures o.Done? <==> Parsed(s).Ok?
    ensures o.Done? ==> o.cmd == Parsed(s).cmd
    ensures o.Done? ==> forall w | w in WordsOf(o.cmd) :: w.q <= w.eq <= |s| && StringAt(buf[..], w.q, s[w.q..w.eq])
  {
    hide Parsed, SkipSpace;
    var p := new Parser(s);
    o := p.ParseCmd();
    if o.Done? {
      ParsedOk(s);
      NulTerminate(o.cmd, buf, s);
      assert Terminated(s, o.cmd, buf[..]);
      forall w | w in WordsOf(o.cmd) ensures w.q <= w.eq <= |s| && StringAt(buf[..], w.q, s[w.q..w.eq]) {
        ReadsBack(s, o.cmd, buf[..], w);
      }
    }
  }
}
