/** Laws of the shell's parser: the words of every parse, and their NUL termination. */
module ShellLaws {
  import opened ShellSpec

  // ---------------------------------------------------------------- every word is a whole token

  /** A word of the input: only word characters, and none right after it. */
  ghost predicate SpanOk(s: string, w: Span)
  {
    && w.q < w.eq <= |s| && (forall k | w.q <= k < w.eq :: WordChar(s[k]))
    && (w.eq < |s| ==> !WordChar(s[w.eq]))
  }

  /** All words of a tree are whole tokens and no argv overflows. */
  ghost predicate TreeOk(s: string, c: Cmd<Span>)
  {
    match c
    case Exec(args) => |args| < MAXARGS && forall i | 0 <= i < |args| :: SpanOk(s, args[i])
    case Redir(d, f, m) => TreeOk(s, d) && SpanOk(s, f)
    case Pipe(l, r) => TreeOk(s, l) && TreeOk(s, r)
    case List(l, r) => TreeOk(s, l) && TreeOk(s, r)
    case Back(d) => TreeOk(s, d)
  }

  lemma WordToken(s: string, i: nat)
    requires i <= |s| && CString(s) && TokenAt(s, i).kind == 'a'
    ensures SpanOk(s, Span(TokenAt(s, i).q, TokenAt(s, i).eq))
  {
  }

  lemma {:induction false} RedirsOk(s: string, c: Cmd<Span>, i: nat)
    requires i <= |s| && CString(s) && TreeOk(s, c)
    ensures Redirs(s, c, i).Ok? ==> TreeOk(s, Redirs(s, c, i).cmd)
    decreases |s| - i
  {
    if PeekAt(s, i, "<>") {
      var t := TokenAt(s, i);
      var f := TokenAt(s, t.next);
      if f.kind == 'a' {
        WordToken(s, t.next);
        RedirsOk(s, Redir(c, Span(f.q, f.eq), ModeOf(t.kind)), f.next);
      }
    }
  }

  lemma {:induction false} WithArgsOk(s: string, c: Cmd<Span>, args: seq<Span>)
    requires TreeOk(s, c) && TreeOk(s, Exec(args))
    ensures TreeOk(s, WithArgs(c, args))
  {
    if c.Redir? {
      WithArgsOk(s, c.cmd, args);
    }
  }

  lemma {:induction false} ArgsOk(s: string, c: Cmd<Span>, args: seq<Span>, i: nat)
    requires i <= |s| && CString(s) && TreeOk(s, c) && TreeOk(s, Exec(args))
    ensures Args(s, c, args, i).Ok? ==> TreeOk(s, Args(s, c, args, i).cmd)
    decreases |s| - i
  {
    var t := TokenAt(s, i);
    if !PeekAt(s, i, "|)&;") && t.kind == 'a' {
      WordToken(s, i);
      var args1 := args + [Span(t.q, t.eq)];
      if |args1| < MAXARGS {
        WithArgsOk(s, c, args1);
        RedirsOk(s, WithArgs(c, args1), t.next);
        var r := Redirs(s, WithArgs(c, args1), t.next);
        if r.Ok? {
          ArgsOk(s, r.cmd, args1, r.next);
        }
      }
    }
  }

  lemma {:induction false} BacksOk(s: string, c: Cmd<Span>, i: nat)
    requires i <= |s| && CString(s) && TreeOk(s, c)
    ensures TreeOk(s, Backs(s, c, i).0)
    decreases |s| - i
  {
    if PeekAt(s, i, "&") {
      BacksOk(s, Back(c), TokenAt(s, i).next);
    }
  }

  lemma {:induction false} LineOk(s: string, i: nat)
    requires i <= |s| && CString(s)
    ensures Line(s, i).Ok? ==> TreeOk(s, Line(s, i).cmd)
    decreases |s| - i, 3
  {
    PipeLineOk(s, i);
    var r := PipeLine(s, i);
    if r.Ok? {
      BacksOk(s, r.cmd, r.next);
      var j := Backs(s, r.cmd, r.next).1;
      if PeekAt(s, j, ";") {
        LineOk(s, TokenAt(s, j).next);
      }
    }
  }

  lemma {:induction false} PipeLineOk(s: string, i: nat)
    requires i <= |s| && CString(s)
    ensures PipeLine(s, i).Ok? ==> TreeOk(s, PipeLine(s, i).cmd)
    decreases |s| - i, 2
  {
    SimpleOk(s, i);
    var r := Simple(s, i);
    if r.Ok? && PeekAt(s, r.next, "|") {
      PipeLineOk(s, TokenAt(s, r.next).next);
    }
  }

  lemma {:induction false} SimpleOk(s: string, i: nat)
    requires i <= |s| && CString(s)
    ensures Simple(s, i).Ok? ==> TreeOk(s, Simple(s, i).cmd)
    decreases |s| - i, 1
  {
    if PeekAt(s, i, "(") {
      var r := Line(s, TokenAt(s, i).next);
      LineOk(s, TokenAt(s, i).next);
      if r.Ok? && PeekAt(s, r.next, ")") {
        RedirsOk(s, r.cmd, TokenAt(s, r.next).next);
      }
    } else {
      RedirsOk(s, Exec([]), SkipSpace(s, i));
      var r := Redirs(s, Exec([]), SkipSpace(s, i));
      if r.Ok? {
        ArgsOk(s, r.cmd, [], r.next);
      }
    }
  }

  /** Whatever the input, a parse that does not panic has only whole words and argv in bounds. */
  lemma ParsedOk(s: string)
    requires CString(s)
    ensures Parsed(s).Ok? ==> TreeOk(s, Parsed(s).cmd)
  {
    LineOk(s, 0);
  }

  // ---------------------------------------------------------------- NUL termination

  /** The places where nulterminate writes. */
  function Ends(c: Cmd<Span>): (e: set<nat>)
  {
    match c
    case Exec(args) => set w | w in args :: w.eq
    case Redir(d, f, m) => Ends(d) + {f.eq}
    case Pipe(l, r) => Ends(l) + Ends(r)
    case List(l, r) => Ends(l) + Ends(r)
    case Back(d) => Ends(d)
  }

  function WordsOf(c: Cmd<Span>): (ws: set<Span>)
  {
    match c
    case Exec(args) => set w | w in args
    case Redir(d, f, m) => WordsOf(d) + {f}
    case Pipe(l, r) => WordsOf(l) + WordsOf(r)
    case List(l, r) => WordsOf(l) + WordsOf(r)
    case Back(d) => WordsOf(d)
  }

  /** The line buffer after NUL-terminating the words of a tree: |s| bytes and the final NUL. */
  ghost predicate Terminated(s: string, c: Cmd<Span>, buf: seq<char>)
  {
    |buf| == |s| + 1 && forall i: nat | i <= |s| :: buf[i] == if i in Ends(c) then NUL else At(s, i)
  }

  /** A C string at a position of the buffer. */
  ghost predicate StringAt(buf: seq<char>, q: nat, w: string)
  {
    && q + |w| < |buf| && buf[q + |w|] == NUL
    && forall k | 0 <= k < |w| :: buf[q + k] == w[k] && w[k] != NUL
  }

  lemma {:induction false} EndsAreOutside(s: string, c: Cmd<Span>, e: nat)
    requires TreeOk(s, c) && e in Ends(c)
    ensures e <= |s| && (e < |s| ==> !WordChar(s[e]))
  {
    match c
    case Exec(args) =>
    case Redir(d, f, m) => if e in Ends(d) { EndsAreOutside(s, d, e); }
    case Pipe(l, r) => if e in Ends(l) { EndsAreOutside(s, l, e); } else { EndsAreOutside(s, r, e); }
    case List(l, r) => if e in Ends(l) { EndsAreOutside(s, l, e); } else { EndsAreOutside(s, r, e); }
    case Back(d) => EndsAreOutside(s, d, e);
  }

  lemma {:induction false} WordsEnd(s: string, c: Cmd<Span>, w: Span)
    requires TreeOk(s, c) && w in WordsOf(c)
    ensures SpanOk(s, w) && w.eq in Ends(c)
  {
    match c
    case Exec(args) =>
    case Redir(d, f, m) => if w in WordsOf(d) { WordsEnd(s, d, w); }
    case Pipe(l, r) => if w in WordsOf(l) { WordsEnd(s, l, w); } else { WordsEnd(s, r, w); }
    case List(l, r) => if w in WordsOf(l) { WordsEnd(s, l, w); } else { WordsEnd(s, r, w); }
    case Back(d) => WordsEnd(s, d, w);
  }

  /** After NUL termination every argument and file name reads back as its token. */
  lemma ReadsBack(s: string, c: Cmd<Span>, buf: seq<char>, w: Span)
    requires TreeOk(s, c) && Terminated(s, c, buf) && w in WordsOf(c)
    ensures w.q <= w.eq <= |s| && StringAt(buf, w.q, s[w.q..w.eq])
  {
    WordsEnd(s, c, w);
    forall k | w.q <= k < w.eq ensures k !in Ends(c) {
      if k in Ends(c) {
        EndsAreOutside(s, c, k);
      }
    }
  }
}
