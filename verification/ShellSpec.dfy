/** The command language of user/sh.c: tokens, command trees and the recursive descent of its parser. */
module ShellSpec {
  const NUL := '\0'
  const MAXARGS := 10

  predicate Space(c: char) { c == ' ' || c == '\t' || c == '\r' || c == '\n' || c == 11 as char }

  predicate Symbol(c: char) { c == '<' || c == '|' || c == '>' || c == '&' || c == ';' || c == '(' || c == ')' }

  predicate WordChar(c: char) { c != NUL && !Space(c) && !Symbol(c) }

  /** What strlen leaves: no NUL inside. */
  predicate CString(s: string) { forall i | 0 <= i < |s| :: s[i] != NUL }

  /** The byte at a position, with the terminating NUL at the end. */
  function At(s: string, i: nat): (c: char) { if i < |s| then s[i] else NUL }

  function SkipSpace(s: string, i: nat): (r: nat)
    requires i <= |s|
    ensures i <= r <= |s| && !(r < |s| && Space(s[r])) && forall k | i <= k < r :: Space(s[k])
    decreases |s| - i
  {
    if i < |s| && Space(s[i]) then SkipSpace(s, i + 1) else i
  }

  function SkipWord(s: string, i: nat): (r: nat)
    requires i <= |s|
    ensures i <= r <= |s| && !(r < |s| && !Space(s[r]) && !Symbol(s[r]))
    ensures forall k | i <= k < r :: !Space(s[k]) && !Symbol(s[k])
    decreases |s| - i
  {
    if i < |s| && !Space(s[i]) && !Symbol(s[i]) then SkipWord(s, i + 1) else i
  }

  /** kind is gettoken's result: NUL at the end, '+' for >>, 'a' for a word, else the symbol. */
  datatype Token = Token(kind: char, q: nat, eq: nat, next: nat)

  function TokenAt(s: string, i: nat): (t: Token)
    requires i <= |s| && CString(s)
    ensures i <= t.q <= t.eq <= t.next <= |s|
    ensures t.kind == NUL <==> t.q == |s|
    ensures t.kind != NUL ==> t.q < t.eq
  {
    var q := SkipSpace(s, i);
    var c := At(s, q);
    if c == NUL then Token(NUL, q, q, q)
    else if c == '>' then
      if At(s, q + 1) == '>' then Token('+', q, q + 2, SkipSpace(s, q + 2))
      else Token('>', q, q + 1, SkipSpace(s, q + 1))
    else if Symbol(c) then Token(c, q, q + 1, SkipSpace(s, q + 1))
    else
      var e := SkipWord(s, q);
      Token('a', q, e, SkipSpace(s, e))
  }

  predicate PeekAt(s: string, i: nat, toks: string)
    requires i <= |s|
  {
    var c := At(s, SkipSpace(s, i));
    c != NUL && c in toks
  }

  // ---------------------------------------------------------------- command trees

  datatype Mode = Read | Truncate | Append

  /** Trees over W: spans of the input in the parser, strings in the language. */
  datatype Cmd<W> = Exec(args: seq<W>) | Redir(cmd: Cmd<W>, file: W, mode: Mode)
                  | Pipe(left: Cmd<W>, right: Cmd<W>) | List(left: Cmd<W>, right: Cmd<W>) | Back(cmd: Cmd<W>)

  datatype Span = Span(q: nat, eq: nat)

  datatype Result = Ok(cmd: Cmd<Span>, next: nat) | Panic(msg: string)

  // ---------------------------------------------------------------- the grammar

  function Line(s: string, i: nat): (r: Result)
    requires i <= |s| && CString(s)
    ensures r.Ok? ==> i <= r.next <= |s|
    decreases |s| - i, 3
  {
    var r := PipeLine(s, i);
    if r.Panic? then r else
    var (c, j) := Backs(s, r.cmd, r.next);
    if !PeekAt(s, j, ";") then Ok(c, SkipSpace(s, j)) else
    var t := TokenAt(s, j);
    var rest := Line(s, t.next);
    if rest.Panic? then rest else Ok(List(c, rest.cmd), rest.next)
  }

  function Backs(s: string, c: Cmd<Span>, i: nat): (r: (Cmd<Span>, nat))
    requires i <= |s| && CString(s)
    ensures i <= r.1 <= |s|
    decreases |s| - i
  {
    if PeekAt(s, i, "&") then Backs(s, Back(c), TokenAt(s, i).next) else (c, SkipSpace(s, i))
  }

  function PipeLine(s: string, i: nat): (r: Result)
    requires i <= |s| && CString(s)
    ensures r.Ok? ==> i <= r.next <= |s|
    decreases |s| - i, 2
  {
    var r := Simple(s, i);
    if r.Panic? then r else
    if !PeekAt(s, r.next, "|") then Ok(r.cmd, SkipSpace(s, r.next)) else
    var rest := PipeLine(s, TokenAt(s, r.next).next);
    if rest.Panic? then rest else Ok(Pipe(r.cmd, rest.cmd), rest.next)
  }

  /** parseexec. */
  function Simple(s: string, i: nat): (r: Result)
    requires i <= |s| && CString(s)
    ensures r.Ok? ==> i <= r.next <= |s|
    decreases |s| - i, 1
  {
    if PeekAt(s, i, "(") then Block(s, i) else
    var r := Redirs(s, Exec([]), SkipSpace(s, i));
    if r.Panic? then r else Args(s, r.cmd, [], r.next)
  }

  function Block(s: string, i: nat): (r: Result)
    requires i <= |s| && CString(s) && PeekAt(s, i, "(")
    ensures r.Ok? ==> i <= r.next <= |s|
    decreases |s| - i, 0
  {
    var r := Line(s, TokenAt(s, i).next);
    if r.Panic? then r else
    if !PeekAt(s, r.next, ")") then Panic("syntax - missing )") else
    Redirs(s, r.cmd, TokenAt(s, r.next).next)
  }

  function ModeOf(kind: char): (m: Mode) { if kind == '<' then Read else if kind == '>' then Truncate else Append }

  function Redirs(s: string, c: Cmd<Span>, i: nat): (r: Result)
    requires i <= |s| && CString(s)
    ensures r.Ok? ==> i <= r.next <= |s|
    decreases |s| - i
  {
    if !PeekAt(s, i, "<>") then Ok(c, SkipSpace(s, i)) else
    var t := TokenAt(s, i);
    var f := TokenAt(s, t.next);
    if f.kind != 'a' then Panic("missing file for redirection")
    else Redirs(s, Redir(c, Span(f.q, f.eq), ModeOf(t.kind)), f.next)
  }

  /** argv lives in the innermost command, under the redirections collected so far. */
  function WithArgs<W>(c: Cmd<W>, args: seq<W>): (r: Cmd<W>)
  {
    match c
    case Redir(d, f, m) => Redir(WithArgs(d, args), f, m)
    case _ => Exec(args)
  }

  function Args(s: string, c: Cmd<Span>, args: seq<Span>, i: nat): (r: Result)
    requires i <= |s| && CString(s)
    ensures r.Ok? ==> i <= r.next <= |s|
    decreases |s| - i
  {
    if PeekAt(s, i, "|)&;") then Ok(c, SkipSpace(s, i)) else
    var t := TokenAt(s, i);
    if t.kind == NUL then Ok(c, t.next)
    else if t.kind != 'a' then Panic("syntax")
    else
      var args1 := args + [Span(t.q, t.eq)];
      if |args1| >= MAXARGS then Panic("too many args") else
      var r := Redirs(s, WithArgs(c, args1), t.next);
      if r.Panic? then r else Args(s, r.cmd, args1, r.next)
  }

  /** parsecmd, before it NUL-terminates the words. */
  function Parsed(s: string): (r: Result)
    requires CString(s)
  {
    var r := Line(s, 0);
    if r.Panic? then r
    else if SkipSpace(s, r.next) != |s| then Panic("syntax") else Ok(r.cmd, |s|)
  }
}
