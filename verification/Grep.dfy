/** The pattern matcher of user/grep.c (match, matchhere, matchstar) decides its language. */
module Grep {
  // ---------------------------------------------------------------- the pattern language

  datatype Atom = Any | Char(c: char)
  datatype Item = One(a: Atom) | Star(a: Atom)

  function AtomOf(c: char): (a: Atom) { if c == '.' then Any else Char(c) }

  predicate Fits(a: Atom, c: char) { a.Any? || a.c == c }

  /** A `*` is special only after another character, a `$` only as the very last one. */
  function ItemsOf(re: string): (items: seq<Item>)
    ensures |items| <= |re|
  {
    if re == "" || re == "$" then []
    else if |re| >= 2 && re[1] == '*' then [Star(AtomOf(re[0]))] + ItemsOf(re[2..])
    else [One(AtomOf(re[0]))] + ItemsOf(re[1..])
  }

  predicate Ended(re: string)
  {
    if re == "" then false
    else if re == "$" then true
    else if |re| >= 2 && re[1] == '*' then Ended(re[2..])
    else Ended(re[1..])
  }

  predicate AllFit(a: Atom, w: string) { forall k | 0 <= k < |w| :: Fits(a, w[k]) }

  /** The word w is in the language of the items. */
  ghost predicate In(items: seq<Item>, w: string)
  {
    if items == [] then w == ""
    else match items[0]
      case One(a) => w != "" && Fits(a, w[0]) && In(items[1..], w[1..])
      case Star(a) => exists j :: 0 <= j <= |w| && AllFit(a, w[..j]) && In(items[1..], w[j..])
  }

  /** A prefix of the text is in the language, the whole text if the pattern ends in `$`. */
  ghost predicate Begins(items: seq<Item>, ended: bool, text: string)
  {
    exists k :: 0 <= k <= |text| && In(items, text[..k]) && (ended ==> k == |text|)
  }

  ghost predicate Denotes(re: string, text: string) { Begins(ItemsOf(re), Ended(re), text) }

  /** What grep calls a match. */
  ghost predicate Matches(re: string, text: string)
  {
    if re != "" && re[0] == '^' then Denotes(re[1..], text)
    else exists i :: 0 <= i <= |text| && Denotes(re, text[i..])
  }

  // ---------------------------------------------------------------- the language one step at a time

  lemma BeginsNothing(ended: bool, text: string)
    ensures Begins([], ended, text) <==> (ended ==> text == "")
  {
    if ended ==> text == "" {
      assert In([], text[..0]);
    }
  }

  lemma BeginsOne(a: Atom, rest: seq<Item>, ended: bool, text: string)
    ensures Begins([One(a)] + rest, ended, text) <==> text != "" && Fits(a, text[0]) && Begins(rest, ended, text[1..])
  {
    var items := [One(a)] + rest;
    assert items[1..] == rest;
    if Begins(items, ended, text) {
      var k :| 0 <= k <= |text| && In(items, text[..k]) && (ended ==> k == |text|);
      assert text[..k][1..] == text[1..][..k - 1];
    }
    if text != "" && Fits(a, text[0]) && Begins(rest, ended, text[1..]) {
      var k :| 0 <= k <= |text[1..]| && In(rest, text[1..][..k]) && (ended ==> k == |text[1..]|);
      assert text[..k + 1][1..] == text[1..][..k];
      assert In(items, text[..k + 1]);
    }
  }

  lemma StarSplit(a: Atom, rest: seq<Item>, ended: bool, text: string) returns (j: nat)
    requires Begins([Star(a)] + rest, ended, text)
    ensures j <= |text| && AllFit(a, text[..j]) && Begins(rest, ended, text[j..])
  {
    var items := [Star(a)] + rest;
    assert items[1..] == rest;
    var k :| 0 <= k <= |text| && In(items, text[..k]) && (ended ==> k == |text|);
    var w := text[..k];
    j :| 0 <= j <= |w| && AllFit(a, w[..j]) && In(rest, w[j..]);
    assert w[..j] == text[..j] && w[j..] == text[j..][..k - j];
  }

  lemma StarJoin(a: Atom, rest: seq<Item>, ended: bool, text: string, j: nat)
    requires j <= |text| && AllFit(a, text[..j]) && Begins(rest, ended, text[j..])
    ensures Begins([Star(a)] + rest, ended, text)
  {
    var items := [Star(a)] + rest;
    assert items[1..] == rest;
    var k :| 0 <= k <= |text[j..]| && In(rest, text[j..][..k]) && (ended ==> k == |text[j..]|);
    var w := text[..j + k];
    assert w[..j] == text[..j] && w[j..] == text[j..][..k];
    assert In(items, w);
  }

  /** Once the starred character stops fitting, no longer run needs trying. */
  lemma StarStops(a: Atom, rest: seq<Item>, ended: bool, text: string, t: nat)
    requires t <= |text| && (t < |text| ==> !Fits(a, text[t]))
    requires forall j | 0 <= j <= t :: !Begins(rest, ended, text[j..])
    ensures !Begins([Star(a)] + rest, ended, text)
  {
    hide Begins;
    if Begins([Star(a)] + rest, ended, text) {
      var j := StarSplit(a, rest, ended, text);
    }
  }

  // ---------------------------------------------------------------- the matcher

  method Match(re: string, text: string) returns (b: bool)
    ensures b <==> Matches(re, text)
  {
    if re != "" && re[0] == '^' {
      b := MatchHere(re[1..], text);
      return;
    }
    var t := 0;
    while true
      invariant 0 <= t <= |text| && forall i | 0 <= i < t :: !Denotes(re, text[i..])
      decreases |text| - t
    {
      b := MatchHere(re, text[t..]);
      if b {
        return true;
      }
      if t == |text| {
        return false;
      }
      t := t + 1;
    }
  }

  method MatchHere(re: string, text: string) returns (b: bool)
    ensures b <==> Denotes(re, text)
    decreases |re|, |text|, 0
  {
    hide Begins;
    if re == "" {
      BeginsNothing(false, text);
      return true;
    }
    if |re| >= 2 && re[1] == '*' {
      b := MatchStar(re[0], re[2..], text);
      return;
    }
    if re == "$" {
      BeginsNothing(true, text);
      return text == "";
    }
    BeginsOne(AtomOf(re[0]), ItemsOf(re[1..]), Ended(re), text);
    if text != "" && (re[0] == '.' || re[0] == text[0]) {
      b := MatchHere(re[1..], text[1..]);
      return;
    }
    return false;
  }

  method MatchStar(c: char, re: string, text: string) returns (b: bool)
    ensures b <==> Begins([Star(AtomOf(c))] + ItemsOf(re), Ended(re), text)
    decreases |re|, |text|, 1
  {
    hide Begins;
    var a := AtomOf(c);
    var t := 0;
    while true
      invariant 0 <= t <= |text| && AllFit(a, text[..t])
      invariant forall j | 0 <= j < t :: !Denotes(re, text[j..])
      decreases |text| - t
    {
      b := MatchHere(re, text[t..]);
      if b {
        StarJoin(a, ItemsOf(re), Ended(re), text, t);
        return true;
      }
      if !(t < |text| && (text[t] == c || c == '.')) {
        StarStops(a, ItemsOf(re), Ended(re), text, t);
        return false;
      }
      t := t + 1;
    }
  }

  // ---------------------------------------------------------------- literal patterns

  /** Ordinary characters and dots. */
  predicate Literal(re: string) { forall i | 0 <= i < |re| :: re[i] != '*' && re[i] != '$' && re[i] != '^' }

  /** Character by character, a dot standing for any one. */
  predicate Spells(re: string, w: string)
  {
    |re| == |w| && forall i | 0 <= i < |re| :: re[i] == '.' || re[i] == w[i]
  }

  lemma {:induction false} LiteralPrefix(re: string, tail: string, text: string)
    requires Literal(re) && (tail == "" || tail == "$")
    ensures Denotes(re + tail, text)
            <==> |re| <= |text| && Spells(re, text[..|re|]) && (tail == "$" ==> |text| == |re|)
  {
    if re == "" {
      assert re + tail == tail;
      BeginsNothing(Ended(tail), text);
    } else {
      var more := re[1..] + tail;
      assert re + tail == [re[0]] + more && (re + tail)[1..] == more;
      assert |more| > 0 ==> more[0] != '*';
      BeginsOne(AtomOf(re[0]), ItemsOf(more), Ended(more), text);
      if text != "" {
        LiteralPrefix(re[1..], tail, text[1..]);
        SpellsStep(re, text);
      }
    }
  }

  lemma SpellsStep(re: string, text: string)
    requires re != "" && text != ""
    ensures |re| <= |text| && Spells(re, text[..|re|])
            <==> Fits(AtomOf(re[0]), text[0]) && |re[1..]| <= |text[1..]| && Spells(re[1..], text[1..][..|re[1..]|])
  {
    if |re| <= |text| {
      assert text[..|re|] == [text[0]] + text[1..][..|re| - 1] && re == [re[0]] + re[1..];
    }
  }

  /** A literal pattern matches exactly the texts that spell it somewhere. */
  lemma LiteralAnywhere(re: string, text: string)
    requires Literal(re)
    ensures Matches(re, text) <==> exists i :: 0 <= i <= |text| - |re| && Spells(re, text[i..][..|re|])
  {
    assert re + "" == re;
    forall i | 0 <= i <= |text|
      ensures Denotes(re, text[i..]) <==> i <= |text| - |re| && Spells(re, text[i..][..|re|])
    {
      LiteralPrefix(re, "", text[i..]);
    }
  }

  /** `^` anchors it at the beginning, */
  lemma LiteralAtStart(re: string, text: string)
    requires Literal(re)
    ensures Matches("^" + re, text) <==> |re| <= |text| && Spells(re, text[..|re|])
  {
    assert ("^" + re)[1..] == re == re + "";
    LiteralPrefix(re, "", text);
  }

  /** `$` at the end, */
  lemma LiteralAtEnd(re: string, text: string)
    requires Literal(re)
    ensures Matches(re + "$", text) <==> |re| <= |text| && Spells(re, text[|text| - |re|..])
  {
    forall i | 0 <= i <= |text| ensures Denotes(re + "$", text[i..]) <==> i == |text| - |re| && Spells(re, text[i..]) {
      LiteralPrefix(re, "$", text[i..]);
      assert text[i..][..|text[i..]|] == text[i..];
    }
  }

  /** and both make it the whole text. */
  lemma LiteralWhole(re: string, text: string)
    requires Literal(re)
    ensures Matches("^" + re + "$", text) <==> Spells(re, text)
  {
    assert ("^" + re + "$")[1..] == re + "$";
    LiteralPrefix(re, "$", text);
    assert text[..|text|] == text;
  }

  predicate Plain(re: string) { Literal(re) && '.' !in re }

  /** A pattern without special characters matches exactly the texts that contain it. */
  lemma PlainIsSubstring(re: string, text: string)
    requires Plain(re)
    ensures Matches(re, text) <==> exists i :: 0 <= i <= |text| && re <= text[i..]
  {
    LiteralAnywhere(re, text);
    forall i | 0 <= i <= |text| ensures re <= text[i..] <==> i <= |text| - |re| && Spells(re, text[i..][..|re|]) {
      assert i <= |text| - |re| && Spells(re, text[i..][..|re|]) ==> re == text[i..][..|re|];
    }
  }
}
