/** The two tokenizers of the Markdown diff: by lines and by words. */
module Tokenizers {
  import opened EditScripts

  predicate IsBreak(c: char) { c == '\r' || c == '\n' }

  predicate IsWord(c: char) {
    'a' <= c <= 'z' || 'A' <= c <= 'Z' || '0' <= c <= '9' || c == '_'
  }

  predicate IsBlank(c: char) { c == ' ' || c == '\t' }

  /** End of the longest stretch from i whose characters all satisfy p. */
  function While(text: string, i: nat, p: char -> bool): (e: nat)
    requires i <= |text|
    ensures i <= e <= |text| && (forall k :: i <= k < e ==> p(text[k])) && (e < |text| ==> !p(text[e]))
    decreases |text| - i
  {
    if i < |text| && p(text[i]) then While(text, i + 1, p) else i
  }

  // ---------------------------------------------------------------- lines

  /** Matches of [^\r\n]+[\r\n]* from i on: a line together with all breaks that follow it. */
  function LinesFrom(text: string, i: nat): seq<string>
    requires i <= |text|
    decreases |text| - i
  {
    var s := While(text, i, IsBreak);
    if s == |text| then []
    else
      var e := While(text, s, c => !IsBreak(c));
      var f := While(text, e, IsBreak);
      [text[s..f]] + LinesFrom(text, f)
  }

  function TokenizeLine(text: string): seq<string> { LinesFrom(text, 0) }

  function WithoutLeadingBreaks(text: string): string {
    text[While(text, 0, IsBreak)..]
  }

  /** A text that begins inside a line. */
  predicate StartsInLine(text: string) { text != "" && !IsBreak(text[0]) }

  lemma {:induction false} JoinCons(t: string, s: seq<string>)
    ensures Join([t] + s) == t + Join(s)
  {
    if s == [] {
      assert [t] + s == [t] && [t][..0] == [];
    } else {
      assert ([t] + s)[..|s|] == [t] + s[..|s| - 1];
      JoinCons(t, s[..|s| - 1]);
    }
  }

  /** A line and the breaks behind it: no break stands before another character. */
  predicate IsLine(t: string) {
    StartsInLine(t) && forall i, j :: 0 <= i < j < |t| && IsBreak(t[i]) ==> IsBreak(t[j])
  }

  /** The token at i is one line, ends in a break if the text goes on, and leaves no break to the next. */
  lemma LineAt(text: string, i: nat) returns (f: nat)
    requires i <= |text| && While(text, i, IsBreak) < |text|
    ensures var s := While(text, i, IsBreak);
            && i <= s < f <= |text| && While(text, f, IsBreak) == f
            && LinesFrom(text, i) == [text[s..f]] + LinesFrom(text, f)
            && StartsInLine(text[s..f]) && IsLine(text[s..f]) && (f < |text| ==> IsBreak(text[f - 1]))
  {
    var s := While(text, i, IsBreak);
    var e := While(text, s, c => !IsBreak(c));
    f := While(text, e, IsBreak);
  }

  lemma {:induction false} LinesRejoin(text: string, i: nat)
    requires i <= |text|
    ensures Join(LinesFrom(text, i)) == text[While(text, i, IsBreak)..]
    ensures forall k :: 0 <= k < |LinesFrom(text, i)| ==> StartsInLine(LinesFrom(text, i)[k])
    decreases |text| - i
  {
    hide LinesFrom, Join, While, IsBreak, StartsInLine;
    var s := While(text, i, IsBreak);
    if s == |text| {
      NoLine(text, i);
    } else {
      var f := LineAt(text, i);
      LinesRejoin(text, f);
      var (all, rest) := (LinesFrom(text, i), LinesFrom(text, f));
      assert all == [text[s..f]] + rest;
      JoinCons(text[s..f], rest);
      assert text[s..f] + text[f..] == text[s..];
      forall k | 0 <= k < |all| ensures StartsInLine(all[k]) {
        if k > 0 { assert all[k] == rest[k - 1]; }
      }
    }
  }

  lemma NoLine(text: string, i: nat)
    requires i <= |text| && While(text, i, IsBreak) == |text|
    ensures LinesFrom(text, i) == [] && Join([]) == text[|text|..]
  {
  }

  /** One line each; a further line begins only behind a break. */
  ghost predicate AreLines(tokens: seq<string>) {
    && (forall k :: 0 <= k < |tokens| ==> IsLine(tokens[k]))
    && forall k :: 0 <= k < |tokens| - 1 ==> IsBreak(tokens[k][|tokens[k]| - 1])
  }

  lemma AreLinesCons(t: string, tokens: seq<string>)
    requires IsLine(t) && AreLines(tokens) && (tokens != [] ==> IsBreak(t[|t| - 1]))
    ensures AreLines([t] + tokens)
  {
    hide IsLine;
    var all := [t] + tokens;
    forall k | 0 <= k < |all| ensures IsLine(all[k]) {
      if k > 0 { assert all[k] == tokens[k - 1]; }
    }
    forall k | 0 <= k < |all| - 1 ensures IsLine(all[k]) && all[k] != "" && IsBreak(all[k][|all[k]| - 1]) {
      LineNotEmpty(all[k]);
      if k > 0 { assert all[k] == tokens[k - 1]; }
    }
  }

  lemma LineNotEmpty(t: string)
    requires IsLine(t)
    ensures t != ""
  {
  }

  lemma {:induction false} LinesAre(text: string, i: nat)
    requires i <= |text|
    ensures AreLines(LinesFrom(text, i))
    decreases |text| - i
  {
    hide LinesFrom, While, IsBreak, IsLine, AreLines;
    var s := While(text, i, IsBreak);
    if s == |text| {
      NoLine(text, i);
      NothingIsLines();
    } else {
      var f := LineAt(text, i);
      LinesAre(text, f);
      if f == |text| {
        EndOfLines(text);
      } else {
        assert text[s..f][f - s - 1] == text[f - 1];
      }
      AreLinesCons(text[s..f], LinesFrom(text, f));
    }
  }

  lemma NothingIsLines()
    ensures AreLines([])
  {
  }

  lemma EndOfLines(text: string)
    ensures LinesFrom(text, |text|) == []
  {
  }

  /** Line tokens rejoin to the text without its leading line breaks. Each is one line, and no line is divided. */
  lemma LineTokensRejoin(text: string)
    ensures Join(TokenizeLine(text)) == WithoutLeadingBreaks(text)
    ensures AreLines(TokenizeLine(text))
    ensures forall k :: 0 <= k < |TokenizeLine(text)| ==> StartsInLine(TokenizeLine(text)[k])
    ensures StartsInLine(text) ==> WithoutLeadingBreaks(text) == text
  {
    LinesAre(text, 0);
    LinesRejoin(text, 0);
  }

  // ---------------------------------------------------------------- words

  /** Matches of \W|\w+[ \t]* from i on: a word with the blanks behind it, or any other single character. */
  function WordsFrom(text: string, i: nat): seq<string>
    requires i <= |text|
    decreases |text| - i
  {
    if i == |text| then []
    else if IsWord(text[i]) then
      var f := While(text, While(text, i, IsWord), IsBlank);
      [text[i..f]] + WordsFrom(text, f)
    else [[text[i]]] + WordsFrom(text, i + 1)
  }

  lemma {:induction false} WordsRejoin(text: string, i: nat)
    requires i <= |text|
    ensures Join(WordsFrom(text, i)) == text[i..]
    decreases |text| - i
  {
    if i == |text| {
      NoWord(text);
    } else {
      var f := NextWord(text, i);
      hide WordsFrom, Join;
      WordsRejoin(text, f);
      JoinCons(text[i..f], WordsFrom(text, f));
      assert text[i..f] + text[f..] == text[i..];
    }
  }

  lemma NoWord(text: string)
    ensures Join(WordsFrom(text, |text|)) == text[|text|..]
  {
  }

  /** The first token from i on, and where the next begins. */
  lemma NextWord(text: string, i: nat) returns (f: nat)
    requires i < |text|
    ensures i < f <= |text| && WordsFrom(text, i) == [text[i..f]] + WordsFrom(text, f)
  {
    f := if IsWord(text[i]) then While(text, While(text, i, IsWord), IsBlank) else i + 1;
    assert text[i..i + 1] == [text[i]];
  }

  /** A word and the blanks behind it, or any other single character. */
  predicate IsToken(t: string) {
    || (|t| == 1 && !IsWord(t[0]))
    || (t != "" && IsWord(t[0]) && (forall i :: 0 <= i < |t| ==> IsWord(t[i]) || IsBlank(t[i]))
        && forall i, j :: 0 <= i < j < |t| && IsBlank(t[i]) ==> IsBlank(t[j]))
  }

  /** A word token leaves neither word characters nor blanks of its own to the next one. */
  predicate Complete(t: string, c: char)
    requires t != ""
  {
    IsWord(t[0]) ==> !IsBlank(c) && (IsWord(t[|t| - 1]) ==> !IsWord(c))
  }

  ghost predicate AreTokens(tokens: seq<string>) {
    && (forall k :: 0 <= k < |tokens| ==> tokens[k] != "" && IsToken(tokens[k]))
    && forall k, l :: 0 <= k && l == k + 1 && l < |tokens| ==> Complete(tokens[k], tokens[l][0])
  }

  lemma AreTokensCons(t: string, tokens: seq<string>)
    requires t != "" && IsToken(t) && AreTokens(tokens) && (tokens != [] ==> Complete(t, tokens[0][0]))
    ensures AreTokens([t] + tokens)
  {
    hide IsToken, Complete;
    var all := [t] + tokens;
    forall k | 0 <= k < |all| ensures all[k] != "" && IsToken(all[k]) {
      if k > 0 { assert all[k] == tokens[k - 1]; }
    }
    forall k, l | 0 <= k && l == k + 1 && l < |all| ensures Complete(all[k], all[l][0]) {
      assert all[l] == tokens[l - 1];
      if k > 0 { assert all[k] == tokens[k - 1] && Complete(tokens[k - 1], tokens[l - 1][0]); }
    }
  }

  lemma WordIsToken(text: string, i: nat, w: nat, f: nat)
    requires i < w <= f <= |text|
    requires forall k :: i <= k < w ==> IsWord(text[k])
    requires forall k :: w <= k < f ==> IsBlank(text[k])
    ensures IsToken(text[i..f])
  {
    var t := text[i..f];
    assert forall k :: 0 <= k < |t| ==> t[k] == text[i + k];
  }

  lemma WordIsComplete(text: string, i: nat, w: nat, f: nat)
    requires i < w <= f < |text| && !IsBlank(text[f]) && !IsWord(text[w])
    requires forall k :: w <= k < f ==> IsBlank(text[k])
    ensures Complete(text[i..f], text[f])
  {
    var t := text[i..f];
    assert t[|t| - 1] == text[f - 1];
    if w < f { assert IsBlank(text[f - 1]); }
  }

  /** The first token from i on is complete. */
  lemma TokenAt(text: string, i: nat) returns (f: nat)
    requires i < |text|
    ensures i < f <= |text| && WordsFrom(text, i) == [text[i..f]] + WordsFrom(text, f)
    ensures IsToken(text[i..f]) && (f < |text| ==> Complete(text[i..f], text[f]))
  {
    if IsWord(text[i]) {
      var w := While(text, i, IsWord);
      f := While(text, w, IsBlank);
      hide IsToken, Complete, IsWord, IsBlank;
      WordIsToken(text, i, w, f);
      if f < |text| { WordIsComplete(text, i, w, f); }
    } else {
      f := i + 1;
      assert text[i..f] == [text[i]];
    }
  }

  lemma {:induction false} WordsAre(text: string, i: nat)
    requires i <= |text|
    ensures AreTokens(WordsFrom(text, i))
    ensures i < |text| ==>
              WordsFrom(text, i) != [] && WordsFrom(text, i)[0] != "" && WordsFrom(text, i)[0][0] == text[i]
    ensures i == |text| ==> WordsFrom(text, i) == []
    decreases |text| - i
  {
    if i < |text| {
      var f := TokenAt(text, i);
      hide WordsFrom, IsToken, Complete, IsWord, IsBlank;
      WordsAre(text, f);
      AreTokensCons(text[i..f], WordsFrom(text, f));
    }
  }

  lemma WhileSkips(text: string, i: nat, j: nat, p: char -> bool)
    requires i <= j <= |text| && forall k :: i <= k < j ==> p(text[k])
    ensures While(text, i, p) == While(text, j, p)
    decreases j - i
  {
    if i < j { WhileSkips(text, i + 1, j, p); }
  }

  /** A word and the blanks behind it make one token. */
  lemma WordAt(text: string, start: nat, i: nat, f: nat, tokens: seq<string>)
    requires start < i <= f <= |text|
    requires forall k :: start <= k < i ==> IsWord(text[k])
    requires forall k :: i <= k < f ==> IsBlank(text[k])
    requires i < |text| ==> !IsWord(text[i])
    requires f < |text| ==> !IsBlank(text[f])
    ensures tokens + WordsFrom(text, start) == (tokens + [text[start..f]]) + WordsFrom(text, f)
  {
    WhileSkips(text, start, i, IsWord);
    WhileSkips(text, i, f, IsBlank);
  }

  lemma OtherAt(text: string, i: nat, tokens: seq<string>)
    requires i < |text| && !IsWord(text[i])
    ensures tokens + WordsFrom(text, i) == (tokens + [[text[i]]]) + WordsFrom(text, i + 1)
  {
  }

  /** The index loop with its buffer of word characters produces the matches of \W|\w+[ \t]*. */
  method TokenizeMarkdown(text: string) returns (tokens: seq<string>)
    ensures tokens == WordsFrom(text, 0)
    ensures Join(tokens) == text && AreTokens(tokens)
  {
    var t := "";
    tokens := [];
    var i := 0;
    ghost var start := 0;
    hide WordsFrom, Join, IsWord, IsBlank, AreTokens;
    while i < |text|
      invariant 0 <= start <= i <= |text| && t == text[start..i]
      invariant forall k :: start <= k < i ==> IsWord(text[k])
      invariant tokens + WordsFrom(text, start) == WordsFrom(text, 0)
    {
      if IsWord(text[i]) {
        t := t + [text[i]];
      } else if IsBlank(text[i]) && t != "" {
        ghost var word := i;
        t := t + [text[i]];
        i := i + 1;
        while i < |text| && IsBlank(text[i])
          invariant word < i <= |text| && t == text[start..i]
          invariant forall k :: word <= k < i ==> IsBlank(text[k])
        {
          t := t + [text[i]];
          i := i + 1;
        }
        i := i - 1;
        WordAt(text, start, word, i + 1, tokens);
        tokens := tokens + [t];
        start := i + 1;
        t := "";
      } else {
        if |t| > 0 {
          WordAt(text, start, i, i, tokens);
          tokens := tokens + [t];
        }
        OtherAt(text, i, tokens);
        tokens := tokens + [[text[i]]];
        start := i + 1;
        t := "";
      }
      i := i + 1;
    }
    if |t| > 0 {
      WordAt(text, start, i, i, tokens);
      tokens := tokens + [t];
    }
    AllWords(text);
    WordsAre(text, 0);
  }

  lemma AllWords(text: string)
    ensures WordsFrom(text, |text|) == [] && Join(WordsFrom(text, 0)) == text
  {
    WordsRejoin(text, 0);
    assert text[0..] == text;
  }
}
