/**
  Python's `shlex.split(text)`: a POSIX-mode lexer (`posix=True`,
  `whitespace_split=True`, no comment characters) that splits on blanks,
  takes single-quoted text literally, honours backslash escapes outside
  quotes and, inside double quotes, lets a backslash escape only `"` and
  `\`. An unterminated quote or a trailing backslash is a failure
  (ValueError in Python).
 */
module Shlex {
  import opened Wrappers
  import opened Text
  import opened Seqs

  /** The lexer's whitespace set, `' \t\r\n'`. */
  predicate IsBlankChar(c: char) {
    c == ' ' || c == '\t' || c == '\r' || c == '\n'
  }

  /** A character with a meaning of its own to the lexer: a quote or the escape. */
  predicate IsMeta(c: char) {
    c == '\'' || c == '"' || c == '\\'
  }

  /** Where the lexer is: between tokens, inside an unquoted word, inside
      quotes, or just after a backslash (outside or inside double quotes). */
  datatype Mode = Between | InWord | InSingle | InDouble | Escaped | EscapedInDouble

  /**
    Lexes the remaining input `s` from `mode`, with `cur` the token being
    built and `acc` the tokens already finished.
   */
  function Lex(s: string, mode: Mode, cur: string, acc: seq<string>): Option<seq<string>>
    decreases |s|
  {
    if s == [] then
      match mode
      case Between => Some(acc)
      case InWord => Some(acc + [cur])
      case _ => None
    else
      var c, rest := s[0], s[1..];
      match mode
      case Between =>
        if IsBlankChar(c) then Lex(rest, Between, cur, acc)
        else if c == '\\' then Lex(rest, Escaped, cur, acc)
        else if c == '\'' then Lex(rest, InSingle, cur, acc)
        else if c == '"' then Lex(rest, InDouble, cur, acc)
        else Lex(rest, InWord, cur + [c], acc)
      case InWord =>
        if IsBlankChar(c) then Lex(rest, Between, [], acc + [cur])
        else if c == '\\' then Lex(rest, Escaped, cur, acc)
        else if c == '\'' then Lex(rest, InSingle, cur, acc)
        else if c == '"' then Lex(rest, InDouble, cur, acc)
        else Lex(rest, InWord, cur + [c], acc)
      case InSingle =>
        if c == '\'' then Lex(rest, InWord, cur, acc)
        else Lex(rest, InSingle, cur + [c], acc)
      case InDouble =>
        if c == '"' then Lex(rest, InWord, cur, acc)
        else if c == '\\' then Lex(rest, EscapedInDouble, cur, acc)
        else Lex(rest, InDouble, cur + [c], acc)
      case Escaped =>
        Lex(rest, InWord, cur + [c], acc)
      case EscapedInDouble =>
        if c == '"' || c == '\\' then Lex(rest, InDouble, cur + [c], acc)
        else Lex(rest, InDouble, cur + ['\\', c], acc)
  }

  /** `shlex.split(text)`; None where Python raises ValueError. */
  function Tokenize(text: string): Option<seq<string>> {
    Lex(text, Between, [], [])
  }

  /** No quote or backslash anywhere. */
  predicate IsPlain(s: string) {
    forall i :: 0 <= i < |s| ==> !IsMeta(s[i])
  }

  /** The lexer's blanks and Python's whitespace agree on every character of `s`. */
  predicate SpacesAgree(s: string) {
    forall i :: 0 <= i < |s| ==> (IsSpace(s[i]) <==> IsBlankChar(s[i]))
  }

  lemma {:induction false} PlainNeverFailsFrom(s: string, mode: Mode, cur: string, acc: seq<string>)
    requires IsPlain(s)
    requires mode == Between || mode == InWord
    ensures Lex(s, mode, cur, acc).Some?
    decreases |s|
  {
    if s != [] {
      var c := s[0];
      if IsBlankChar(c) {
        PlainNeverFailsFrom(s[1..], Between, if mode == Between then cur else [], if mode == Between then acc else acc + [cur]);
      } else {
        PlainNeverFailsFrom(s[1..], InWord, cur + [c], acc);
      }
    }
  }

  /** Without quotes or backslashes the lexer cannot fail: failure needs an
      unterminated quote or a dangling escape. */
  lemma PlainNeverFails(text: string)
    requires IsPlain(text)
    ensures Tokenize(text).Some?
  {
    PlainNeverFailsFrom(text, Between, [], []);
  }

  /** Blanks in front of a token are skipped. */
  lemma {:induction false} LexSkipsBlanks(s: string, acc: seq<string>)
    requires SpacesAgree(s)
    ensures Lex(s, Between, [], acc) == Lex(TrimStart(s), Between, [], acc)
    decreases |s|
  {
    if s != [] && IsSpace(s[0]) {
      LexSkipsBlanks(s[1..], acc);
    }
  }

  /** Neither a blank nor a quote nor a backslash anywhere. */
  predicate IsBareWord(w: string) {
    forall i :: 0 <= i < |w| ==> !IsBlankChar(w[i]) && !IsMeta(w[i])
  }

  /** Inside a word, bare characters are appended one by one. */
  lemma {:induction false} LexWordRun(w: string, r: string, cur: string, acc: seq<string>)
    requires IsBareWord(w)
    ensures Lex(w + r, InWord, cur, acc) == Lex(r, InWord, cur + w, acc)
    decreases |w|
  {
    if w != [] {
      var c := w[0];
      assert (w + r)[0] == c && (w + r)[1..] == w[1..] + r;
      assert !IsBlankChar(c) && !IsMeta(c);
      assert Lex(w + r, InWord, cur, acc) == Lex(w[1..] + r, InWord, cur + [c], acc);
      assert cur + [c] + w[1..] == cur + w;
      LexWordRun(w[1..], r, cur + [c], acc);
    } else {
      assert w + r == r && cur + w == cur;
    }
  }

  /** The first word of plain text is bare. */
  lemma WordIsBare(t: string)
    requires IsPlain(t) && SpacesAgree(t)
    ensures IsBareWord(Word(t))
  {
    var w := Word(t);
    forall i | 0 <= i < |w|
      ensures !IsBlankChar(w[i]) && !IsMeta(w[i])
    {
      assert w[i] == t[i];
    }
  }

  lemma {:induction false} PlainLexIsSplit(s: string, acc: seq<string>)
    requires IsPlain(s) && SpacesAgree(s)
    ensures Lex(s, Between, [], acc) == Some(acc + Split(s))
    decreases |s|, 1
  {
    LexSkipsBlanks(s, acc);
    var t := TrimStart(s);
    if t == [] {
      assert Split(s) == [] && acc + [] == acc;
    } else {
      var split := Split(t);
      PlainLexFromWordStart(t, acc);
      assert Lex(t, Between, [], acc) == Some(acc + split);
      SplitOfTrimStart(s);
      assert Split(s) == split;
    }
  }

  lemma {:induction false} PlainLexFromWordStart(t: string, acc: seq<string>)
    requires t != [] && !IsSpace(t[0])
    requires IsPlain(t) && SpacesAgree(t)
    ensures Lex(t, Between, [], acc) == Some(acc + Split(t))
    decreases |t|, 0
  {
    var w := Word(t);
    var k := |w|;
    FirstWordStep(t, acc);
    if k < |t| {
      PlainLexIsSplit(t[k + 1..], acc + [w]);
      AppendAssoc(acc, [w], Split(t[k + 1..]));
    }
  }

  /** One word of plain text: the lexer and the split both take the first
      word and carry on after the blank that ends it. */
  lemma FirstWordStep(t: string, acc: seq<string>)
    requires t != [] && !IsSpace(t[0])
    requires IsPlain(t) && SpacesAgree(t)
    ensures var w := Word(t);
      && |w| <= |t|
      && (|w| == |t| ==> Split(t) == [w] && Lex(t, Between, [], acc) == Some(acc + [w]))
      && (|w| < |t| ==>
            && Split(t) == [w] + Split(t[|w| + 1..])
            && Lex(t, Between, [], acc) == Lex(t[|w| + 1..], Between, [], acc + [w])
            && IsPlain(t[|w| + 1..]) && SpacesAgree(t[|w| + 1..]))
  {
    var w := Word(t);
    SplitAfterWord(t);
    WordIsBare(t);
    WordIsSlice(t);
    LexWord(t, |w|, acc);
    if |w| < |t| {
      PlainSuffix(t, |w| + 1);
    }
  }

  /** What holds of plain text holds of its tails. */
  lemma PlainSuffix(s: string, k: nat)
    requires IsPlain(s) && SpacesAgree(s) && k <= |s|
    ensures IsPlain(s[k..]) && SpacesAgree(s[k..])
  {
    forall i | 0 <= i < |s| - k
      ensures !IsMeta(s[k..][i]) && (IsSpace(s[k..][i]) <==> IsBlankChar(s[k..][i]))
    {
      assert s[k..][i] == s[k + i];
    }
  }

  /** A bare word at the front of `t`, ended by the end of input or by a blank,
      becomes one token. */
  lemma LexWord(t: string, k: nat, acc: seq<string>)
    requires 0 < k <= |t| && IsBareWord(t[..k])
    requires k == |t| || IsBlankChar(t[k])
    ensures k == |t| ==> Lex(t, Between, [], acc) == Some(acc + [t[..k]])
    ensures k < |t| ==> Lex(t, Between, [], acc) == Lex(t[k + 1..], Between, [], acc + [t[..k]])
  {
    var w := t[..k];
    var r := t[k..];
    assert t == w + r;
    assert t[1..] == w[1..] + r;
    assert [] + [w[0]] == [w[0]];
    assert Lex(t, Between, [], acc) == Lex(w[1..] + r, InWord, [w[0]], acc);
    assert IsBareWord(w[1..]) by {
      forall i | 0 <= i < |w| - 1
        ensures !IsBlankChar(w[1..][i]) && !IsMeta(w[1..][i])
      {
        assert w[1..][i] == w[i + 1];
      }
    }
    LexWordRun(w[1..], r, [w[0]], acc);
    assert [w[0]] + w[1..] == w;
    if k < |t| {
      assert r[1..] == t[k + 1..];
    }
  }

  /**
    On text with no quotes or backslashes (and no whitespace the lexer does
    not know as such), the quote-aware split and the naive `str.split()`
    give the same tokens.
   */
  lemma PlainTokenizeIsSplit(text: string)
    requires IsPlain(text) && SpacesAgree(text)
    ensures Tokenize(text) == Some(Split(text))
  {
    PlainLexIsSplit(text, []);
    assert [] + Split(text) == Split(text);
  }

  /** `'t'`: the literal text `t` between single quotes. */
  function SingleQuote(t: string): string {
    "'" + t + "'"
  }

  /** Each token single-quoted and followed by a blank. */
  function QuoteAll(ts: seq<string>): string {
    if ts == [] then [] else SingleQuote(ts[0]) + " " + QuoteAll(ts[1..])
  }

  /** Inside single quotes every character except the closing quote is taken literally. */
  lemma {:induction false} LexSingleRun(t: string, r: string, cur: string, acc: seq<string>)
    requires '\'' !in t
    ensures Lex(t + r, InSingle, cur, acc) == Lex(r, InSingle, cur + t, acc)
    decreases |t|
  {
    if t != [] {
      var c := t[0];
      assert (t + r)[0] == c && (t + r)[1..] == t[1..] + r;
      assert Lex(t + r, InSingle, cur, acc) == Lex(t[1..] + r, InSingle, cur + [c], acc);
      assert cur + [c] + t[1..] == cur + t;
      LexSingleRun(t[1..], r, cur + [c], acc);
    } else {
      assert t + r == r && cur + t == cur;
    }
  }

  lemma {:induction false} LexQuoteAll(ts: seq<string>, acc: seq<string>)
    requires forall i :: 0 <= i < |ts| ==> '\'' !in ts[i]
    ensures Lex(QuoteAll(ts), Between, [], acc) == Some(acc + ts)
    decreases |ts|
  {
    if ts == [] {
      assert acc + ts == acc;
    } else {
      var t := ts[0];
      var rest := QuoteAll(ts[1..]);
      var tail := ['\''] + ([' '] + rest);
      assert QuoteAll(ts) == ['\''] + (t + tail);
      assert Lex(QuoteAll(ts), Between, [], acc) == Lex(t + tail, InSingle, [], acc);
      LexSingleRun(t, tail, [], acc);
      assert [] + t == t;
      assert Lex(tail, InSingle, t, acc) == Lex([' '] + rest, InWord, t, acc);
      assert Lex([' '] + rest, InWord, t, acc) == Lex(rest, Between, [], acc + [t]);
      LexQuoteAll(ts[1..], acc + [t]);
      assert acc + [t] + ts[1..] == acc + ts;
    }
  }

  /** Inside double quotes, characters other than `"` and `\` are taken literally. */
  lemma {:induction false} LexDoubleRun(t: string, r: string, cur: string, acc: seq<string>)
    requires '"' !in t && '\\' !in t
    ensures Lex(t + r, InDouble, cur, acc) == Lex(r, InDouble, cur + t, acc)
    decreases |t|
  {
    if t != [] {
      var c := t[0];
      assert (t + r)[0] == c && (t + r)[1..] == t[1..] + r;
      assert Lex(t + r, InDouble, cur, acc) == Lex(t[1..] + r, InDouble, cur + [c], acc);
      assert cur + [c] + t[1..] == cur + t;
      LexDoubleRun(t[1..], r, cur + [c], acc);
    } else {
      assert t + r == r && cur + t == cur;
    }
  }

  /** A bare word followed by a blank becomes one token. */
  lemma LexBareWord(w: string, r: string, acc: seq<string>)
    requires w != [] && IsBareWord(w)
    ensures Lex(w + [' '] + r, Between, [], acc) == Lex(r, Between, [], acc + [w])
  {
    var t := w + [' '] + r;
    assert t[..|w|] == w && t[|w|] == ' ' && t[|w| + 1..] == r;
    LexWord(t, |w|, acc);
  }

  /** Text between double quotes, with no `"` or `\` inside, is one token, blanks included. */
  lemma LexDoubleQuoted(t: string, acc: seq<string>)
    requires '"' !in t && '\\' !in t
    ensures Lex(['"'] + t + ['"'], Between, [], acc) == Some(acc + [t])
  {
    var s := ['"'] + t + ['"'];
    assert s[0] == '"' && s[1..] == t + ['"'];
    LexDoubleRun(t, ['"'], [], acc);
    assert [] + t == t;
    assert ['"'][1..] == [];
  }

  /** Two bare words and a double-quoted phrase, as in the advanced-options
      example `--playlist-items 1-3 "my file.txt"`: three tokens, the blank
      inside the quotes kept. */
  lemma WordsThenQuoted(w1: string, w2: string, q: string)
    requires w1 != [] && IsBareWord(w1) && w2 != [] && IsBareWord(w2)
    requires '"' !in q && '\\' !in q
    ensures Tokenize(w1 + " " + w2 + " \"" + q + "\"") == Some([w1, w2, q])
  {
    var tail := ['"'] + q + ['"'];
    var mid := w2 + [' '] + tail;
    assert w1 + " " + w2 + " \"" + q + "\"" == w1 + [' '] + mid;
    LexBareWord(w1, mid, []);
    assert [] + [w1] == [w1];
    LexBareWord(w2, tail, [w1]);
    assert [w1] + [w2] == [w1, w2];
    LexDoubleQuoted(q, [w1, w2]);
    assert [w1, w2] + [q] == [w1, w2, q];
  }

  /**
    Quoting round trip: single-quoting each token (none containing a single
    quote) and lexing the result gives the tokens back, blanks inside them
    included.
   */
  lemma TokenizeQuoteAll(ts: seq<string>)
    requires forall i :: 0 <= i < |ts| ==> '\'' !in ts[i]
    ensures Tokenize(QuoteAll(ts)) == Some(ts)
  {
    LexQuoteAll(ts, []);
    assert [] + ts == ts;
  }

  /** A single quote that is never closed swallows the rest of the input,
      and the lexer fails at its end. */
  lemma {:induction false} LexUnclosedSingle(q: string, cur: string, acc: seq<string>)
    requires '\'' !in q
    ensures Lex(q, InSingle, cur, acc) == None
    decreases |q|
  {
    if q != [] {
      assert q[0] != '\'';
      LexUnclosedSingle(q[1..], cur + [q[0]], acc);
    }
  }

  /** A bare word followed by an apostrophe that nothing closes (`it's`)
      makes `shlex.split` raise. */
  lemma UnclosedQuoteFails(w: string, q: string)
    requires IsBareWord(w) && '\'' !in q
    ensures Tokenize(w + "'" + q) == None
  {
    var t := w + "'" + q;
    if w == [] {
      assert t[0] == '\'' && t[1..] == q;
      LexUnclosedSingle(q, [], []);
    } else {
      assert !IsBlankChar(w[0]) && !IsMeta(w[0]);
      var r := "'" + q;
      assert t[0] == w[0] && t[1..] == w[1..] + r;
      assert [] + [w[0]] == [w[0]];
      assert Tokenize(t) == Lex(w[1..] + r, InWord, [w[0]], []);
      LexWordRun(w[1..], r, [w[0]], []);
      assert r[0] == '\'' && r[1..] == q;
      assert Lex(r, InWord, [w[0]] + w[1..], []) == Lex(q, InSingle, [w[0]] + w[1..], []);
      LexUnclosedSingle(q, [w[0]] + w[1..], []);
    }
  }
}
