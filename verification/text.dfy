/**
  Python string primitives the front end relies on: what `str.strip()` and
  `str.split()` treat as whitespace, stripping, and splitting on runs of
  whitespace.
 */
module Text {
  import opened Seqs

  /** Python's `str.isspace()` for a single character: the characters that
      `str.strip()` removes and `str.split()` splits on. */
  predicate IsSpace(c: char) {
    || c == ' '
    || ('\t' <= c <= '\r')
    || ('\U{1C}' <= c <= '\U{1F}')
    || c == '\U{85}' || c == '\U{A0}' || c == '\U{1680}'
    || ('\U{2000}' <= c <= '\U{200A}')
    || c == '\U{2028}' || c == '\U{2029}' || c == '\U{202F}'
    || c == '\U{205F}' || c == '\U{3000}'
  }

  /** Every character is whitespace (the empty string included). */
  predicate IsBlank(s: string) {
    forall i :: 0 <= i < |s| ==> IsSpace(s[i])
  }

  /** No character is whitespace. */
  predicate HasNoSpace(s: string) {
    forall i :: 0 <= i < |s| ==> !IsSpace(s[i])
  }

  /** `s.lstrip()`: drops the leading whitespace run. */
  function TrimStart(s: string): (r: string)
    ensures |r| <= |s| && r == s[|s| - |r|..]
    ensures IsBlank(s[..|s| - |r|])
    ensures r == [] || !IsSpace(r[0])
  {
    if s == [] || !IsSpace(s[0]) then s else TrimStart(s[1..])
  }

  /** `s.rstrip()`: drops the trailing whitespace run. */
  function TrimEnd(s: string): (r: string)
    ensures |r| <= |s| && r == s[..|r|]
    ensures IsBlank(s[|r|..])
    ensures r == [] || !IsSpace(r[|r| - 1])
  {
    if s == [] || !IsSpace(s[|s| - 1]) then s else TrimEnd(s[..|s| - 1])
  }

  /** `s.strip()`. */
  function Strip(s: string): string {
    TrimEnd(TrimStart(s))
  }

  /** `not s or not s.strip()` holds exactly of the blank strings. */
  lemma StripEmptyIffBlank(s: string)
    ensures |Strip(s)| == 0 <==> IsBlank(s)
  {
    var t := TrimStart(s);
    if !IsBlank(s) {
      var i :| 0 <= i < |s| && !IsSpace(s[i]);
      var k := |s| - |t|;
      assert t[i - k] == s[i];
    }
  }

  /** The longest whitespace-free prefix of `s`. */
  function Word(s: string): (w: string)
    ensures w <= s && HasNoSpace(w)
    ensures |w| < |s| ==> IsSpace(s[|w|])
  {
    if s == [] || IsSpace(s[0]) then [] else [s[0]] + Word(s[1..])
  }

  /** The characters of `s` that are not whitespace, in order. */
  function NonSpace(s: string): string {
    if s == [] then []
    else if IsSpace(s[0]) then NonSpace(s[1..])
    else [s[0]] + NonSpace(s[1..])
  }

  /** The strings of `ws` joined with nothing between them. */
  function Concat(ws: seq<string>): string {
    if ws == [] then [] else ws[0] + Concat(ws[1..])
  }

  lemma {:induction false} NonSpaceAppend(a: string, b: string)
    ensures NonSpace(a + b) == NonSpace(a) + NonSpace(b)
  {
    if a == [] {
      assert a + b == b;
    } else {
      assert (a + b)[1..] == a[1..] + b;
      NonSpaceAppend(a[1..], b);
    }
  }

  lemma {:induction false} NonSpaceOfBlank(s: string)
    requires IsBlank(s)
    ensures NonSpace(s) == []
  {
    if s != [] {
      NonSpaceOfBlank(s[1..]);
    }
  }

  lemma {:induction false} NonSpaceOfWord(s: string)
    requires HasNoSpace(s)
    ensures NonSpace(s) == s
  {
    if s != [] {
      NonSpaceOfWord(s[1..]);
    }
  }

  /** How one step of `Split` accounts for the non-whitespace characters. */
  lemma NonSpaceOfSplitStep(s: string, t: string, w: string)
    requires |t| <= |s| && t == s[|s| - |t|..] && IsBlank(s[..|s| - |t|])
    requires w <= t && HasNoSpace(w)
    ensures NonSpace(s) == w + NonSpace(t[|w|..])
  {
    var k := |s| - |t|;
    assert s == s[..k] + t;
    NonSpaceAppend(s[..k], t);
    NonSpaceOfBlank(s[..k]);
    assert t == w + t[|w|..];
    NonSpaceAppend(w, t[|w|..]);
    NonSpaceOfWord(w);
  }

  /** Every token is a non-empty run without whitespace. */
  predicate AreWords(ws: seq<string>) {
    forall i :: 0 <= i < |ws| ==> ws[i] != [] && HasNoSpace(ws[i])
  }

  lemma WordsCons(w: string, rest: seq<string>)
    requires w != [] && HasNoSpace(w) && AreWords(rest)
    ensures AreWords([w] + rest)
    ensures Concat([w] + rest) == w + Concat(rest)
  {
    assert ([w] + rest)[1..] == rest;
  }

  /** Python's `s.split()` with no separator: the maximal runs of
      non-whitespace characters, in order. */
  function Split(s: string): seq<string>
    decreases |s|
  {
    var t := TrimStart(s);
    if t == [] then []
    else
      var w := Word(t);
      [w] + Split(t[|w|..])
  }

  /**
    No token of `s.split()` is empty or contains whitespace, and the tokens
    put together are exactly the non-whitespace characters of `s`.
   */
  lemma {:induction false} SplitSpec(s: string)
    ensures AreWords(Split(s))
    ensures Concat(Split(s)) == NonSpace(s)
    decreases |s|
  {
    var t := TrimStart(s);
    if t == [] {
      NonSpaceOfBlank(s);
    } else {
      var w := Word(t);
      SplitSpec(t[|w|..]);
      NonSpaceOfSplitStep(s, t, w);
      WordsCons(w, Split(t[|w|..]));
    }
  }

  /** The first word is the slice of `s` up to its length. */
  lemma WordIsSlice(s: string)
    ensures Word(s) == s[..|Word(s)|]
  {
    var w := Word(s);
    assert w <= s;
    assert |w| <= |s|;
    forall i | 0 <= i < |w|
      ensures w[i] == s[..|w|][i]
    {
      assert w[i] == s[i];
    }
  }

  /** Text that starts with a word splits into that word and the split of
      what follows the blank after it. */
  lemma SplitAfterWord(t: string)
    requires t != [] && !IsSpace(t[0])
    ensures Word(t) != []
    ensures |Word(t)| == |t| ==> Split(t) == [Word(t)]
    ensures |Word(t)| < |t| ==> Split(t) == [Word(t)] + Split(t[|Word(t)| + 1..])
  {
    var w := Word(t);
    assert TrimStart(t) == t;
    assert Split(t) == [w] + Split(t[|w|..]);
    if |w| == |t| {
      assert Split(t[|w|..]) == [];
    } else {
      var r := t[|w|..];
      assert r[1..] == t[|w| + 1..];
      SplitSkipsSpace(r);
    }
  }

  /** Splitting ignores leading whitespace. */
  lemma SplitOfTrimStart(s: string)
    ensures Split(s) == Split(TrimStart(s))
  {
  }

  /** Splitting skips a leading whitespace character. */
  lemma SplitSkipsSpace(s: string)
    requires s != [] && IsSpace(s[0])
    ensures Split(s) == Split(s[1..])
  {
  }

  /** Splitting a blank string yields no tokens. */
  lemma SplitBlank(s: string)
    requires IsBlank(s)
    ensures Split(s) == []
  {
  }

  /** A word ends at the first whitespace character: what follows it does not matter. */
  lemma {:induction false} WordBeforeSpace(a: string, r: string)
    requires r != [] && IsSpace(r[0])
    ensures Word(a + r) == Word(a)
    decreases |a|
  {
    if a == [] {
      assert a + r == r;
    } else {
      assert (a + r)[0] == a[0] && (a + r)[1..] == a[1..] + r;
      WordBeforeSpace(a[1..], r);
    }
  }

  /** A string without whitespace is its own first word. */
  lemma WordOfWord(w: string)
    requires HasNoSpace(w)
    ensures Word(w) == w
  {
    if |Word(w)| < |w| {
      assert false;
    }
    WordIsSlice(w);
  }

  /** A non-empty run without whitespace is a single token. */
  lemma SplitOfWord(w: string)
    requires w != [] && HasNoSpace(w)
    ensures Split(w) == [w]
  {
    SplitFromWord(w);
    WordOfWord(w);
    var rest := w[|w|..];
    assert rest == [];
    assert Split(rest) == [];
  }

  /**
    Every whitespace character separates tokens: splitting at it splits the
    text on each side on its own. With `SplitOfWord` and `SplitBlank` this
    determines the tokens of any text as its maximal whitespace-free runs.
   */
  lemma {:induction false} SplitAtSpace(a: string, c: char, b: string)
    requires IsSpace(c)
    ensures Split(a + [c] + b) == Split(a) + Split(b)
    decreases |a|
  {
    if |a| == 0 {
      SpaceFirst(a, c, b);
    } else if IsSpace(a[0]) {
      SpaceStep(a, c, b);
      SplitAtSpace(a[1..], c, b);
      assert Split(a + [c] + b) == Split(a) + Split(b);
    } else {
      var k := WordStep(a, c, b);
      SplitAtSpace(a[k..], c, b);
      AppendAssoc([Word(a)], Split(a[k..]), Split(b));
      assert Split(a + [c] + b) == Split(a) + Split(b);
    }
  }

  /** `SplitAtSpace` when nothing comes before the separator. */
  lemma SpaceFirst(a: string, c: char, b: string)
    requires a == [] && IsSpace(c)
    ensures Split(a + [c] + b) == Split(a) + Split(b)
  {
    SplitSkipsSpace([c] + b);
    assert a + [c] + b == [c] + b && ([c] + b)[1..] == b;
  }

  /** `SplitAtSpace` when the text before the separator starts with whitespace. */
  lemma SpaceStep(a: string, c: char, b: string)
    requires a != [] && IsSpace(a[0])
    ensures Split(a + [c] + b) == Split(a[1..] + [c] + b)
    ensures Split(a) == Split(a[1..])
  {
    var s := a + [c] + b;
    assert s[0] == a[0] && s[1..] == a[1..] + [c] + b;
    SplitSkipsSpace(s);
    SplitSkipsSpace(a);
  }

  /** `SplitAtSpace` when the text before the separator starts with a word:
      that word is the first token on both sides, and `k` is its length. */
  lemma WordStep(a: string, c: char, b: string) returns (k: nat)
    requires a != [] && !IsSpace(a[0]) && IsSpace(c)
    ensures 0 < k <= |a| && k == |Word(a)|
    ensures Split(a + [c] + b) == [Word(a)] + Split(a[k..] + [c] + b)
    ensures Split(a) == [Word(a)] + Split(a[k..])
  {
    var r := [c] + b;
    var s := a + r;
    AppendAssoc(a, [c], b);
    assert s[0] == a[0];
    WordBeforeSpace(a, r);
    k := |Word(a)|;
    SplitFromWord(s);
    SplitFromWord(a);
    DropFromAppend(a, r, k);
    AppendAssoc(a[k..], [c], b);
  }

  /** Text that starts with a non-whitespace character yields its first
      word, then the tokens of the rest. */
  lemma SplitFromWord(s: string)
    requires s != [] && !IsSpace(s[0])
    ensures Word(s) != []
    ensures Split(s) == [Word(s)] + Split(s[|Word(s)|..])
  {
    assert TrimStart(s) == s;
  }
}
