/** Generic facts about sequences, stated once and used where the solver would
    otherwise rediscover them in a crowded context. */
module Seqs {

  lemma AppendAssoc<T>(a: seq<T>, b: seq<T>, c: seq<T>)
    ensures a + b + c == a + (b + c)
  {
  }

  /** Taking one more element of a sequence appends that element. */
  lemma PrefixSnoc<T>(s: seq<T>, i: nat)
    requires i < |s|
    ensures s[..i + 1] == s[..i] + [s[i]]
  {
  }

  /** Dropping part of the left operand of a concatenation. */
  lemma DropFromAppend<T>(a: seq<T>, b: seq<T>, k: nat)
    requires k <= |a|
    ensures (a + b)[k..] == a[k..] + b
  {
  }

  /** A sequence whose tail from `n` is `a + b` has `b` as its tail from `n + |a|`. */
  lemma DropPrefix<T>(s: seq<T>, n: nat, a: seq<T>, b: seq<T>)
    requires n <= |s| && s[n..] == a + b
    ensures |s| >= n + |a| + |b| && s[n + |a|..] == b
  {
    assert s[n + |a|..] == s[n..][|a|..];
  }

  /** A sequence whose tail from `n` is `a + b` has `a` right at `n`. */
  lemma TakeFromTail<T>(s: seq<T>, n: nat, a: seq<T>, b: seq<T>)
    requires n <= |s| && s[n..] == a + b
    ensures |s| >= n + |a| && s[n..n + |a|] == a
  {
    assert s[n..n + |a|] == s[n..][..|a|];
  }

  /** A sequence is the concatenation of its five slices at `i <= j <= k <= l`. */
  lemma FiveSlices<T>(s: seq<T>, i: nat, j: nat, k: nat, l: nat)
    requires i <= j <= k <= l <= |s|
    ensures s == s[..i] + s[i..j] + s[j..k] + s[k..l] + s[l..]
  {
    assert s[..i] + s[i..j] == s[..j];
    assert s[..j] + s[j..k] == s[..k];
    assert s[..k] + s[k..l] == s[..l];
  }
}
