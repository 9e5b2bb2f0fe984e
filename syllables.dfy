/** Syllable boundaries as the hyphenator reports them, and the word they
    describe once some syllables are replaced. Both versions of Buttify walk
    the same kind of boundary list: byte offsets into the word, each the END
    of one syllable, the syllable starting where the previous one ended.
    A word is a `string`; each character stands for one byte of the Go string. */
module Syllables {

  datatype Option<T> = None | Some(value: T)

  /** Offset where syllable `i` starts: the previous boundary, or 0 for the first.
      With `i == |bounds|` it is the end of the last syllable. */
  function Start(bounds: seq<nat>, i: nat): nat
    requires i <= |bounds|
  {
    if i == 0 then 0 else bounds[i - 1]
  }

  /** What the hyphenator promises: non-decreasing offsets, none past the end of the word.
      Exactly the condition under which every slice `word[start:end]` of a syllable is legal. */
  predicate ValidBreakpoints(word: string, bounds: seq<nat>)
  {
    forall i :: 0 <= i < |bounds| ==> Start(bounds, i) <= bounds[i] <= |word|
  }

  /** Under valid breakpoints every syllable is a legal slice of the word. */
  lemma SyllableInWord(word: string, bounds: seq<nat>, i: nat)
    requires ValidBreakpoints(word, bounds) && i < |bounds|
    ensures Start(bounds, i) <= bounds[i] <= |word|
  {
  }

  /** Under valid breakpoints the start offset (Go's `prev`, or `start`) never
      moves backward from one syllable to a later one, and never passes the end of the word. */
  lemma {:induction false} StartMonotone(word: string, bounds: seq<nat>, i: nat, j: nat)
    requires ValidBreakpoints(word, bounds)
    requires i <= j <= |bounds|
    ensures Start(bounds, i) <= Start(bounds, j) <= |word|
  {
    if i < j {
      StartMonotone(word, bounds, i, j - 1);
      SyllableInWord(word, bounds, j - 1);
    } else if 0 < j {
      SyllableInWord(word, bounds, j - 1);
    }
  }

  /** The first `n` syllables joined, each written as the replacement token or
      as its own text taken from the ORIGINAL word, as `decisions` says. */
  function Rejoin(word: string, bounds: seq<nat>, decisions: seq<bool>, buttWord: string, n: nat): string
    requires ValidBreakpoints(word, bounds)
    requires n <= |bounds| && n <= |decisions|
  {
    if n == 0 then []
    else
      Rejoin(word, bounds, decisions, buttWord, n - 1)
      + (if decisions[n - 1] then buttWord else word[Start(bounds, n - 1)..bounds[n - 1]])
  }

  /** Syllable `k`, if it is replaced, is exactly as long as the token. */
  predicate FitsToken(bounds: seq<nat>, decisions: seq<bool>, buttWord: string, k: nat)
    requires k < |bounds| && k < |decisions|
  {
    decisions[k] ==> bounds[k] - Start(bounds, k) == |buttWord|
  }

  /** Sum, over the replaced syllables among the first `n`, of
      |buttWord| minus the syllable's length. */
  function LengthChange(bounds: seq<nat>, decisions: seq<bool>, buttWord: string, n: nat): int
    requires n <= |bounds| && n <= |decisions|
  {
    if n == 0 then 0
    else LengthChange(bounds, decisions, buttWord, n - 1)
         + (if decisions[n - 1] then |buttWord| - (bounds[n - 1] - Start(bounds, n - 1)) else 0)
  }

  /** Replacing syllables changes the length by exactly LengthChange. */
  lemma {:induction false} RejoinLength(word: string, bounds: seq<nat>, decisions: seq<bool>, buttWord: string, n: nat)
    requires ValidBreakpoints(word, bounds)
    requires n <= |bounds| && n <= |decisions|
    ensures |Rejoin(word, bounds, decisions, buttWord, n)| == Start(bounds, n) + LengthChange(bounds, decisions, buttWord, n)
  {
    if n > 0 {
      RejoinLength(word, bounds, decisions, buttWord, n - 1);
      SyllableInWord(word, bounds, n - 1);
    }
  }

  /** Kept syllables telescope: joining the first `n` unchanged gives the word up to their end. */
  lemma {:induction false} RejoinKeepAll(word: string, bounds: seq<nat>, decisions: seq<bool>, buttWord: string, n: nat)
    requires ValidBreakpoints(word, bounds)
    requires n <= |bounds| && n <= |decisions|
    requires forall k :: 0 <= k < n ==> !decisions[k]
    ensures Rejoin(word, bounds, decisions, buttWord, n) == word[..Start(bounds, n)]
  {
    if n == 0 {
      assert word[..0] == [];
    } else {
      RejoinKeepAll(word, bounds, decisions, buttWord, n - 1);
      SyllableInWord(word, bounds, n - 1);
      assert word[..Start(bounds, n - 1)] + word[Start(bounds, n - 1)..bounds[n - 1]] == word[..bounds[n - 1]];
    }
  }

  /** The first `n` syllables depend only on the first `n` boundaries and decisions. */
  lemma {:induction false} RejoinPrefix(word: string, b1: seq<nat>, b2: seq<nat>, d1: seq<bool>, d2: seq<bool>, buttWord: string, n: nat)
    requires ValidBreakpoints(word, b1) && ValidBreakpoints(word, b2)
    requires n <= |b1| && n <= |b2| && n <= |d1| && n <= |d2|
    requires b1[..n] == b2[..n] && d1[..n] == d2[..n]
    ensures Rejoin(word, b1, d1, buttWord, n) == Rejoin(word, b2, d2, buttWord, n)
  {
    if n > 0 {
      assert b1[..n - 1] == b1[..n][..n - 1] && b2[..n - 1] == b2[..n][..n - 1];
      assert d1[..n - 1] == d1[..n][..n - 1] && d2[..n - 1] == d2[..n][..n - 1];
      RejoinPrefix(word, b1, b2, d1, d2, buttWord, n - 1);
      assert b1[n - 1] == b1[..n][n - 1] && d1[n - 1] == d1[..n][n - 1];
      assert n > 1 ==> b1[n - 2] == b1[..n][n - 2];
    }
  }

  /** When every replaced syllable is as long as the token, lengths do not change. */
  lemma {:induction false} NeutralLengthChange(bounds: seq<nat>, decisions: seq<bool>, buttWord: string, n: nat)
    requires n <= |bounds| && n <= |decisions|
    requires forall k :: 0 <= k < n ==> FitsToken(bounds, decisions, buttWord, k)
    ensures LengthChange(bounds, decisions, buttWord, n) == 0
  {
    if n > 0 {
      NeutralLengthChange(bounds, decisions, buttWord, n - 1);
      assert FitsToken(bounds, decisions, buttWord, n - 1);
    }
  }

  /** The syllable after the `done` prefix, in a word that is `done` followed by
      the original text from `start` on: replacing it, or keeping it, leaves
      `done` extended by one piece and the original text after the syllable. */
  lemma NextSyllable(done: string, word: string, start: nat, breakPoint: nat, buttWord: string)
    requires start <= breakPoint <= |word|
    ensures (done + word[start..])[..|done|] + buttWord + (done + word[start..])[|done| + (breakPoint - start)..]
         == (done + buttWord) + word[breakPoint..]
    ensures done + word[start..] == (done + word[start..breakPoint]) + word[breakPoint..]
  {
    var current := done + word[start..];
    assert current[..|done|] == done;
    assert current[|done| + (breakPoint - start)..] == word[breakPoint..];
    assert word[start..] == word[start..breakPoint] + word[breakPoint..];
  }

  /** When every replaced syllable is as long as the token, the first `n`
      syllables joined end exactly where they end in the original word. */
  lemma NeutralRejoinLength(word: string, bounds: seq<nat>, decisions: seq<bool>, buttWord: string, n: nat)
    requires ValidBreakpoints(word, bounds)
    requires n <= |bounds| && n <= |decisions|
    requires forall k :: 0 <= k < n ==> FitsToken(bounds, decisions, buttWord, k)
    ensures |Rejoin(word, bounds, decisions, buttWord, n)| == Start(bounds, n)
  {
    RejoinLength(word, bounds, decisions, buttWord, n);
    NeutralLengthChange(bounds, decisions, buttWord, n);
  }
}
