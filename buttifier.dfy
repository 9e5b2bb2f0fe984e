/** The current Buttify (buttifier.go): the hyphenator's breakpoints get the
    word's length appended as a final boundary, and every syllable, the last
    one included, is written to a buffer either as the replacement token or as
    its own slice of the original word.

    The hyphenator and the random source are parameters: `breakpoints` is what
    the hyphenator returned, `decisions[k]` says whether the k-th draw fell
    below the replacement rate (true: replace). */
module Buttifier {
  import opened Syllables

  /** The boundaries the loop walks: the breakpoints, then len(word). */
  function Boundaries(word: string, breakpoints: seq<nat>): (bounds: seq<nat>)
    ensures ValidBreakpoints(word, breakpoints) ==> ValidBreakpoints(word, bounds)
  {
    BoundariesValid(word, breakpoints);
    breakpoints + [|word|]
  }

  /** Iteration `k` keeps its syllable and the slice `word[prev:breakPoint]` it
      takes is out of range (`prev` being boundary k-1): Go panics there. */
  predicate KeptSliceOutOfRange(word: string, bounds: seq<nat>, decisions: seq<bool>, k: nat)
    requires k < |bounds| && k < |decisions|
  {
    !decisions[k] && !(Start(bounds, k) <= bounds[k] <= |word|)
  }

  /** Buffer contents and `prev` cursor after the first `n` loop iterations,
      or None once a slice `word[prev:breakPoint]` would panic. Whatever the
      decisions, the cursor sits on boundary n-1; a replaced syllable is never
      sliced, so only a kept one can panic. */
  function Run(word: string, bounds: seq<nat>, decisions: seq<bool>, buttWord: string, n: nat): (r: Option<(string, nat)>)
    requires n <= |bounds| && n <= |decisions|
    ensures r.Some? ==> r.value.1 == Start(bounds, n)
    ensures r.None? <==> exists k :: 0 <= k < n && KeptSliceOutOfRange(word, bounds, decisions, k)
  {
    if n == 0 then Some(([], 0))
    else
      match Run(word, bounds, decisions, buttWord, n - 1)
      case None => None
      case Some((out, prev)) =>
        var breakPoint := bounds[n - 1];
        if decisions[n - 1] then Some((out + buttWord, breakPoint))
        else if prev <= breakPoint <= |word| then Some((out + word[prev..breakPoint], breakPoint))
        else
          assert KeptSliceOutOfRange(word, bounds, decisions, n - 1);
          None
  }

  /** What one call returns, for any breakpoints: None where Go would panic. */
  function Buttified(word: string, breakpoints: seq<nat>, decisions: seq<bool>, buttWord: string): (r: Option<string>)
    requires |breakpoints| < |decisions|
    ensures r.None? <==> exists k :: 0 <= k < |breakpoints| + 1
                                 && KeptSliceOutOfRange(word, Boundaries(word, breakpoints), decisions, k)
  {
    match Run(word, Boundaries(word, breakpoints), decisions, buttWord, |breakpoints| + 1)
    case None => None
    case Some((out, _)) => Some(out)
  }

  /** `buttWord` written `k` times. */
  function Repeat(buttWord: string, k: nat): (r: string)
    ensures |r| == k * |buttWord|
  {
    if k == 0 then [] else Repeat(buttWord, k - 1) + buttWord
  }

  /** The loop of buttifier.go: one draw per boundary, the buffer grows by the
      token or by the original slice, and `prev` moves to the boundary either way. */
  method Buttify(word: string, breakpoints: seq<nat>, decisions: seq<bool>, buttWord: string)
    returns (result: string, used: nat)
    requires ValidBreakpoints(word, breakpoints)
    requires |breakpoints| < |decisions|
    ensures used == |breakpoints| + 1
    ensures Buttified(word, breakpoints, decisions, buttWord) == Some(result)
    ensures result == Rejoin(word, Boundaries(word, breakpoints), decisions, buttWord, used)
  {
    var bounds := breakpoints + [|word|];
    BoundariesValid(word, breakpoints);
    var buffer: string := [];
    var prev: nat := 0;
    used := 0;
    for i := 0 to |bounds|
      invariant used == i
      invariant prev == Start(bounds, i)
      invariant Run(word, bounds, decisions, buttWord, i) == Some((buffer, prev))
    {
      var breakPoint := bounds[i];
      SyllableInWord(word, bounds, i);
      var replace := decisions[i];
      used := used + 1;
      if replace {
        buffer := buffer + buttWord;
      } else {
        buffer := buffer + word[prev..breakPoint];
      }
      prev := breakPoint;
    }
    result := buffer;
    RunMatchesPieces(word, bounds, decisions, buttWord, |bounds|);
  }

  /** Appending len(word) keeps the breakpoints valid, and only valid breakpoints stay valid. */
  lemma BoundariesValid(word: string, breakpoints: seq<nat>)
    ensures ValidBreakpoints(word, breakpoints + [|word|]) <==> ValidBreakpoints(word, breakpoints)
  {
    var bounds := breakpoints + [|word|];
    forall i | 0 <= i < |breakpoints|
      ensures Start(bounds, i) == Start(breakpoints, i) && bounds[i] == breakpoints[i]
    {
    }
    if ValidBreakpoints(word, breakpoints) && 0 < |breakpoints| {
      SyllableInWord(word, breakpoints, |breakpoints| - 1);
      assert Start(bounds, |breakpoints|) <= bounds[|breakpoints|];
    }
  }

  /** With valid boundaries the loop never panics, and its buffer is the
      syllables joined: each one the token or its slice of the original word,
      so a replacement never shifts a later slice. */
  lemma {:induction false} RunMatchesPieces(word: string, bounds: seq<nat>, decisions: seq<bool>, buttWord: string, n: nat)
    requires ValidBreakpoints(word, bounds)
    requires n <= |bounds| && n <= |decisions|
    ensures Run(word, bounds, decisions, buttWord, n) == Some((Rejoin(word, bounds, decisions, buttWord, n), Start(bounds, n)))
  {
    if n > 0 {
      RunMatchesPieces(word, bounds, decisions, buttWord, n - 1);
      SyllableInWord(word, bounds, n - 1);
    }
  }

  /** Only the first `n` draws matter to the first `n` iterations. */
  lemma {:induction false} RunIgnoresLaterDecisions(word: string, bounds: seq<nat>, d1: seq<bool>, d2: seq<bool>, buttWord: string, n: nat)
    requires n <= |bounds| && n <= |d1| && n <= |d2|
    requires d1[..n] == d2[..n]
    ensures Run(word, bounds, d1, buttWord, n) == Run(word, bounds, d2, buttWord, n)
  {
    if n > 0 {
      assert d1[..n - 1] == d1[..n][..n - 1] && d2[..n - 1] == d2[..n][..n - 1];
      RunIgnoresLaterDecisions(word, bounds, d1, d2, buttWord, n - 1);
      assert d1[n - 1] == d1[..n][n - 1] && d2[n - 1] == d2[..n][n - 1];
    }
  }

  /** Exactly len(breakpoints)+1 draws are consumed: later draws do not affect the result. */
  lemma OneDecisionPerSyllable(word: string, breakpoints: seq<nat>, decisions: seq<bool>, buttWord: string)
    requires |breakpoints| < |decisions|
    ensures Buttified(word, breakpoints, decisions, buttWord)
         == Buttified(word, breakpoints, decisions[..|breakpoints| + 1], buttWord)
  {
    var n := |breakpoints| + 1;
    assert decisions[..n][..n] == decisions[..n];
    RunIgnoresLaterDecisions(word, Boundaries(word, breakpoints), decisions, decisions[..n], buttWord, n);
  }

  /** Non-decreasing breakpoints within the word never make the call panic. */
  lemma SafeWhenValid(word: string, breakpoints: seq<nat>, decisions: seq<bool>, buttWord: string)
    requires ValidBreakpoints(word, breakpoints)
    requires |breakpoints| < |decisions|
    ensures Buttified(word, breakpoints, decisions, buttWord)
         == Some(Rejoin(word, Boundaries(word, breakpoints), decisions, buttWord, |breakpoints| + 1))
  {
    BoundariesValid(word, breakpoints);
    RunMatchesPieces(word, Boundaries(word, breakpoints), decisions, buttWord, |breakpoints| + 1);
  }

  /** If every iteration keeps its syllable and none panics, the boundaries
      seen so far were non-decreasing and within the word. */
  lemma {:induction false} RunKeepOnlyIfValid(word: string, bounds: seq<nat>, decisions: seq<bool>, buttWord: string, n: nat)
    requires n <= |bounds| && n <= |decisions|
    requires forall k :: 0 <= k < n ==> !decisions[k]
    requires Run(word, bounds, decisions, buttWord, n).Some?
    ensures ValidBreakpoints(word, bounds[..n])
  {
    if n > 0 {
      RunKeepOnlyIfValid(word, bounds, decisions, buttWord, n - 1);
      ValidExtend(word, bounds, n - 1);
    }
  }

  /** A valid prefix stays valid when the next boundary lies between the last one and the end of the word. */
  lemma ValidExtend(word: string, bounds: seq<nat>, n: nat)
    requires n < |bounds|
    requires ValidBreakpoints(word, bounds[..n])
    requires Start(bounds, n) <= bounds[n] <= |word|
    ensures ValidBreakpoints(word, bounds[..n + 1])
  {
    var prefix, longer := bounds[..n], bounds[..n + 1];
    forall i | 0 <= i < n
      ensures Start(longer, i) == Start(prefix, i) && longer[i] == prefix[i]
    {
    }
    assert Start(longer, n) == Start(bounds, n);
  }

  /** With every syllable kept, the call succeeds exactly when the breakpoints are
      non-decreasing and within the word, and then returns the word itself. */
  lemma AllKeepSucceedsIff(word: string, breakpoints: seq<nat>, decisions: seq<bool>, buttWord: string)
    requires |breakpoints| < |decisions|
    requires forall k :: 0 <= k <= |breakpoints| ==> !decisions[k]
    ensures Buttified(word, breakpoints, decisions, buttWord).Some? <==> ValidBreakpoints(word, breakpoints)
  {
    var bounds := Boundaries(word, breakpoints);
    BoundariesValid(word, breakpoints);
    if Buttified(word, breakpoints, decisions, buttWord).Some? {
      RunKeepOnlyIfValid(word, bounds, decisions, buttWord, |bounds|);
      assert bounds[..|bounds|] == bounds;
    } else if ValidBreakpoints(word, breakpoints) {
      SafeWhenValid(word, breakpoints, decisions, buttWord);
    }
  }

  /** Keeping every syllable returns the word unchanged: the slices telescope. */
  lemma AllKeepIsIdentity(word: string, breakpoints: seq<nat>, decisions: seq<bool>, buttWord: string)
    requires ValidBreakpoints(word, breakpoints)
    requires |breakpoints| < |decisions|
    requires forall k :: 0 <= k <= |breakpoints| ==> !decisions[k]
    ensures Buttified(word, breakpoints, decisions, buttWord) == Some(word)
  {
    var bounds := Boundaries(word, breakpoints);
    SafeWhenValid(word, breakpoints, decisions, buttWord);
    BoundariesValid(word, breakpoints);
    RejoinKeepAll(word, bounds, decisions, buttWord, |bounds|);
    assert Start(bounds, |bounds|) == |word|;
    assert word[..|word|] == word;
  }

  /** Replacing every syllable (the always-zero random source of the tests)
      never slices the word, so any breakpoints give the token len(breakpoints)+1 times. */
  lemma AllReplaceRepeats(word: string, breakpoints: seq<nat>, decisions: seq<bool>, buttWord: string)
    requires |breakpoints| < |decisions|
    requires forall k :: 0 <= k <= |breakpoints| ==> decisions[k]
    ensures Buttified(word, breakpoints, decisions, buttWord) == Some(Repeat(buttWord, |breakpoints| + 1))
    ensures |Buttified(word, breakpoints, decisions, buttWord).value| == (|breakpoints| + 1) * |buttWord|
  {
    RunAllReplace(word, Boundaries(word, breakpoints), decisions, buttWord, |breakpoints| + 1);
  }

  lemma {:induction false} RunAllReplace(word: string, bounds: seq<nat>, decisions: seq<bool>, buttWord: string, n: nat)
    requires n <= |bounds| && n <= |decisions|
    requires forall k :: 0 <= k < n ==> decisions[k]
    ensures Run(word, bounds, decisions, buttWord, n) == Some((Repeat(buttWord, n), Start(bounds, n)))
  {
    if n > 0 {
      RunAllReplace(word, bounds, decisions, buttWord, n - 1);
    }
  }

  /** The output is the word's length plus, per replaced syllable, the token's
      length minus the syllable's. */
  lemma OutputLength(word: string, breakpoints: seq<nat>, decisions: seq<bool>, buttWord: string)
    requires ValidBreakpoints(word, breakpoints)
    requires |breakpoints| < |decisions|
    ensures Buttified(word, breakpoints, decisions, buttWord).Some?
    ensures |Buttified(word, breakpoints, decisions, buttWord).value|
         == |word| + LengthChange(Boundaries(word, breakpoints), decisions, buttWord, |breakpoints| + 1)
  {
    var bounds := Boundaries(word, breakpoints);
    SafeWhenValid(word, breakpoints, decisions, buttWord);
    BoundariesValid(word, breakpoints);
    RejoinLength(word, bounds, decisions, buttWord, |bounds|);
  }

  /** The empty word with no breakpoints still runs the loop once, over word[0:0]. */
  lemma EmptyWord(decisions: seq<bool>, buttWord: string)
    requires 0 < |decisions|
    ensures Buttified("", [], decisions, buttWord) == Some(if decisions[0] then buttWord else "")
  {
    var bounds := Boundaries("", []);
    assert bounds == [0];
    assert Run("", bounds, decisions, buttWord, 0) == Some(([], 0));
    if decisions[0] {
      assert [] + buttWord == buttWord;
    } else {
      assert [] + ""[0..0] == "";
    }
  }
}
