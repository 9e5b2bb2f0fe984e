/** The earlier Buttify (buttsbot.go): no final boundary is appended, and each
    replacement is spliced into the CURRENT word at offsets taken from the
    ORIGINAL word's breakpoints. Once a splice changes the length, later
    offsets drift; a Go slice past the end of the current word panics, which
    is modelled as None.

    As in the current version, `breakpoints` is the hyphenator's answer and
    `decisions[k]` says whether the k-th draw fell below the replacement rate. */
module Buttsbot {
  import opened Syllables
  import Buttifier

  /** The word after the first `n` iterations, or None once
      `word[0:start] + buttWord + word[breakPoint:]` would panic. The two slices
      are taken independently, so `start > breakPoint` does not panic: only an
      offset past the end of the current word does. Every splice changes the
      length by |buttWord| minus (breakPoint - start), drift or not, so a word
      that survives `n` iterations has changed length by LengthChange. */
  function Spliced(word: string, breakpoints: seq<nat>, decisions: seq<bool>, buttWord: string, n: nat): (r: Option<string>)
    requires n <= |breakpoints| && n <= |decisions|
    ensures r.Some? ==> |r.value| == |word| + LengthChange(breakpoints, decisions, buttWord, n)
  {
    if n == 0 then Some(word)
    else
      match Spliced(word, breakpoints, decisions, buttWord, n - 1)
      case None => None
      case Some(current) =>
        if !decisions[n - 1] then Some(current)
        else
          var start := Start(breakpoints, n - 1);
          var breakPoint := breakpoints[n - 1];
          if start <= |current| && breakPoint <= |current|
          then Some(current[..start] + buttWord + current[breakPoint..])
          else None
  }

  /** What one call returns: None where Go would panic. */
  function Buttified(word: string, breakpoints: seq<nat>, decisions: seq<bool>, buttWord: string): (r: Option<string>)
    requires |breakpoints| <= |decisions|
    ensures r.Some? ==> |r.value| == |word| + LengthChange(breakpoints, decisions, buttWord, |breakpoints|)
  {
    Spliced(word, breakpoints, decisions, buttWord, |breakpoints|)
  }

  /** The loop of buttsbot.go: one draw per breakpoint; on "replace" the current
      word is rebuilt around the token. `used` counts the draws made, up to and
      including the iteration that panics, if one does. */
  method Buttify(word: string, breakpoints: seq<nat>, decisions: seq<bool>, buttWord: string)
    returns (result: Option<string>, used: nat)
    requires |breakpoints| <= |decisions|
    ensures result == Buttified(word, breakpoints, decisions, buttWord)
    ensures result.Some? ==> used == |breakpoints|
    ensures result.None? ==> (0 < used <= |breakpoints|
                              && Spliced(word, breakpoints, decisions, buttWord, used - 1).Some?
                              && Spliced(word, breakpoints, decisions, buttWord, used).None?)
  {
    var current := word;
    used := 0;
    for i := 0 to |breakpoints|
      invariant used == i
      invariant Spliced(word, breakpoints, decisions, buttWord, i) == Some(current)
    {
      var breakPoint := breakpoints[i];
      used := used + 1;
      if decisions[i] {
        var start := 0;
        if i > 0 {
          start := breakpoints[i - 1];
        } else {
          start := 0;
        }
        if start > |current| || breakPoint > |current| {
          SplicedNoneStays(word, breakpoints, decisions, buttWord, used, |breakpoints|);
          return None, used;
        }
        current := current[..start] + buttWord + current[breakPoint..];
      }
    }
    result := Some(current);
  }

  /** Once a splice panics, the call as a whole has panicked. */
  lemma {:induction false} SplicedNoneStays(word: string, breakpoints: seq<nat>, decisions: seq<bool>, buttWord: string, m: nat, n: nat)
    requires m <= n <= |breakpoints| && n <= |decisions|
    requires Spliced(word, breakpoints, decisions, buttWord, m).None?
    ensures Spliced(word, breakpoints, decisions, buttWord, n).None?
  {
    if m < n {
      SplicedNoneStays(word, breakpoints, decisions, buttWord, m, n - 1);
    }
  }

  /** The corrected loop: it keeps the shift that earlier splices caused and
      moves every offset by it, so each replacement covers its own syllable of
      the original word and the text after the last breakpoint is kept. */
  method ButtifyWithShift(word: string, breakpoints: seq<nat>, decisions: seq<bool>, buttWord: string)
    returns (result: string, used: nat)
    requires ValidBreakpoints(word, breakpoints)
    requires |breakpoints| <= |decisions|
    ensures used == |breakpoints|
    ensures result == Rejoin(word, breakpoints, decisions, buttWord, used) + word[Start(breakpoints, used)..]
  {
    var current := word;
    var shift: int := 0;
    used := 0;
    for i := 0 to |breakpoints|
      invariant used == i
      invariant |Rejoin(word, breakpoints, decisions, buttWord, i)| == Start(breakpoints, i) + shift
      invariant current == Rejoin(word, breakpoints, decisions, buttWord, i) + word[Start(breakpoints, i)..]
    {
      var breakPoint := breakpoints[i];
      var start := if i > 0 then breakpoints[i - 1] else 0;
      SyllableInWord(word, breakpoints, i);
      ghost var done := Rejoin(word, breakpoints, decisions, buttWord, i);
      NextSyllable(done, word, start, breakPoint, buttWord);
      used := used + 1;
      if decisions[i] {
        current := current[..start + shift] + buttWord + current[breakPoint + shift..];
        shift := shift + |buttWord| - (breakPoint - start);
      }
    }
    result := current;
  }

  /** The corrected loop returns what the current version (buttifier.go) returns
      when its extra, final draw says "keep". */
  lemma AgreesWithLaterVersion(word: string, breakpoints: seq<nat>, decisions: seq<bool>, buttWord: string)
    requires ValidBreakpoints(word, breakpoints)
    requires |breakpoints| <= |decisions|
    ensures Buttifier.Buttified(word, breakpoints, decisions[..|breakpoints|] + [false], buttWord)
         == Some(Rejoin(word, breakpoints, decisions, buttWord, |breakpoints|) + word[Start(breakpoints, |breakpoints|)..])
  {
    var n := |breakpoints|;
    var bounds := Buttifier.Boundaries(word, breakpoints);
    var keepLast := decisions[..n] + [false];
    Buttifier.SafeWhenValid(word, breakpoints, keepLast, buttWord);
    Buttifier.BoundariesValid(word, breakpoints);
    assert bounds[..n] == breakpoints[..n];
    assert keepLast[..n] == decisions[..n];
    RejoinPrefix(word, bounds, breakpoints, keepLast, decisions, buttWord, n);
    assert Start(bounds, n) == Start(breakpoints, n);
    assert word[Start(bounds, n)..bounds[n]] == word[Start(breakpoints, n)..];
  }

  /** Without a single "replace" no slice is taken: the word comes back unchanged,
      whatever the breakpoints. */
  lemma {:induction false} NoReplaceIsIdentity(word: string, breakpoints: seq<nat>, decisions: seq<bool>, buttWord: string, n: nat)
    requires n <= |breakpoints| && n <= |decisions|
    requires forall k :: 0 <= k < n ==> !decisions[k]
    ensures Spliced(word, breakpoints, decisions, buttWord, n) == Some(word)
  {
    if n > 0 {
      NoReplaceIsIdentity(word, breakpoints, decisions, buttWord, n - 1);
    }
  }

  /** An empty breakpoint list means no iteration at all: the word is returned unchanged. */
  lemma NoBreakpointsIsIdentity(word: string, decisions: seq<bool>, buttWord: string)
    ensures Buttified(word, [], decisions, buttWord) == Some(word)
  {
  }

  /** The first replacement acts on the unmodified word: it replaces exactly the
      original text between the previous breakpoint and its own. */
  lemma FirstReplacementActsOnOriginal(word: string, breakpoints: seq<nat>, decisions: seq<bool>, buttWord: string, i: nat)
    requires i < |breakpoints| <= |decisions|
    requires forall k :: 0 <= k < i ==> !decisions[k]
    requires decisions[i]
    requires Start(breakpoints, i) <= |word| && breakpoints[i] <= |word|
    ensures Spliced(word, breakpoints, decisions, buttWord, i + 1)
         == Some(word[..Start(breakpoints, i)] + buttWord + word[breakpoints[i]..])
  {
    NoReplaceIsIdentity(word, breakpoints, decisions, buttWord, i);
  }

  /** When every replaced syllable is exactly as long as the token, the result
      has the input's length. */
  lemma LengthNeutralKeepsLength(word: string, breakpoints: seq<nat>, decisions: seq<bool>, buttWord: string)
    requires |breakpoints| <= |decisions|
    requires forall k :: 0 <= k < |breakpoints| ==> FitsToken(breakpoints, decisions, buttWord, k)
    requires Buttified(word, breakpoints, decisions, buttWord).Some?
    ensures |Buttified(word, breakpoints, decisions, buttWord).value| == |word|
  {
    NeutralLengthChange(breakpoints, decisions, buttWord, |breakpoints|);
  }

  /** If no splice shrinks the word, offsets within the original word stay within
      the current one: the call never panics and never shortens the word. */
  lemma {:induction false} NoPanicWithoutShrinking(word: string, breakpoints: seq<nat>, decisions: seq<bool>, buttWord: string, n: nat)
    requires n <= |breakpoints| && n <= |decisions|
    requires forall k :: 0 <= k < n ==> breakpoints[k] <= |word|
    requires forall k {:trigger decisions[k]} :: 0 <= k < n && decisions[k] ==> breakpoints[k] - Start(breakpoints, k) <= |buttWord|
    ensures Spliced(word, breakpoints, decisions, buttWord, n).Some?
    ensures |Spliced(word, breakpoints, decisions, buttWord, n).value| >= |word|
  {
    if n > 0 {
      NoPanicWithoutShrinking(word, breakpoints, decisions, buttWord, n - 1);
      assert n > 1 ==> breakpoints[n - 2] <= |word|;
    }
  }

  /** Without drift the earlier version is right: when every replaced syllable is
      as long as the token, it returns the syllables joined, each the token or
      its original text, followed by the untouched text after the last breakpoint. */
  lemma {:induction false} NoDriftAgreesWithPieces(word: string, breakpoints: seq<nat>, decisions: seq<bool>, buttWord: string, n: nat)
    requires ValidBreakpoints(word, breakpoints)
    requires n <= |breakpoints| && n <= |decisions|
    requires forall k :: 0 <= k < n ==> FitsToken(breakpoints, decisions, buttWord, k)
    ensures Spliced(word, breakpoints, decisions, buttWord, n)
         == Some(Rejoin(word, breakpoints, decisions, buttWord, n) + word[Start(breakpoints, n)..])
  {
    if n == 0 {
      assert [] + word[0..] == word;
    } else {
      NoDriftAgreesWithPieces(word, breakpoints, decisions, buttWord, n - 1);
      NeutralRejoinLength(word, breakpoints, decisions, buttWord, n - 1);
      NoDriftStep(word, breakpoints, decisions, buttWord, n);
    }
  }

  /** One iteration of NoDriftAgreesWithPieces: a splice into the joined syllables
      followed by the original text covers exactly the next syllable. */
  lemma NoDriftStep(word: string, breakpoints: seq<nat>, decisions: seq<bool>, buttWord: string, n: nat)
    requires ValidBreakpoints(word, breakpoints)
    requires 0 < n <= |breakpoints| && n <= |decisions|
    requires FitsToken(breakpoints, decisions, buttWord, n - 1)
    requires |Rejoin(word, breakpoints, decisions, buttWord, n - 1)| == Start(breakpoints, n - 1)
    requires Spliced(word, breakpoints, decisions, buttWord, n - 1)
          == Some(Rejoin(word, breakpoints, decisions, buttWord, n - 1) + word[Start(breakpoints, n - 1)..])
    ensures Spliced(word, breakpoints, decisions, buttWord, n)
         == Some(Rejoin(word, breakpoints, decisions, buttWord, n) + word[Start(breakpoints, n)..])
  {
    var done := Rejoin(word, breakpoints, decisions, buttWord, n - 1);
    var start, breakPoint := Start(breakpoints, n - 1), breakpoints[n - 1];
    SyllableInWord(word, breakpoints, n - 1);
    NextSyllable(done, word, start, breakPoint, buttWord);
    if decisions[n - 1] {
      assert Rejoin(word, breakpoints, decisions, buttWord, n) == done + buttWord;
    } else {
      assert Rejoin(word, breakpoints, decisions, buttWord, n) == done + word[start..breakPoint];
    }
  }

  /** The case the earlier test checks: only the second syllable of "Contributor" replaced. */
  lemma ContributorExample()
    ensures Buttified("Contributor", [3, 7], [false, true], "butt") == Some("Conbuttutor")
  {
    NoReplaceIsIdentity("Contributor", [3, 7], [false, true], "butt", 1);
    assert "Contributor"[..3] + "butt" + "Contributor"[7..] == "Conbuttutor";
  }

  /** Drift: both syllables of "Contributor" replaced. The second splice cuts the
      already-spliced word at offsets 3 and 7 of the original, giving
      "butbuttbutor" where each syllable's own replacement gives "buttbuttutor". */
  lemma DriftExample()
    ensures Buttified("Contributor", [3, 7], [true, true], "butt") == Some("butbuttbutor")
    ensures Rejoin("Contributor", [3, 7], [true, true], "butt", 2) + "Contributor"[Start([3, 7], 2)..] == "buttbuttutor"
  {
    var first := "" + "butt" + "Contributor"[3..];
    assert first == "butttributor";
    assert Spliced("Contributor", [3, 7], [true, true], "butt", 1) == Some(first);
    assert first[..3] + "butt" + first[7..] == "butbuttbutor";
    assert ValidBreakpoints("Contributor", [3, 7]);
  }

  /** Drift can overwrite the text after the last breakpoint: in "abcdefgh" with
      breakpoints [2, 4, 5], the third splice lands on "f" while the original tail is "fgh". */
  lemma TailOverwrittenByDrift()
    ensures Buttified("abcdefgh", [2, 4, 5], [true, false, true], "x") == Some("xcdexgh")
  {
    var first := "" + "x" + "abcdefgh"[2..];
    assert first == "xcdefgh";
    assert Spliced("abcdefgh", [2, 4, 5], [true, false, true], "x", 2) == Some(first);
    assert first[..4] + "x" + first[5..] == "xcdexgh";
  }

  /** A shrinking splice can push a later offset past the end: the call panics. */
  lemma ShrinkingSplicePanics()
    ensures Buttified("abcdefgh", [4, 8], [true, true], "x") == None
  {
    var first := "" + "x" + "abcdefgh"[4..];
    assert first == "xefgh";
    assert Spliced("abcdefgh", [4, 8], [true, true], "x", 1) == Some(first);
  }

  /** A breakpoint before the previous one does not panic: both slices are legal,
      and the text between them is written twice. */
  lemma BackwardSpliceRepeats()
    ensures Buttified("abcd", [3, 1], [false, true], "X") == Some("abcXbcd")
  {
    NoReplaceIsIdentity("abcd", [3, 1], [false, true], "X", 1);
    assert "abcd"[..3] + "X" + "abcd"[1..] == "abcXbcd";
  }
}
