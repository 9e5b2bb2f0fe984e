# Buttifier: the syllable-substitution loop

The buttifier replaces random syllables of a word with a token, `"butt"` by
default. A hyphenator splits the word into syllables and reports the
breakpoints between them as byte offsets. A random draw per syllable, compared
with the replacement rate, then decides whether that syllable is written as
the token or kept. The repository holds two versions of this `Buttify` loop,
and this project models both:

- `buttifier.go` (current). The loop appends `len(word)` as a final boundary.
  It walks the boundaries with a `prev` cursor and writes each syllable to a
  buffer, either as the token or as the original slice `word[prev:breakPoint]`.
  Modelled in `buttifier.dfy` (module `Buttifier`).
- `buttsbot.go` (earlier). The loop splices the token into the *current* word
  as `word[0:start] + buttWord + word[breakPoint:]`. The offsets come from the
  *original* word's breakpoints, and no final boundary is added. Modelled in
  `buttsbot.dfy` (module `Buttsbot`), index drift and Go slice panics included.
  A panic is the `None` of an `Option`.

`syllables.dfy` (module `Syllables`) holds what both versions share:

- `Start`: where syllable `i` starts.
- `ValidBreakpoints`: the hyphenator's promise that breakpoints are
  non-decreasing and stay within the word. Equal breakpoints are allowed: they
  give an empty syllable.
- `Rejoin`: the reference definition. It joins the syllables, each one the
  token or its own text from the original word.
- `LengthChange`: the sum of the length changes.

Inputs that the Go code obtains itself are parameters here:

- `breakpoints: seq<nat>` is what `Hyphenate` returned.
- `decisions: seq<bool>` holds the outcomes of the random draws in order.
  `decisions[k]` is true when the k-th draw fell below the replacement rate,
  which means "replace".
- The imperative loops are `method`s. Each has a `used` out-parameter counting
  the draws it consumed, and each is proved against a left-fold specification
  function: `Buttifier.Run` / `Buttifier.Buttified` and `Buttsbot.Spliced` /
  `Buttsbot.Buttified`.
- A Go `string` is a byte sequence sliced by byte offset. Here a word is a
  `string` in which each character stands for one byte.

Two points where the code is followed rather than a looser reading of it:

- Go's `word[0:start] + buttWord + word[breakPoint:]` takes two independent
  slices. It therefore panics only when `start` or `breakPoint` exceeds the
  current length. A breakpoint *before* the previous one does not panic: the
  text between the two is written twice (`Buttsbot.BackwardSpliceRepeats`).
- In the current version a replaced syllable is never sliced. A replacement
  therefore cannot panic, whatever the breakpoints, and only "keep" iterations
  need `prev <= breakPoint <= len(word)`.

## Model

| member | source | states |
|---|---|---|
| Buttifier.Boundaries | buttifier.go:73-74 | appending len(word) to valid breakpoints gives valid boundaries |
| Buttifier.BoundariesValid | buttifier.go:73-74 | the boundaries with len(word) appended are valid exactly when the hyphenator's breakpoints are |
| Buttifier.Buttify | buttifier.go:71-88 | the loop consumes len(breakpoints)+1 draws; its buffer is what the specification fold yields, with no panic, and equals the syllables joined, each the token or its own slice of the original word |
| Buttifier.Repeat | buttifier.go:79-80 | the token written k times has k times its length |
| Buttifier.Run | buttifier.go:76-84 | the buffer and `prev` after n iterations: whatever the decisions, `prev` is boundary n-1, because `prev = breakPoint` runs on both branches; the fold is None exactly when some iteration keeps its syllable and its slice `word[prev:breakPoint]` is out of range |
| Buttifier.Buttified | buttifier.go:71-88 | one call for any breakpoints: it panics (None) exactly when some kept syllable's slice, the last one up to len(word) included, is out of range; a replaced syllable never panics |
| Buttifier.RunMatchesPieces | buttifier.go:77-84 | with valid boundaries the loop never panics, and after n iterations the buffer is the first n syllables joined, each the token or the ORIGINAL slice, so a replacement never shifts later slices |
| Buttifier.RunIgnoresLaterDecisions | buttifier.go:77-78 | the first n iterations depend only on the first n draws |
| Buttifier.OneDecisionPerSyllable | buttifier.go:72-78 | exactly len(breakpoints)+1 draws decide the result: dropping every later draw changes nothing |
| Buttifier.SafeWhenValid | buttifier.go:74-84 | non-decreasing breakpoints within the word never make the call panic, and it returns the syllables joined |
| Buttifier.RunKeepOnlyIfValid | buttifier.go:81-84 | if every iteration keeps its syllable and none panics, the boundaries seen so far are non-decreasing and lie within the word |
| Buttifier.AllKeepSucceedsIff | buttifier.go:75-87 | with every draw "keep", the call succeeds if and only if the breakpoints are non-decreasing and lie within the word |
| Buttifier.AllKeepIsIdentity | buttifier.go:75-87 | with every draw "keep" and valid breakpoints, the kept slices telescope back to the word itself |
| Buttifier.AllReplaceRepeats | buttifier.go:79-80 | with every draw "replace" (the always-zero source of buttifier_test.go:9-13), any breakpoints give the token repeated len(breakpoints)+1 times, (len(breakpoints)+1) * len(buttWord) bytes long |
| Buttifier.RunAllReplace | buttifier.go:79-80 | n replacing iterations write the token n times and leave `prev` on boundary n-1, whatever the boundaries |
| Buttifier.OutputLength | buttifier.go:75-87 | output length is len(word) plus, for each replaced syllable, len(buttWord) minus that syllable's length |
| Buttifier.EmptyWord | buttifier.go:72-87 | the empty word with no breakpoints still runs the loop once, over word[0:0], giving "" on keep and buttWord on replace |
| Syllables.StartMonotone | buttifier.go:76-84 | under valid breakpoints a syllable's start offset (`prev`; `start` at buttsbot.go:46-51) never moves backward from one syllable to a later one and never passes the end of the word |
| Syllables.RejoinLength | buttifier.go:79-84 | the first n syllables joined are as long as the text they cover plus LengthChange over them |
| Syllables.RejoinKeepAll | buttifier.go:81-84 | kept syllables telescope: joining the first n unchanged gives the word up to the end of syllable n-1 |
| Syllables.RejoinPrefix | buttifier.go:77-84 | the first n joined syllables depend only on the first n boundaries and decisions |
| Syllables.NeutralLengthChange | buttsbot.go:52 | when every replaced syllable is exactly as long as the token, the lengths do not change |
| Syllables.NeutralRejoinLength | buttsbot.go:44-52 | when every replaced syllable is as long as the token, the first n joined syllables end where syllable n-1 ends in the original word |
| Buttsbot.Spliced | buttsbot.go:44-54 | the word after n iterations, which the fold makes None once `word[0:start]` or `word[breakPoint:]` would run past the current word; its contract: each splice changes the length by len(buttWord) minus (breakPoint - start), drift or not, so a word that survives n iterations has changed length by LengthChange over them |
| Buttsbot.Buttified | buttsbot.go:42-57 | one call: None where Go panics, and otherwise a result whose length is len(word) plus LengthChange over all breakpoints |
| Buttsbot.Buttify | buttsbot.go:42-57 | the loop returns what the specification fold yields, None exactly when a splice would panic; on success it consumed len(breakpoints) draws, and on a panic the last draw consumed is the one whose splice panicked |
| Buttsbot.SplicedNoneStays | buttsbot.go:44-52 | once a splice panics, the call as a whole has panicked |
| Buttsbot.NoReplaceIsIdentity | buttsbot.go:42-56 | with no "replace" draw the word comes back unchanged, whatever the breakpoints |
| Buttsbot.NoBreakpointsIsIdentity | buttsbot.go:43-44 | an empty breakpoint list means no iteration: the word comes back unchanged |
| Buttsbot.FirstReplacementActsOnOriginal | buttsbot.go:44-52 | the first replacement acts on the unmodified word: it replaces exactly word[start:breakPoint], start being breakpoints[i-1] or 0 |
| Buttsbot.LengthNeutralKeepsLength | buttsbot.go:52 | if every replaced syllable is exactly as long as the token, a successful call keeps the input's length |
| Buttsbot.NoPanicWithoutShrinking | buttsbot.go:44-52 | if no splice shrinks the word and the breakpoints lie within it, no slice runs past the current word: no panic, and the word never gets shorter |
| Buttsbot.ShrinkingSplicePanics | buttsbot.go:52 | a shrinking splice pushes a later offset past the end: "abcdefgh" with [4, 8], both replaced by "x", panics |
| Buttsbot.BackwardSpliceRepeats | buttsbot.go:52 | start > breakPoint does not panic: "abcd" with [3, 1], second replaced by "X", gives "abcXbcd" |
| Buttsbot.NoDriftAgreesWithPieces | buttsbot.go:44-52 | with no drift (every replaced syllable as long as the token), the earlier version returns the syllables joined, each the token or its own text, followed by the text after the last breakpoint |
| Buttsbot.ContributorExample | buttsbot_test.go:16 | "Contributor" with breakpoints [3, 7], only the second draw "replace", gives "Conbuttutor" |
| Buttsbot.DriftExample | buttsbot.go:52 | both syllables of "Contributor" replaced give "butbuttbutor", while replacing each syllable with the token gives "buttbuttutor" |
| Buttsbot.TailOverwrittenByDrift | buttsbot.go:44-56 | drift can overwrite text after the last breakpoint, which is meant to be kept: "abcdefgh", [2, 4, 5], replace-keep-replace, "x" gives "xcdexgh" |
| Buttsbot.ButtifyWithShift | buttsbot.go:44-52 | the corrected loop moves every offset by the shift of earlier splices, and returns the syllables joined, each the token or its own text, followed by the text after the last breakpoint |
| Buttsbot.AgreesWithLaterVersion | buttsbot.go:44-52 | the corrected loop returns what the current version returns when its extra, final draw says "keep" |

## Left out

- The hyphenator (`github.com/speedata/hyphenation`) and the loading of its pattern file with `os.Open` (buttifier.go:62-68, buttsbot.go:34-40). This is a foreign library plus I/O. Its answer is the `breakpoints` parameter, and its promise of non-decreasing offsets within the word is `ValidBreakpoints`.
- The random source and the `Float64() < buttificationRate` comparison (buttifier.go:15-19, 78-79; buttsbot.go:45). These are floating point and an injected generator. Their outcomes are the `decisions` parameter, which must hold at least one draw per iteration: a finite stand-in for an endless stream.
- The constructors `New` and `NewWithCustomButt`, which only wire configuration. `hyphenationFile` is ignored there (buttifier.go:49), and `buttificationProbability` is never read. The earlier `NewWithCustomButt` drops the rate (buttsbot.go:31), so every draw compares against 0 and keeps its syllable: `Buttsbot.NoReplaceIsIdentity` covers that case.
- The earlier constructor calls `rand.SourNewSource` (buttsbot.go:23), which does not exist, so that file does not compile as written. Only its `Buttify` body is modelled.
- `ButtifyWord`, `ButtifySentence`, `HyphenateWord` and case preservation, which buttifier_test.go exercises. They have no implementation among the modelled sources.
- Bytes versus characters: a word is a `string` whose characters stand for bytes. No UTF-8 encoding is modelled, just as the Go code slices at byte offsets without regard to runes.
- Buttifier.Buttify: the method requires valid breakpoints, as the hyphenator guarantees. The total function `Buttifier.Buttified` covers any breakpoints, with `None` where Go would panic.

## Findings

| source | as written | input that shows it | evidently intended | confidence | as-written member | corrected member |
|---|---|---|---|---|---|---|
| buttsbot.go:52 | each splice cuts the current word at offsets of the original word, so once a splice changes the length every later offset drifts | "Contributor", breakpoints [3, 7], both draws "replace", token "butt": the result is "butbuttbutor" | each replaced syllable becomes the token and the rest of the word is kept: "buttbuttutor", which is what buttifier.go now returns | high; not executed | Buttsbot.DriftExample | Buttsbot.ButtifyWithShift |
