# shrinkray's generic-language passes, modelled in Dafny

This project models the reduction passes in shrinkray's `genericlanguages.py`, which target
"things that look like programming languages":

- **`Substring`**: the format adapter that strips a literal prefix and suffix from a value.
- **`regex_pass`**: the region engine. It scans the test case left to right for
  non-overlapping matches of a pattern and keeps one replacement slot per match. `replace(i, s)`
  rebuilds a full candidate from the slots. `is_interesting(s)` commits a proposal for one
  region only when the rebuilt candidate was accepted and a fresh rebuild still equals it. A
  stale rebuild is retried, up to 100 times, with a shared merge-attempt counter.
- **`reduce_integer`** and **`IntegerFormat`**: a biased binary search over a non-negative
  integer, and the ASCII-decimal view used by `reduce_integer_literals`. That pass is
  `regex_pass(b"[0-9]+")` wrapped around `reduce_integer`.
- **`shortlex`** and **`normalize_identifiers`**: the single-letter replacement pool, the
  shortlex orders of replacements and targets, and the whole-word substitution. They also
  cover the `can_replace` guard, and `find_first_value` as a first-match linear scan.
- **`simplify_brackets`**: its table of byte patches.

Bytes are a `byte` newtype. The interestingness test is a pure function parameter. Indices and
lengths are unbounded integers, as Python's are.

One module per file:

| file | module | models | form |
|---|---|---|---|
| `bytes.dfy` | `Bytes` | bytes, `Option`, parse results, ASCII classes | data |
| `substring.dfy` | `SubstringFormat` | `Substring.parse` and `Substring.dumps` | functions |
| `region_scan.dfy` | `RegionScan` | the match-collecting scan, and the `[0-9]+` search | function and method |
| `region_engine.dfy` | `RegionEngine` | `replace`, and the commit/retry protocol as a class `RegionPass` whose `replacements` field is an array | functions, class |
| `integer_shrinker.dfy` | `IntegerShrinker` | `reduce_integer` | method with a loop |
| `integer_format.dfy` | `IntegerFormat` | `IntegerFormat.parse` and `IntegerFormat.dumps` | functions |
| `integer_literals.dfy` | `IntegerLiterals` | `reduce_integer_literals` | lemmas |
| `shortlex.dfy` | `Shortlex` | the shortlex key, and sorting a set of tokens by it | functions |
| `identifiers.dfy` | `IdentifierRenaming` | `normalize_identifiers` | methods with loops |
| `brackets.dfy` | `Brackets` | the `simplify_brackets` patch list | functions |

The concurrency of `regex_pass` is sequentialised in `RegionPass.Propose`. An `Interference`
parameter gives the slot writes that sibling tasks make while each round's oracle call is in
flight. The pure function `Rounds` specifies the resulting run of rounds, and `Propose` is
proved equal to it.

## Model

| member | source | states |
|---|---|---|
| SubstringFormat.Parse | src/shrinkray/passes/genericlanguages.py:34-38 | Parsing succeeds exactly when the input starts with the prefix and ends with the suffix. When they fit without overlapping, the input is prefix + result + suffix. When they overlap, the result is empty, as Python's slice is. |
| SubstringFormat.Dumps | src/shrinkray/passes/genericlanguages.py:40-41 | The output is the prefix, then the input, then the suffix, and its length is their total. |
| SubstringFormat.ParseDumps | src/shrinkray/passes/genericlanguages.py:34-41 | Parsing a wrapped value gives the value back, for every prefix, suffix and value. |
| SubstringFormat.DumpsParseIff | src/shrinkray/passes/genericlanguages.py:34-41 | For an input that parses, re-wrapping the parse gives the input back if and only if prefix and suffix fit in it without overlapping. |
| SubstringFormat.OverlapCounterexample | src/shrinkray/passes/genericlanguages.py:35-36 | With prefix `ab` and suffix `ba`, the input `aba` parses to the empty value, which re-wraps to `abba`. |
| SubstringFormat.ParseStrict | src/shrinkray/passes/genericlanguages.py:34-38 | The corrected parse: succeeds exactly when the input starts with the prefix, ends with the suffix, and is at least as long as both together. |
| SubstringFormat.ParseStrictRoundTrip | src/shrinkray/passes/genericlanguages.py:34-41 | For the corrected parse, both round trips hold for all inputs: parse after dumps, and dumps after a successful parse. |
| RegionScan.Scan | src/shrinkray/passes/genericlanguages.py:56-65 | The spans collected from position `i` lie within `[i, len]`, in ascending order, and do not overlap. |
| RegionScan.ScanRegions | src/shrinkray/passes/genericlanguages.py:54-65 | The `while` loop collects exactly `Scan` from 0, so its regions are ordered and non-overlapping, and the first region is the first match. |
| RegionScan.DigitSearch | src/shrinkray/passes/genericlanguages.py:183 | `[0-9]+` searched from `i`: the leftmost digit at or after `i`, with its run of digits taken as far as it goes. None exactly when no digit follows `i`. |
| RegionEngine.SpliceOriginals | src/shrinkray/passes/genericlanguages.py:72-90 | Rebuilding from the original slots gives back the initial test case. |
| RegionEngine.ReplaceOriginal | src/shrinkray/passes/genericlanguages.py:73-90 | `replace(i, initial[u:v])` on the original slots is the initial test case. |
| RegionEngine.ReplaceLength | src/shrinkray/passes/genericlanguages.py:73-90 | The length of `replace(i, s)` is the snapshot's length, minus the matched widths, plus the lengths of the other slots, plus `len(s)`. |
| RegionEngine.ReplaceOwnSlot | src/shrinkray/passes/genericlanguages.py:73-90 | `replace(i, replacements[i])` is the same candidate for every `i`: the one the slots describe. |
| RegionEngine.RoundsAccepted | src/shrinkray/passes/genericlanguages.py:112-117 | An accepted proposal ends with the slots as the siblings left them, with `s` written to slot `i` and nothing else written. The candidate that those slots rebuild was accepted by the oracle. |
| RegionEngine.RoundsNotAccepted | src/shrinkray/passes/genericlanguages.py:112-126 | A rejected proposal, or one whose retry assertion failed, writes no slot. Only the siblings' writes change them. |
| RegionEngine.RoundsBounded | src/shrinkray/passes/genericlanguages.py:118-126 | A proposal asks the oracle at most 101 times. The retry assertion fails only on exactly the 101st call. |
| RegionEngine.RoundsQuiet | src/shrinkray/passes/genericlanguages.py:112-117 | When no sibling writes during the call, one oracle call decides, the cap is never hit, and the proposal is accepted exactly when the oracle accepts `replace(i, s)`. |
| RegionEngine.RegionPass.constructor | src/shrinkray/passes/genericlanguages.py:54-72 | The regions are the scan of the text. Each slot holds its matched text, the counter is 0, and the slots describe the text itself. |
| RegionEngine.RegionPass.Round | src/shrinkray/passes/genericlanguages.py:112-115 | Builds `attempt` from the slots as they stand, asks the oracle about it while the siblings' writes land, and reports whether a fresh `replace(i, s)` still equals it. |
| RegionEngine.RegionPass.Attempt | src/shrinkray/passes/genericlanguages.py:112-117 | One round either ends the proposal with the verdict `Rounds` gives (rejected, or accepted with `s` in slot `i` and the current candidate interesting) or leaves it to go round again. It never reports the cap itself. |
| RegionEngine.RegionPass.Propose | src/shrinkray/passes/genericlanguages.py:95-130 | The verdict, and the slots afterwards, are those `Rounds` gives. The merge counter is back to its old value and never negative. On acceptance, slot `i` holds `s` and the current candidate is interesting. |
| IntegerShrinker.ReduceInteger | src/shrinkray/passes/genericlanguages.py:147-169 | The result is at most the start, is interesting, and has an uninteresting predecessor. Exit at 0 happens exactly when 0 is interesting. 0 is always the first probe. The result is at most every interesting probed value, and no probe exceeds the start. |
| IntegerShrinker.LocalMinimumIsLeast | src/shrinkray/passes/genericlanguages.py:147-169 | For an upward-closed test, nothing below a locally minimal value is interesting, so the search finds the true minimum. |
| IntegerFormat.Dumps | src/shrinkray/passes/genericlanguages.py:179-180 | `str(n)` is digits with no leading zero unless it is `0`, and is one byte long exactly when `n < 10`. |
| IntegerFormat.ParseDumps | src/shrinkray/passes/genericlanguages.py:172-180 | Parsing `str(n)` gives `n` for every `n` that `str()` prints, that is, one of at most 4300 digits. |
| IntegerFormat.DumpsParse | src/shrinkray/passes/genericlanguages.py:172-180 | A digit string parses exactly when it is within the digit limit. Re-printing its value then gives it back if and only if it has no leading zero. |
| IntegerLiterals.RegionsParse | src/shrinkray/passes/genericlanguages.py:183-185 | Every region of the pass is a maximal run of digits. The integer view of it parses exactly when the run has at most 4300 digits. |
| IntegerLiterals.DumpsLengthMonotone | src/shrinkray/passes/genericlanguages.py:179-180 | A smaller number never prints longer. |
| IntegerLiterals.DumpsValueLength | src/shrinkray/passes/genericlanguages.py:172-180 | Printing the value of a digit string takes at most as many bytes as the string. |
| IntegerLiterals.ReducedLiteral | src/shrinkray/passes/genericlanguages.py:183-185 | Any value no larger than a parsed region's prints no longer than the region's text, so within the digit limit, and parses back to itself. |
| Shortlex.LexTransitive | src/shrinkray/passes/genericlanguages.py:222-223 | The bytes order used for ties is transitive. |
| Shortlex.LexTotal | src/shrinkray/passes/genericlanguages.py:222-223 | Any two different byte strings are ordered one way or the other. |
| Shortlex.ShortlexOrder | src/shrinkray/passes/genericlanguages.py:222-223 | Comparing `(len(s), s)` keys is a strict total order: irreflexive, transitive and total. |
| Shortlex.ShortlexAsymmetric | src/shrinkray/passes/genericlanguages.py:222-223 | No two tokens are each shortlex-smaller than the other. |
| Shortlex.LeastExists | src/shrinkray/passes/genericlanguages.py:237 | Every non-empty set of tokens has a shortlex-least member. |
| Shortlex.LeastUnique | src/shrinkray/passes/genericlanguages.py:237 | That least member is unique. |
| Shortlex.SortAscending | src/shrinkray/passes/genericlanguages.py:237 | `sorted(s, key=shortlex)` holds each member of `s` once, in strictly ascending shortlex order. |
| Shortlex.SortDescending | src/shrinkray/passes/genericlanguages.py:238 | The `reverse=True` order holds each member once, in strictly descending shortlex order. |
| Shortlex.AscendingUnique | src/shrinkray/passes/genericlanguages.py:237 | Two strictly ascending sequences with the same members are equal: the sorted order is determined by the set. |
| IdentifierRenaming.BuildPool | src/shrinkray/passes/genericlanguages.py:228-235 | The nested loops build exactly the pool `Pool` describes. |
| IdentifierRenaming.AddFirstUnused | src/shrinkray/passes/genericlanguages.py:231-235 | The inner loop adds the first letter of its character type whose one-byte token is missing, and stops there. |
| IdentifierRenaming.PoolShape | src/shrinkray/passes/genericlanguages.py:228-235 | The pool is the identifiers plus at most one lowercase and one uppercase letter. Each added letter was not an identifier, is one byte of its case, and every earlier letter of that case was already an identifier. A letter of a case is added exactly when some letter of that case is not an identifier. |
| IdentifierRenaming.PoolTokens | src/shrinkray/passes/genericlanguages.py:228-235 | Every pool member is a token of word bytes. |
| IdentifierRenaming.SubstituteUnmentioned | src/shrinkray/passes/genericlanguages.py:242-250 | Substituting a token that does not occur as a whole word leaves the text unchanged. |
| IdentifierRenaming.SubstituteChanges | src/shrinkray/passes/genericlanguages.py:250-251 | Substituting a different token for one that occurs as a whole word changes the text, so the assertion on line 251 holds. |
| IdentifierRenaming.SubstituteNotLonger | src/shrinkray/passes/genericlanguages.py:250 | Substituting a token no longer than the target never lengthens the text. |
| IdentifierRenaming.SubstituteShortlexSmaller | src/shrinkray/passes/genericlanguages.py:248-250 | Renaming an occurring target to a shortlex-smaller token makes the whole text shortlex-smaller. |
| IdentifierRenaming.CanReplace | src/shrinkray/passes/genericlanguages.py:247-252 | The oracle is asked exactly when `r` is shortlex-smaller than `t`. What it is asked about is the substituted text, which differs from the source and is no longer. The answer is the acceptability of `r`. |
| IdentifierRenaming.FindFirstValue | src/shrinkray/passes/genericlanguages.py:254-257 | The index found is acceptable and no earlier one is. With nothing found, no entry is acceptable. Exactly the shortlex-smaller entries up to the one found were probed, in increasing order. |
| IdentifierRenaming.FirstInOrderIsLeast | src/shrinkray/passes/genericlanguages.py:237-257 | In the ascending pool, the first acceptable entry is the shortlex-least acceptable member. |
| IdentifierRenaming.ExtendSteps | src/shrinkray/passes/genericlanguages.py:241-257 | Adding one more target's step keeps every earlier step sound, and the replayed text is the substitution that step made, if any. |
| IdentifierRenaming.ProcessTarget | src/shrinkray/passes/genericlanguages.py:242-257 | An absent target is skipped. A target with no acceptable pool member is kept. Otherwise the target is renamed to the shortlex-least acceptable member, and the new text is that substitution, is interesting, and is no longer. |
| IdentifierRenaming.NormalizeIdentifiers | src/shrinkray/passes/genericlanguages.py:226-257 | There is one step per target, taken biggest first. Each step is the sound choice for the text as earlier steps left it, and every rename makes its target shortlex-smaller. The result is the text itself or is interesting, and is never longer. |
| Brackets.ZipMap | src/shrinkray/passes/genericlanguages.py:214 | `dict(zip(u, v))` has as keys the bytes of `u` that have a partner, and maps each position's byte to its partner when it does not come back later. |
| Brackets.Pairs | src/shrinkray/passes/genericlanguages.py:214 | The comprehension's pairs are exactly the `(u, v)` with `u > v`, both from the bracket list. |
| Brackets.PatchesComprehension | src/shrinkray/passes/genericlanguages.py:214 | Every patch zips one kind into a smaller-sorting kind, and every such pair of kinds gives a patch. |
| Brackets.BracketPatches | src/shrinkray/passes/genericlanguages.py:212-214 | The list has three patches: `[]` to `()`, `{}` to `[]` and `{}` to `()`. |
| Brackets.PatchesShrinkBrackets | src/shrinkray/passes/genericlanguages.py:211-216 | Each patch lowers every byte it rewrites, maps opening brackets to opening ones, and maps closing brackets to closing ones. |

## Left out

- Concurrency of `regex_pass`: the trio nursery, one task per region and the interleaving of
  tasks (lines 92-140). Sibling tasks are reduced to the slot writes an `Interference`
  parameter supplies, one map per oracle call.
- The backoff wait at lines 109-110: `trio.sleep` polling while another task merges. It can
  run only before the first round, because `is_merging` is set at the first stale recheck. It
  only delays that round. Sibling writes during the wait are covered by `Propose` accepting
  any starting slots, not by `Interference`.
- RegionEngine.RegionPass.Propose: changes to the merge-attempt counter by other tasks are not
  modelled. The model proves that this proposal's own changes cancel out and never make the
  counter negative.
- `reduction_pass`'s hand-off to `fn` through `BasicReductionProblem` (lines 132-137). The
  `Propose` and `ReduceInteger` contracts describe what one proposal or one search does, not
  the pass driven to completion.
- The session's acceptance rule is not part of this model. That rule makes an interesting
  candidate the current test case when it is shortlex-smaller than the current one. The model
  assumes that rule, and each pass's accepted candidates meet its "smaller" condition:
  - `ReduceInteger` returns the least interesting value probed.
  - Every rename `can_replace` sends to the oracle is shortlex-smaller than the text it came
    from (`SubstituteShortlexSmaller`).
  - `NormalizeIdentifiers` continues from each accepted substitution.
- The pattern engine: `re.search` for arbitrary patterns and the `IDENTIFIER` tokenizer of
  lines 219 and 227. `Scan` is stated for any searcher that meets `SearchContract`, and
  `DigitSearch` is the concrete `[0-9]+`. The identifiers are given to
  `NormalizeIdentifiers` as a set of word-byte tokens. The whole-word patterns it builds are
  modelled directly by `Mentions` and `Substitute`.
- RegionScan.Scan: a search from `i` whose match ends at `i` would make the source loop
  forever. `SearchContract` excludes any searcher that can return such a match from any
  position, including positions the scan never searches from. So the model does not cover
  patterns that can match the empty string, even where the source scan would finish (`a*` on
  `aaa`). `[0-9]+` cannot match empty.
- IntegerFormat.Parse: it accepts only plain ASCII digit runs of at most 4300 digits. That is
  the default `int()` limit from Python 3.11 on, and the model does not follow it when it is
  configured differently. Python's `int()` also accepts surrounding whitespace, a sign and
  underscores between digits. The regions `reduce_integer_literals` hands to the view are
  digit runs, so those inputs never reach it.
- IntegerFormat.Dumps: `str()` refuses a number of more than 4300 digits, and the model prints
  every number. `ReduceInteger` ensures every probe is at most the start value,
  and `ReducedLiteral` shows that any value at most a parsed region's value prints within the
  limit. So every number the view prints for a parsed region fits.
- `combine_expressions` (lines 188-198): it needs Python's `eval` and arithmetic errors, which
  are outside this model.
- `merge_adjacent_strings` and `replace_falsey_with_zero` (lines 201-208): each proposes one
  constant for every match of a pattern that needs a full regex engine (a back-reference,
  `re.IGNORECASE`). Their engine part is the `RegionEngine` model.
- `apply_patches` and `ByteReplacement` (line 216) are not part of this model. Only the patch
  list `simplify_brackets` passes to them is.
- `find_first_value` in `problem.work` may probe several values in parallel. It is modelled as
  a first-match linear scan, which gives the same answer for a deterministic test.
- The `name` property of `Substring` (lines 30-32) only produces a display string.

## Findings

| source | as written | input that shows it | evidently intended | confidence | as-written member | corrected member |
|---|---|---|---|---|---|---|
| src/shrinkray/passes/genericlanguages.py:34-38 | `parse` succeeds whenever the input starts with the prefix and ends with the suffix, even when they overlap. The slice is then empty. | prefix `ab`, suffix `ba`, input `aba`: parses to the empty string and re-wraps to `abba` | the format round trip `dumps(parse(x)) == x` for every parsed `x`, so `parse` should fail when prefix and suffix overlap | not executed; follows from Python's slice semantics | SubstringFormat.DumpsParseIff, SubstringFormat.OverlapCounterexample | SubstringFormat.ParseStrict, SubstringFormat.ParseStrictRoundTrip |

`Substring.parse` accepts a prefix and suffix that overlap (row above). At `reduce_integer`'s
early return (line 167), `lo` is always uninteresting, so `lo + 1` is a local minimum.
`ReduceInteger` proves local minimality for all three exits.
