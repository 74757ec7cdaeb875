# A verified model of shellflow's core

shellflow deploys services from annotated shell scripts. This project models, in Dafny, the stateful
logic that a deploy depends on, and proves what that logic promises and, where it promises too much,
exactly when it keeps the promise.

| files | what they model |
|---|---|
| `Text`, `Orders` | strings as byte sequences, `str::lines`, the order of `str`, stable sorting |
| `Ranges`, `Shadows`, `Masking`, `ShortValues`, `KeyedValues` | `apply_ranges`, `mask_line`, `prepare_masks`, `mask_token`, `mask_keyed` |
| `Masker`, `NarrowTheorems`, `MaskerStream` | the masker that redacts values split across output lines, what it makes of short values, and its guarantee over whole streams |
| `Lcs`, `Hunks` | the line diff: the dynamic-programming table, the walk, the hunks |
| `Heredocs`, `Delimiters`, `Words` | the here-document lexer and queue (section 2.7.4 of the POSIX.1-2017 Shell Command Language), and the word splitter (sections 2.2.1 to 2.2.3) |
| `Scanner`, `DirectiveLines`, `ScannerState`, `ScannerTheorems`, `PlanTheorems`, `ScannerBlocks` | the deploy-script scan: directives, blocks, metadata, targets, merging of steps |
| `Template` | the `${NAME}` renderer |
| `StatusPool` | the bounded worker pool of `service status` |
| `CredStore` | the staging-swap install of a credential store, and the fingerprint that lets an install be skipped |
| `BatchScripts`, `BatchFrames`, `BatchTheorems` | the script of a batch of remote queries, the reader of its framed answers, and the round trip |
| `GroupedOutput`, `GroupedTheorems`, `ChangeTheorems` | the output sink: one masker per host and stream, grouped or streamed output |
| `Secrets`, `SecretsTheorems`, `ResolveTheorems` | resolving `@secrets` into environments, key lists and redaction sets |

Code that changes state is modelled as methods and classes, each proved equal to a function of its
inputs or of the old state; the theorems are about those functions. Strings are sequences of bytes
written as `char`, so byte and character offsets agree. A line has no line break in it.

## What the proofs found

* **A value can pass the masker in two pieces**, although `crates/shellflow-core/src/env.rs:235-237` says
  that a complete value never appears. The masker remembers one tail per line: the longest prefix of
  any value that ends it. `MaskerStream.LeakIffSlip` says exactly when this loses a value,
  `SlipIffClash` turns it into a condition on prefixes of at most three bytes that can be evaluated
  before a run, `NoClashIsSafe` gives the guarantee for values of any length, and
  `SharedFirstByteLeaks` shows the failure for any two values with the same first byte.
* **A value that overlaps itself is not replaced everywhere** by `occurrences`, against the comment at
  `crates/shellflow-core/src/env.rs:427-432`: the search is greedy. `Masking.ChoosesAllIff` is the exact
  condition on the value, `OverlapWitness` the failing line, and `MaskerStream.OverlapShows` says which
  bytes of that line stay visible. What holds for every value, and suffices for the stream theorem, is
  that every occurrence meets a chosen match (`EveryOccurrenceMeetsAMatch`).
* **A short value can stand alone and be printed**: the search of `mask_token` steps over an occurrence that
  overlaps a match, even one it does not replace. `a-a` comes through in the line `ba-a-a`.
  `ShortValues.TokenHidesIff` is the exact condition on the value, `OverlapLeaks` the failing line.
* **A doubled short value is cut in half**: `mask_token` takes the second of two adjacent copies for a
  standalone token. `ShortValues.TokenRuleIff` is the exact condition on a line for both failures.
* **A keyed value can be printed behind its key**, quoted or not: `mask_keyed` steps over occurrences in the
  same way, and its loop no longer sees an identifier that began in the match before.
  `KeyedValues.KeyedRuleIff` and `KeyedHidesIff` are the exact conditions. With the key `vK` and the value
  `v` the line `K=vK=vX`, and with the key `a` and the value `a=` the line `=a=a=X`, come through both rules
  unchanged (`KeyBehindValue`, `KeyStepsOver`).
* **A fingerprint can lie**, although `bin/shellflow/src/cred_env.rs:327` says that failing to record one
  only costs an extra seal. `CredStore.InstalledIsDescribed` is the exact condition for a recorded
  fingerprint to describe its tree: one file left in the staging directory is enough to break it.
  `PlainMisledIff` says when a later install is misled by one, which takes two failures.
* **Different values can hash alike**, although the comment at `bin/shellflow/src/cred_env.rs:256-266` has
  every change covered: a line break in a value can stand for the end of its line. `CollisionIff`: for two
  keys or more, and never for one.
* **The header of an empty range** is not the one of the unified format: for an empty old text the code
  writes `@@ -1,0` where the format has `-0,0`. `Hunks.FormatReadsIff` is the exact condition.
* **A change of the values forgets a fragment**: `set_secret_values` drops the maskers, so that a value split
  around it is shown when its first fragment is short (`ChangeTheorems.ChangeCosts`).
* **A delimiter quoted in part** is not read as the shell reads it, and a shift in `$((1<<2))` is taken for
  a here-document (`Delimiters.CutWord`, `KeptQuotes`, `ShiftIsOpener`).
* **An empty list of secret keys is exported** to a host whose own secrets file holds no pair, although
  the comment at `bin/shellflow/src/secrets.rs:222-229` rules an empty list out; `ListIsExported` says when.
* **Two hosts cannot both have their own short secret under one key redacted**: `ExportedIsRegistered`
  is the exact condition, `SecondHostForgetsFirst` the example.
* **A secrets file that assigns `LT_SECRET_KEYS`** replaces the list of the shared keys: `ExportedList`.
* **A carriage return can stay in a script line**: of three before a line break, or two at the end of the
  text, one is kept, and the block then does not parse into the same script again.
  `ScannerBlocks.BlockReparses` is the exact condition, `ReturnsBreakBlock` the failing scripts.
* The cursor guard of the template scan never fires, and no lexer loop ends by its round limit; both
  follow from `Template.Placeholders` and the lexer methods meeting functions that have neither.

## Model

| member | source | states |
|---|---|---|
| `Masking.EveryOccurrenceMeetsAMatch` | crates/shellflow-core/src/env.rs:427-446 | greedy matching may skip an occurrence, but only one that overlaps a match it chose |
| `Masking.ChoosesAllIff` | crates/shellflow-core/src/env.rs:427-446 | every occurrence of a value is chosen in every line if and only if no proper end of the value is also its beginning |
| `Masking.OverlapWitness` | crates/shellflow-core/src/env.rs:427-446 | for any value that overlaps itself, the line with two overlapping copies: only the first is chosen |
| `Masking.MaskLine` | crates/shellflow-core/src/env.rs:131-146 | the replacement loop over the values equals the pure rule the next two rows are about |
| `Masking.MaskLineHides` | crates/shellflow-core/src/env.rs:131-146 | no star-free value of the set is left in a masked line, self-overlapping values included |
| `Masking.MaskLineIdempotent` | crates/shellflow-core/src/env.rs:131-146 | masking a masked line again changes nothing |
| `Masking.PrepareMasksHolds` | crates/shellflow-core/src/env.rs:112-128 | the prepared list holds exactly the non-empty values, once each, longest first |
| `Masking.PrepareMasksCanonical` | crates/shellflow-core/src/env.rs:112-128 | it depends on the set of non-empty values alone, not on order or repetition |
| `Masking.MaskToken` | crates/shellflow-core/src/env.rs:164-183 | the loop with its moving remainder equals the function that TokenRuleIff and TokenHidesIff are about |
| `Masking.MaskKeyed` | crates/shellflow-core/src/env.rs:185-198 | the loop over the three printed forms equals the function that ShortIsRule is about |
| `Masking.ReplaceKeyed` | crates/shellflow-core/src/env.rs:200-226 | the loop over `IDENT<suffix>` equals the function that KeyedRuleIff and KeyedHidesIff are about |
| `Masking.IdentStartHolds` | crates/shellflow-core/src/env.rs:206-211 | the identifier before a suffix is taken whole: all word characters, and none before them |
| `Masking.NarrowedShows` | crates/shellflow-core/src/env.rs:156-226 | the narrow rules never bring anything into view: what their output shows was in the line, side by side |
| `ShortValues.TokenRuleIff` | crates/shellflow-core/src/env.rs:156-183 | on a line, a short value is replaced exactly where it stands alone if and only if no two matches lie side by side with the second ending a word, and the value stands alone nowhere that the search steps over; the result is then the line with those places replaced |
| `ShortValues.TokenHidesIff` | crates/shellflow-core/src/env.rs:156-183 | a short value is replaced wherever it stands alone, in every line, and is never left in full view there, if and only if it cannot overlap itself behind a non-word character |
| `ShortValues.OverlapLeaks` | crates/shellflow-core/src/env.rs:163-183 | for any other value, the line that the loop returns unchanged with the value standing alone in it |
| `ShortValues.TokenLeakExample` | crates/shellflow-core/src/env.rs:163-183 | `a-a` in the line `ba-a-a` |
| `ShortValues.TokenExactIff` | crates/shellflow-core/src/env.rs:156-183 | a short value is replaced exactly where it stands alone, in every line, if and only if it also does not end with a word character |
| `ShortValues.DoubledValueIsCut` | crates/shellflow-core/src/env.rs:170-180 | a value written twice in a row: the second copy is replaced though the first touches it, and what the line becomes |
| `KeyedValues.KeyedRuleIff` | crates/shellflow-core/src/env.rs:185-226 | on a line, a suffix is replaced exactly where the whole identifier before it is the key, in any letter case, if and only if no identifier that runs on into the match before is, whole or from there on, the key, and the key stands before no occurrence that the search steps over |
| `KeyedValues.KeyedHidesIff` | crates/shellflow-core/src/env.rs:185-226 | a keyed value is replaced behind its whole key in every line, and never left in full view there, if and only if it cannot overlap itself behind the key and does not end in a beginning of it that a word completes |
| `KeyedValues.KeyedExactIff` | crates/shellflow-core/src/env.rs:185-226 | it is replaced there and nowhere else, in every line, if and only if it cannot overlap itself behind the key and does not end in a word character, unless the key is no word |
| `KeyedValues.QuotedRuleIff` | crates/shellflow-core/src/env.rs:185-198 | a quoted form departs from the rule exactly where the search steps over a key, and never does if and only if it cannot overlap itself behind the key |
| `KeyedValues.QuotedLeaks` | crates/shellflow-core/src/env.rs:185-198 | it does for a value that is the key and `=`: a line in which the quoted value is left in full view |
| `KeyedValues.ShortIsRule` | crates/shellflow-core/src/env.rs:337-349 | what runs for one short value, the token rule and then the three keyed forms, is the documented rules in this order wherever no pass meets one of these cases |
| `KeyedValues.NeverWrong` | crates/shellflow-core/src/env.rs:337-349 | which keys and values meet none of them in any line |
| `KeyedValues.KeyBehindValue` | crates/shellflow-core/src/env.rs:337-349 | `name=value` twice and a word character, the key being `value` + `name`: the line comes through both rules unchanged |
| `KeyedValues.KeyStepsOver` | crates/shellflow-core/src/env.rs:337-349 | `=key=key=` and a word character, the value being the key and `=`: so does this line |
| `Ranges.MergeRanges` | crates/shellflow-core/src/env.rs:251-270 | the merged blocks are in order, apart, and cover exactly what the ranges cover |
| `Ranges.ApplyRanges` | crates/shellflow-core/src/env.rs:251-280 | ranges in any order and overlap: exactly the bytes outside their union are kept, with one mask per maximal block |
| `Shadows.SpliceShows` | crates/shellflow-core/src/env.rs:251-280 | a star-free text seen in the result was in the line, in uncovered bytes, and not joined across a mask |
| `Masker.SecretMasker.constructor` | crates/shellflow-core/src/env.rs:331-335 | a new masker has every proper prefix length of every value, longest first, and nothing pending |
| `Masker.SecretMasker.Occurrences` | crates/shellflow-core/src/env.rs:433-446 | exactly the greedy matches of every non-empty value |
| `Masker.SecretMasker.LongestBoundary` | crates/shellflow-core/src/env.rs:455-469 | the longest proper prefix of one value that ends the line, with the first-byte shortcut |
| `Masker.SecretMasker.TailPrefix` | crates/shellflow-core/src/env.rs:450-476 | the first value with the longest such prefix |
| `Masker.BestTailHolds` | crates/shellflow-core/src/env.rs:448-476 | that tail is a proper prefix of a value, ends the line, and no value has a longer one |
| `Masker.SecretMasker.Continue` | crates/shellflow-core/src/env.rs:360-396 | which pending prefixes go on, are complete or are dropped on the next line |
| `Masker.SecretMasker.RedactLine` | crates/shellflow-core/src/env.rs:357-425 | one line's output and the new pending state, from the old state and the line; LineByRules, ListedIsHidden and KeyedIsHidden say what the short values come to in it, HidesOnlyValues and LeakIffSlip the long ones |
| `Masker.SecretMasker.RedactText` | crates/shellflow-core/src/env.rs:337-349 | a note is redacted without any state, and no star-free value is left in it; NoteByRules, ListedIsHiddenInNotes and NextValue say what it comes to |
| `NarrowTheorems.LineByRules` | crates/shellflow-core/src/env.rs:420-425 | a redacted line for more short values is the line for the others, run through the documented token and key rules of these, one value after the other |
| `NarrowTheorems.NoteByRules` | crates/shellflow-core/src/env.rs:342-349 | so is a redacted note |
| `NarrowTheorems.OneShortValue` | crates/shellflow-core/src/env.rs:342-425 | with one short value and nothing else, the output of a line and of a note is the documented rules for it |
| `NarrowTheorems.ListedIsHidden` | crates/shellflow-core/src/env.rs:420-425 | a listed short value that TokenHidesIff admits is hidden wherever it stands alone in what the long values and the earlier short ones leave of the line: none of these bytes is shown, whatever follows in the list |
| `NarrowTheorems.ListedIsHiddenInNotes` | crates/shellflow-core/src/env.rs:342-349 | the same for a note |
| `NarrowTheorems.KeyedIsHidden` | crates/shellflow-core/src/env.rs:185-226 | a listed value that KeyedHidesIff admits is hidden wherever it stands behind its whole key: only the `=` is shown |
| `NarrowTheorems.NextValue` | crates/shellflow-core/src/env.rs:131-146 | a note is redacted for one more long value by replacing its greedy matches; no other byte changes |
| `MaskerStream.RedactAll` | crates/shellflow-core/src/env.rs:351-425 | a whole stream through one masker |
| `MaskerStream.HistoryHolds` | crates/shellflow-core/src/env.rs:303-305 | in every reachable state each pending prefix is a proper, non-empty prefix of a value and ends the text fed so far |
| `MaskerStream.RememberedIsHidden` | crates/shellflow-core/src/env.rs:360-396 | a remembered value that goes on over the next lines has every byte of its continuation redacted; empty lines in between change nothing |
| `MaskerStream.SplitValueIsHidden` | crates/shellflow-core/src/env.rs:357-425 | a value split behind a remembered first fragment of four bytes or more is redacted in every byte |
| `MaskerStream.OverlapShows` | crates/shellflow-core/src/env.rs:427-446 | in the line with two overlapping copies of a value, exactly which bytes are redacted, and so which stay visible |
| `MaskerStream.OutputsShow` | crates/shellflow-core/src/env.rs:357-425 | all outputs joined show only bytes that were not redacted, next to each other as in the input |
| `MaskerStream.OccurrenceHidden` | crates/shellflow-core/src/env.rs:282-297 | without a slip, every occurrence of a value in the joined lines has a redacted byte, however it is split |
| `MaskerStream.LeakIffSlip` | crates/shellflow-core/src/env.rs:282-297 | no stream of lines ever shows a star-free value if and only if no line slips |
| `MaskerStream.SlipIsShort` | crates/shellflow-core/src/env.rs:228-238 | a slip is a fragment of at most three bytes: longer ones are redacted where they stand |
| `MaskerStream.LongSplitsNeverShow` | crates/shellflow-core/src/env.rs:228-238 | a star-free value that the stream never splits within its first three bytes is never shown, whatever the other values are |
| `MaskerStream.SlipIffClash` | crates/shellflow-core/src/env.rs:448-476 | some line slips if and only if two prefixes of at most three bytes clash, unless a value of at most three bytes overlaps itself |
| `MaskerStream.NoClashIsSafe` | crates/shellflow-core/src/env.rs:282-297 | values without a clash, of any length, are never shown by any stream |
| `MaskerStream.SharedFirstByteLeaks` | crates/shellflow-core/src/env.rs:467-476 | two values with the same first byte always have a stream that shows one of them |
| `MaskerStream.HidesOnlyValues` | crates/shellflow-core/src/env.rs:357-425 | no byte is redacted by chance: it belongs to a value, or to a remembered or long enough beginning of one |
| `Lcs.NoneLonger` | bin/shellflow/src/diffutil.rs:111-134 | no common subsequence is longer than the recurrence says |
| `Lcs.Attained` | bin/shellflow/src/diffutil.rs:111-134 | a common subsequence of that length exists |
| `Lcs.CellIsIndex` | bin/shellflow/src/diffutil.rs:118-134 | the cell of row i, column j lies at `i * w + j` of the flat table |
| `Lcs.LcsTable` | bin/shellflow/src/diffutil.rs:118-134 | the flat table filled backwards holds that length for every pair of suffixes; too large an input gives none |
| `Lcs.DiffOps` | bin/shellflow/src/diffutil.rs:79-109 | the operations give exactly the old and the new lines; with a table no script between the two texts has fewer changes, of the lines changed between two kept ones the old ones come first, and a line that is next on both sides is kept; without one all lines are replaced |
| `Lcs.ScriptProjects` | bin/shellflow/src/diffutil.rs:79-109 | in both branches the operations project to exactly the old and the new lines |
| `Lcs.WalkHolds` | bin/shellflow/src/diffutil.rs:79-109 | the walk keeps a longest common subsequence |
| `Lcs.WalkIsMinimal` | bin/shellflow/src/diffutil.rs:79-134 | with the table, no edit script between the two texts has fewer changes |
| `Lcs.WalkInOrder` | bin/shellflow/src/diffutil.rs:90-109 | no insertion is directly followed by a deletion, and no change is made where the next lines agree |
| `Hunks.MergeSpans` | bin/shellflow/src/diffutil.rs:147-157 | the merged ranges are in bounds, in order, with a gap between them, and hold exactly the operations near a change |
| `Hunks.AroundsAreNear` | bin/shellflow/src/diffutil.rs:147-157 | the contexts of the changes are the operations at most three away from a change |
| `Hunks.NextHunk` | bin/shellflow/src/diffutil.rs:162-203 | the running counters: a header starts one past the lines before it, and counts the lines of its body |
| `Hunks.MakeHunks` | bin/shellflow/src/diffutil.rs:137-206 | the list of hunks of an operation list |
| `Hunks.PatchIsCorrect` | bin/shellflow/src/diffutil.rs:137-206 | applying all hunks where their headers say gives the new lines; a start is read as one more than the lines before the hunk, as the code writes it |
| `Hunks.PatchIsMinimal` | bin/shellflow/src/diffutil.rs:79-206 | the hunks of a minimal script mark no more lines as added and removed than any list of hunks that applies to the old lines and gives the new ones |
| `Hunks.EmptyRangeIff` | bin/shellflow/src/diffutil.rs:137-206 | a hunk has no line on a side if and only if the whole text on that side has none |
| `Hunks.FormatReadsIff` | bin/shellflow/src/diffutil.rs:202-205 | a reader of the unified format, where an empty range starts at the line before it, gets the new text if and only if nothing changed or both texts have lines |
| `Hunks.NoHunksNoChange` | bin/shellflow/src/diffutil.rs:137-145 | without a hunk the two texts have the same lines |
| `Hunks.UnifiedDiff` | bin/shellflow/src/diffutil.rs:38-68 | the diff of two texts is such a patch of their lines, cut from an edit script with three lines around each change, and within the table limit no patch between them has fewer `+` and `-` lines |
| `Heredocs.FindClosingQuote` | crates/shellflow-dsl/src/heredoc.rs:244-266 | the indexed loop finds the closing quote the lexer rule finds, never stopped by its round limit |
| `Heredocs.QuoteEnd` | crates/shellflow-dsl/src/heredoc.rs:146-165 | just past that quote, or the end of the line |
| `Heredocs.ReadTagWord` | crates/shellflow-dsl/src/heredoc.rs:196-242 | the delimiter word, its end, and whether it is literal |
| `Heredocs.ReadHeredocAt` | crates/shellflow-dsl/src/heredoc.rs:167-194 | one operator with its dash, blanks and delimiter |
| `Heredocs.ScanOpeners` | crates/shellflow-dsl/src/heredoc.rs:96-144 | the byte loop equals the recursive lexer of the next rows, in source order, with every index in bounds |
| `Heredocs.ScanReadsBack` | crates/shellflow-dsl/src/heredoc.rs:96-144 | a whole line, made of any command that the scan comes through, here-documents in any quoting style, bare delimiters with any escaped bytes among them, and a rest that is quiet or a comment with anything in it, is read back as exactly these here-documents |
| `Heredocs.CommentHides` | crates/shellflow-dsl/src/heredoc.rs:114-126 | a `#` where a word may begin hides everything behind it, operators included, whatever command the scan came through |
| `Heredocs.TerminatesIff` | crates/shellflow-dsl/src/heredoc.rs:36-48 | exactly which lines end a body: the delimiter itself, and for `<<-` the delimiter behind any number of tabs |
| `Heredocs.NoOperatorNoOpener` | crates/shellflow-dsl/src/heredoc.rs:96-144 | where no `<<` follows, nothing is opened, whatever quotes and comments there are |
| `Delimiters.PlainIsDelimiter` | crates/shellflow-dsl/src/heredoc.rs:196-242 | an unquoted word without quotes in it, with backslashes or not, is the delimiter the shell takes |
| `Delimiters.QuotedIsDelimiterIff` | crates/shellflow-dsl/src/heredoc.rs:196-242 | a word that begins with a quote is, if and only if the quote is closed, the word ends behind it, and in double quotes no backslash is removed |
| `Delimiters.PlainOpensIff` | crates/shellflow-dsl/src/heredoc.rs:167-242 | behind the operator, its dash and any blanks, a bare word without quotes opens a here-document with the delimiter the shell takes if and only if it is not empty and no `$` or backquote in it is without a backslash |
| `Delimiters.QuotedOpensIff` | crates/shellflow-dsl/src/heredoc.rs:167-242 | a quoted word opens one with the text up to the first quote that no backslash hides, if and only if that is not empty and, in double quotes, holds no `$` and no backquote |
| `Delimiters.UnclosedOpensIff` | crates/shellflow-dsl/src/heredoc.rs:167-242 | a quote that is not closed takes the rest of the line |
| `Delimiters.QuoteEndIs` | crates/shellflow-dsl/src/heredoc.rs:146-165 | a quoted part of a command is passed just behind the first quote that no backslash hides, or at the end of the line |
| `Delimiters.CutWord` | crates/shellflow-dsl/src/heredoc.rs:196-242 | `'A'B` is read as `A` |
| `Delimiters.KeptQuotes` | crates/shellflow-dsl/src/heredoc.rs:196-242 | `E"O"F` is read with its quotes, where the shell takes `EOF` |
| `Delimiters.ShiftIsOpener` | crates/shellflow-dsl/src/heredoc.rs:15-23 | a shift in an arithmetic expansion is taken for a here-document |
| `Heredocs.HeredocTracker.OpenIn` | crates/shellflow-dsl/src/heredoc.rs:75-80 | the openers of a line are queued behind those already open |
| `Heredocs.HeredocTracker.ConsumeBody` | crates/shellflow-dsl/src/heredoc.rs:82-94 | a line is body exactly when a here-document is open, and closes the first one when it terminates it |
| `Heredocs.BodiesInOrder` | crates/shellflow-dsl/src/heredoc.rs:82-94 | bodies are taken in the order of their openers, each exactly up to its own delimiter |
| `Words.SplitWords` | crates/shellflow-dsl/src/parser.rs:2355-2418 | the byte loop equals the tokenizer the next rows are about |
| `Words.SplitInvertsQuoting` | crates/shellflow-dsl/src/parser.rs:2355-2418 | any list of words, each single-quoted and set apart by blanks, splits into exactly that list |
| `Words.SplitReads` | crates/shellflow-dsl/src/parser.rs:2355-2418 | the whole notation: words of bare characters, characters behind a backslash, single-quoted and double-quoted text, in which four escapes and continued lines are taken out and other backslashes stay, split into exactly the words they stand for |
| `Words.LeftOpen` | crates/shellflow-dsl/src/parser.rs:2355-2418 | an open quote runs to the end of the payload; a last backslash is dropped outside quotes and kept inside double quotes |
| `Words.QuotedIsOneWord` | crates/shellflow-core/src/env.rs:582-589 | a quoted value is one word, whatever it holds |
| `ScannerState.State.Flush` | crates/shellflow-dsl/src/parser.rs:75-121 | the step a pending block becomes, the metadata it uses up, and the metadata an empty block leaves; ScriptIsRead says which name, guard, budget and environment that is |
| `ScannerState.State.AddCopyStep` | crates/shellflow-dsl/src/parser.rs:593-626 | a copy joins the last step when target, options, budget and environment agree, else makes a step |
| `ScannerState.State.PushAssertion` | crates/shellflow-dsl/src/parser.rs:1060-1089 | an assertion joins the last step of its target, else makes a step |
| `ScannerState.State.DeclareExport` | crates/shellflow-dsl/src/parser.rs:439-521 | exported variables wait for the open local block, or go to the local step right before |
| `ScannerState.State.ApplyDirective` | crates/shellflow-dsl/src/parser.rs:123-242 | every directive but `@export` closes the pending block first; the new state or the error |
| `ScannerState.State.TakeLine` | crates/shellflow-dsl/src/parser.rs:2618-2648 | a body line, then a directive, then content, in this order of precedence |
| `ScannerState.ParseText` | crates/shellflow-dsl/src/parser.rs:2615-2663 | the plan of a script, or its first error, an unterminated here-document included |
| `ScannerTheorems.TakenKeeps` | crates/shellflow-dsl/src/parser.rs:29-52 | every line keeps the scan invariant: a remote mode has a target, waiting exports have a runnable local block, the inherited target is the latest step's |
| `ScannerTheorems.RunKeeps` | crates/shellflow-dsl/src/parser.rs:29-52 | the invariant holds wherever a run stops |
| `ScannerTheorems.PlanIsWhole` | crates/shellflow-dsl/src/parser.rs:2649-2663 | in a plan every local and remote step runs some line, no copy or assert step is empty, every other step has its target, and no block and no export is left over |
| `ScannerTheorems.MergingIsFusing` | crates/shellflow-dsl/src/parser.rs:593-626 | a parser that merges and one that never does accept the same scripts, with the same errors, and the merged plan is the other one with each step fused into the step before it where the two agree and it has no name |
| `ScannerTheorems.FusedIsDone` | crates/shellflow-dsl/src/parser.rs:1060-1089 | in the merged plan no two neighbours can be fused any more |
| `ScannerTheorems.MergingRefines` | crates/shellflow-dsl/src/parser.rs:593-626 | so a parser that merges and one that never does have plans that do the same items in the same order with the same target, options, budget and environment |
| `PlanTheorems.ScriptIsRead` | crates/shellflow-dsl/src/parser.rs:2615-2663 | the plan or the error, read off the lines alone: the first directive at fault and what is wrong with it, else the open here-document, else the steps, where every step carries the last `@name`, `@only_if` and `@timeout` that no step had used, the `@env` entries so far, its place, its own lines or payload and the variables exported from it |
| `PlanTheorems.WaitingIff` | crates/shellflow-dsl/src/parser.rs:88-121 | what waits for the next step: a value is taken exactly when some directive set it and no later one set it anew or made a step |
| `PlanTheorems.UnterminatedIsThere` | crates/shellflow-dsl/src/parser.rs:2636-2642 | an unterminated here-document is reported with the line that opens it |
| `DirectiveLines.DirectiveIff` | crates/shellflow-dsl/src/parser.rs:2575-2603 | a line is a directive if and only if it is a `#` and an `@` keyword, with any blanks before the `#` and behind it |
| `DirectiveLines.DirectiveReads` | crates/shellflow-dsl/src/parser.rs:2575-2603 | its keyword and its payload, without the blanks around it, are read back |
| `DirectiveLines.MalformedReads` | crates/shellflow-dsl/src/parser.rs:2593-2600 | a keyword that runs on into other characters is reported with them, up to the next blank, and without a payload |
| `DirectiveLines.ExecutableIff` | crates/shellflow-dsl/src/parser.rs:75-80 | a line runs something if and only if its first character that is no blank is no `#` |
| `DirectiveLines.TargetReads` | crates/shellflow-dsl/src/parser.rs:147-161 | a target is what stands behind its `@` signs, without the blanks around it |
| `ScannerBlocks.BodiesAreData` | crates/shellflow-dsl/src/heredoc.rs:82-94 | no line inside a here-document body can add, drop or change a directive |
| `ScannerBlocks.BlocksAreKept` | crates/shellflow-dsl/src/parser.rs:88-121 | the local and remote steps are, in order, exactly the runnable blocks of the script, each content line once, with its target and the variables exported after it |
| `ScannerBlocks.BlocksPartition` | crates/shellflow-dsl/src/parser.rs:88-121 | the kept and the dropped blocks, put together in order, are exactly the content lines, and kept are exactly those that run something |
| `ScannerBlocks.PlanBlocksBalanced` | crates/shellflow-dsl/src/parser.rs:2615-2663 | no here-document crosses from one step into the next |
| `ScannerBlocks.BlockReparses` | crates/shellflow-dsl/src/parser.rs:2615-2663 | a block parses again into one local step with the same script if and only if none of its lines ends with a carriage return |
| `ScannerBlocks.ReturnsStay` | crates/shellflow-dsl/src/parser.rs:2615-2625 | two carriage returns before a line break are both removed; of three there, or two at the end of the text, one stays |
| `ScannerBlocks.ReturnsBreakBlock` | crates/shellflow-dsl/src/parser.rs:2615-2663 | for any command line, those two scripts are accepted and their block does not parse into the same script again |
| `ScannerBlocks.ReturnExample` | crates/shellflow-dsl/src/parser.rs:2615-2663 | one such script, for any reading of directives |
| `Template.SpansAreAll` | crates/shellflow-core/src/template.rs:25-62 | the spans are exactly all placeholders of the text, in order and disjoint |
| `Template.AtIff` | crates/shellflow-core/src/template.rs:44-56 | a placeholder is exactly a text `${NAME}` whose name is a letter or `_` and then letters, digits and `_` |
| `Template.Placeholders` | crates/shellflow-core/src/template.rs:37-62 | the `match_indices` loop with its cursor guard finds exactly those spans |
| `Template.TemplateKeys` | crates/shellflow-core/src/template.rs:64-78 | the keys, each once, are exactly the referenced ones |
| `Template.KeysOfHolds` | crates/shellflow-core/src/template.rs:64-78 | they are distinct, exactly the referenced ones, and in the order of their first references |
| `Template.SplicedIsRendered` | crates/shellflow-core/src/template.rs:126-138 | splicing the spans is the one-pass rendering, which never renders a rendered value |
| `Template.RenderedIs` | crates/shellflow-core/src/template.rs:126-138 | a template, taken apart into text in which no placeholder begins and placeholders, renders to this text with the values in between, and no value is read again |
| `Template.EveryTextIsWritten` | crates/shellflow-core/src/template.rs:37-62 | every text can be taken apart in this way |
| `Template.MissingComplete` | crates/shellflow-core/src/template.rs:106-124 | exactly the referenced keys without a value are missing |
| `Template.MissingFirst` | crates/shellflow-core/src/template.rs:106-124 | each comes with the offset of its first placeholder |
| `Template.RenderTemplate` | crates/shellflow-core/src/template.rs:80-138 | the rendering if and only if every referenced key has a value, else the missing keys, sorted and distinct |
| `Template.RenderIdentity` | crates/shellflow-core/src/template.rs:80-138 | nothing but placeholders is touched |
| `StatusPool.StepKeeps` | bin/shellflow/src/service_status.rs:73-94 | every step of every worker keeps each planned host in exactly one place: queued, in hand or answered |
| `StatusPool.StepIsProgress` | bin/shellflow/src/service_status.rs:78-94 | a worker that is not done can always step, and its step leaves less to do |
| `StatusPool.MovesAreBounded` | bin/shellflow/src/service_status.rs:78-94 | no schedule holds more steps than three per host and one per worker |
| `StatusPool.PoolIsBounded` | bin/shellflow/src/service_status.rs:73-79 | at any time there are as many workers as hosts or as many as allowed, and at least one |
| `StatusPool.EachHostOnce` | bin/shellflow/src/service_status.rs:73-94 | when the workers are done, every host was asked exactly once |
| `StatusPool.Report` | bin/shellflow/src/service_status.rs:96-108 | rows and failures collected and sorted |
| `StatusPool.ReportIsScheduleFree` | bin/shellflow/src/service_status.rs:73-108 | for every interleaving and every number of workers the sorted rows and failures are those of asking the hosts one by one |
| `StatusPool.ReportIsExact` | bin/shellflow/src/service_status.rs:95-108 | for every interleaving, every row is reported as often as the hosts of the plan report it and every failure as often as one of them fails with it; rows ascend by host and then unit, failures in byte order |
| `CredStore.SealFingerprint` | bin/shellflow/src/cred_env.rs:256-296 | what goes into the hasher, in order |
| `CredStore.HashedText` | bin/shellflow/src/cred_env.rs:267-296 | that text: a line `key=value` per key in the order given, an unset variable counting as empty, the host key, and a line per name in byte order |
| `CredStore.CurrentIsSound` | bin/shellflow/src/cred_env.rs:251-319 | with values without line breaks, an install is skipped only when the store was sealed from the same keys and values with the same host key |
| `CredStore.LineBreakCollides` | bin/shellflow/src/cred_env.rs:267-290 | for any two keys or more, two environments with a value for every key that differ and hash alike |
| `CredStore.CollisionIff` | bin/shellflow/src/cred_env.rs:267-296 | under one host key, different values can hash alike if and only if there are two keys or more |
| `CredStore.SkipIsSoundIff` | bin/shellflow/src/cred_env.rs:297-319 | under one host key and for values of any kind, a skip is always sound if and only if there are fewer than two keys |
| `CredStore.Disk.StoreIsCurrent` | bin/shellflow/src/cred_env.rs:304-319 | true exactly when the fingerprint matches and the file names are the keys, each once |
| `CredStore.Disk.SealAll` | bin/shellflow/src/cred_env.rs:526-559 | all keys sealed into the staging directory, or a failure that touches nothing else |
| `CredStore.Disk.Swap` | bin/shellflow/src/cred_env.rs:382-423 | the exchange, or the two renames with the way back |
| `CredStore.Disk.SealIntoStore` | bin/shellflow/src/cred_env.rs:342-423 | whatever calls fail, at every moment the complete old or new store is in place or beside it; the new one is installed exactly when sealing and swapping succeed, and a failure leaves the old one unless the restoring rename failed too |
| `CredStore.InstallsIff` | bin/shellflow/src/cred_env.rs:342-423 | exactly when an install that is not skipped takes place: every key is set and not empty and no call that it needs fails; the new store then holds every key with its value, beside what could not be removed from the staging directory |
| `CredStore.InstalledIsExact` | bin/shellflow/src/cred_env.rs:364-381 | a reported install holds just the wanted credentials if and only if the staging directory had nothing left that it does not overwrite |
| `CredStore.InstalledIsDescribed` | bin/shellflow/src/cred_env.rs:321-334 | exactly when the recorded fingerprint is one of the values sealed beside it |
| `CredStore.MisledIff` | bin/shellflow/src/cred_env.rs:321-334 | exactly when a later install of the same keys is skipped over other values, whatever the values hold |
| `CredStore.PlainMisledIff` | bin/shellflow/src/cred_env.rs:321-334 | with values without line breaks: exactly when recording fails and the fingerprint of the later values stayed in the staging directory, with no file that is not overwritten |
| `CredStore.RunKeepsDescribed` | bin/shellflow/src/cred_env.rs:342-423 | one run of SealIntoStore keeps the live fingerprint honest, whatever calls fail, if what stayed in staging does no harm |
| `CredStore.EverySkipIsSound` | bin/shellflow/src/cred_env.rs:342-423 | over any sequence of such runs, every skipped install leaves exactly the wanted credentials in place |
| `BatchScripts.Batch.AddSection` | bin/shellflow/src/rbatch.rs:97-115 | exactly this text is appended, the script stays that of the sections of all queries so far, and one more answer is expected |
| `BatchScripts.SectionPrints` | bin/shellflow/src/rbatch.rs:97-115 | the three `printf` commands of a section print the begin marker and status, the captured output, and the end marker, each on its own line |
| `BatchTheorems.SectionLines` | bin/shellflow/src/rbatch.rs:97-115 | these lines are the frame of the answer |
| `BatchFrames.MarkersRead` | bin/shellflow/src/rbatch.rs:138-148 | both markers of a frame are read back, with ids that hold blanks |
| `BatchFrames.MarkersIff` | bin/shellflow/src/rbatch.rs:138-148 | a line is read as a begin or an end marker if and only if it is one of this run: its prefix and nonce, the id, and for a begin marker a number behind the last blank |
| `BatchFrames.BeginKeepsOpen` | bin/shellflow/src/rbatch.rs:387-411 | a begin marker stores the frame that was still open, with the body lines that came |
| `BatchFrames.StrayEndIgnored` | bin/shellflow/src/rbatch.rs:387-404 | an end marker of another id changes nothing |
| `BatchFrames.AnswerReader.PushLine` | bin/shellflow/src/rbatch.rs:387-404 | what one line of the response does to the reader |
| `BatchFrames.ReadAnswers` | bin/shellflow/src/rbatch.rs:280-292 | lines are read up to the first that completes the batch, or to the end |
| `BatchFrames.CompleteFrom` | bin/shellflow/src/rbatch.rs:413-419 | the batch is complete exactly from the last end marker on, whatever other lines come before, between and behind the frames |
| `BatchFrames.RoundTrip` | bin/shellflow/src/rbatch.rs:370-426 | reading the framed output stops right behind that marker with exactly the answers sent, and reading on would change nothing |
| `BatchTheorems.BatchRoundTrip` | bin/shellflow/src/rbatch.rs:97-426 | the reader, fed with a banner and what the script of a batch prints, stops at the last line and holds, under the id of every query and no other, its exit status and its output |
| `BatchTheorems.ReadBatch` | bin/shellflow/src/rbatch.rs:280-292 | so does reading for a batch object, which counts as many answers as queries were added |
| `BatchFrames.CutFrameIsKept` | bin/shellflow/src/rbatch.rs:421-425 | a response cut inside a frame yields that frame with the body lines that came |
| `GroupedOutput.GroupedBuffer.TakeAll` | bin/shellflow/src/ui.rs:224-233 | every host's lines in first-seen order, and an empty buffer |
| `GroupedOutput.Ui.HostLine` | bin/shellflow/src/ui.rs:415-437 | a line is redacted by the masker of its own host and stream alone, then printed or buffered |
| `GroupedOutput.Ui.HostFinished` | bin/shellflow/src/ui.rs:439-452 | the host's block is printed and leaves the buffer |
| `GroupedOutput.Ui.FlushGrouped` | bin/shellflow/src/ui.rs:454-471 | every remaining block is printed |
| `GroupedOutput.Ui.SetSecretValues` | bin/shellflow/src/ui.rs:322-351 | new values drop every masker that holds the old set |
| `GroupedTheorems.GroupedKeepsStreamed` | bin/shellflow/src/ui.rs:201-234 | over any interleaving the order is duplicate-free and equals the buffered hosts, and printed plus buffered lines of a host are the streamed lines in order |
| `GroupedTheorems.FinishedIsPrinted` | bin/shellflow/src/ui.rs:439-452 | when a host has finished, its printed lines are all its streamed lines |
| `GroupedTheorems.GroupedRefinesStreamed` | bin/shellflow/src/ui.rs:252-258 | after a flush, a host and stream shows what a streaming sink shows that was fed that pair's lines alone |
| `GroupedTheorems.OneMasker` | bin/shellflow/src/ui.rs:252-258 | over any events, the pair shows the output of one masker fed its own lines, and of a new one behind every change of the values |
| `GroupedTheorems.NothingLeaks` | bin/shellflow/src/ui.rs:252-258 | grouped output shows the same, and values that do not clash stay hidden between two changes, whatever other hosts print |
| `ChangeTheorems.ChangeCosts` | bin/shellflow/src/ui.rs:322-351 | a change of the values between the two lines of a split value, even to the same values, shows the value if and only if its first fragment has fewer than four bytes |
| `GroupedTheorems.BlocksAreContiguous` | bin/shellflow/src/ui.rs:236-250 | a host that prints nothing after its end has its whole output in one piece |
| `GroupedTheorems.FlushIsFirstHeard` | bin/shellflow/src/ui.rs:224-233 | a flush prints host after host, in the order of the first line that each still had in the buffer |
| `Secrets.Env.Set` | bin/shellflow/src/secrets.rs:121-126 | the first slot of a key is overwritten, or the pair is pushed |
| `Secrets.ListReadsBack` | bin/shellflow/src/secrets.rs:131-142 | the exported list splits into the list that was joined |
| `Secrets.ResolvedSecrets.Overlay` | bin/shellflow/src/secrets.rs:106-148 | the environment edited in place for one host; other hosts' pairs leave it alone |
| `Secrets.OverlayReads` | bin/shellflow/src/secrets.rs:106-128 | the host's last value wins, other variables keep their value, and no variable moves |
| `Secrets.OverlayList` | bin/shellflow/src/secrets.rs:131-148 | the list that a host's keys join, the host's own value of the variable first, keeps what it had and gains exactly the host's keys, each once |
| `Secrets.DecryptFile` | bin/shellflow/src/secrets.rs:239-270 | the pairs of one file with the last value of a key, and the registered values |
| `Secrets.ResolveSecrets` | bin/shellflow/src/secrets.rs:169-233 | every entry against every targeted host, or the first file that cannot be read; the next rows say which files that are and what they come to |
| `ResolveTheorems.PathIsReplaced` | bin/shellflow/src/secrets.rs:200-204 | a path with placeholders between any pieces is these pieces with the alias between them |
| `ResolveTheorems.EntryReadsAre` | bin/shellflow/src/secrets.rs:198-213 | an entry with a placeholder is read once per targeted host, in host order and for that host; one without is read once, for all |
| `ResolveTheorems.ResolvedIff` | bin/shellflow/src/secrets.rs:169-233 | the run succeeds if and only if every needed file is there; otherwise the error names the first one that is not, in the order of the entries and hosts |
| `ResolveTheorems.ResolvedValue` | bin/shellflow/src/secrets.rs:106-233 | from entries, hosts and files: a targeted host's variable has the last value of its own files, else the last of the shared files; another host has the shared value |
| `ResolveTheorems.ResolvedList` | bin/shellflow/src/secrets.rs:106-233 | from entries, hosts and files: the list a targeted host gets holds exactly its own keys and the shared keys, each once, unless a file gives the list itself |
| `ResolveTheorems.ResolvedRegistry` | bin/shellflow/src/secrets.rs:239-270 | a value of a needed file is registered if and only if it is long or the last short value of some key |
| `SecretsTheorems.EffectiveValue` | bin/shellflow/src/secrets.rs:106-233 | a host's variable has the last value of the host's own files, else the last one of the shared files |
| `SecretsTheorems.ExportedList` | bin/shellflow/src/secrets.rs:222-233 | the exported list holds exactly the host's keys and the shared keys, each once; a value that a file gives the list itself stands for the shared keys |
| `SecretsTheorems.ListIsExported` | bin/shellflow/src/secrets.rs:222-233 | exactly when the list is exported, and, if no file assigns it, exactly when it is exported empty |
| `SecretsTheorems.ExportedIsRegistered` | bin/shellflow/src/secrets.rs:250-265 | an exported value is known to the masker, under any key, if and only if it is long or is the last short value that the files gave some key |
| `SecretsTheorems.SecondHostForgetsFirst` | bin/shellflow/src/secrets.rs:257-265 | two hosts with a short value of their own under one key: the first one's is not registered under any key |

## Left out

- MaskerStream.SlipIffClash: is stated for sets in which no value of at most three bytes overlaps itself, because whether such a value is redacted inside the clashing fragment depends on the rest of the line: with the values `xaaaaaa`, `xyxb`, `xyx` and `y` the line `xyxyx` slips and no fragment alone shows it. NoClashIsSafe covers every set in the safe direction, and LeakIffSlip is exact for all of them.
- MaskerStream.NoClashIsSafe: is about values without `*`; a value with one can be formed by the mask and its neighbours. It also speaks of values of the long list alone; for the short ones see ShortValues and NarrowedShows.
- MaskerStream.LeakIffSlip: takes a byte that occurs in no value, such as NUL, which no environment value holds.
- ScannerTheorems.MergingRefines: counts items, without names and line numbers; MergingIsFusing has whole steps.
- ScannerState.ParseText: takes directives as already decoded; the payload checks of each directive (ports, modes, owners, URLs, flags) are a parameter, and `@server`, `@group` and `@secrets` declarations are kept as items without their cross checks and the final check of targets against servers.
- CredStore.Disk.SealIntoStore: covers one run from a complete live store; after a crash between the two renames, a second crash can lose both trees, since the next run clears the retired one. Elevation, locks and file modes are not part of this model.
- CredStore.CurrentIsSound: takes an injective hash, plain variable names and values without line breaks; SkipIsSoundIff says exactly when the last can be dropped.
- BatchTheorems.BatchRoundTrip: takes a shell that runs the four commands of a section as `Printed` says, ids without a single quote, and answers in which no line reads as one of this run's markers; the size limit and the transport are not part of this model.
- SecretsTheorems.ExportedList: takes variable names that hold no blank, as the env-file parser checks.
- CredStore.MisledIff: is about later installs of the same list of keys.
- GroupedTheorems.NothingLeaks: promises nothing for a value whose lines lie on both sides of a change of the values; ChangeCosts says what such a change costs for a single value.
- Delimiters.PlainIsDelimiter: goes one way only: a bare word with quotes in it is read otherwise than the shell does (KeptQuotes), but that no such word can come out the same by chance is not proved.
- Hunks.UnifiedDiff: gives the lines and header numbers of each hunk; the file names and the printed header text are not part of this model. Its patch is read as PatchIsCorrect says; FormatReadsIff has the reader of the format.
- UTF-8: strings are bytes, so char-boundary checks and Unicode white space are not modelled.
- Age decryption, SHA-256 and the identity lookup: a decrypted file is a parameter, and so is the hash.
- SSH, process groups, signals, D-Bus, `systemctl` and `sudo`: effects outside the program.
- `parse_env_file`, unit-file and manifest parsing, audit and lint rules, colour and terminal writing, the command line: they would only add easy members.
- `split_flags` and the flag tables of the directives: lookups over the words that SplitWords returns.
