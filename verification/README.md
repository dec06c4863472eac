# rene renaming engine in Dafny

This project models the renaming engine of `rene/rene.py`, a command-line
tool that renames the files of a directory (optionally recursively). Given
the ordered names of a directory, the engine produces `(old, new)` rename
pairs. It selects names with a wildcard filter, builds new names from a
replacement pattern and rules, and avoids collisions with existing files
and with names already chosen. The file system, the console and
command-line parsing are not modelled.

The model is purely functional. Rule state (the Insert counters) and the
batch of new names are threaded explicitly through the per-file and
per-directory folds.

| module | models |
|---|---|
| `Wrappers` | `Option` and `Result` |
| `Text` | Python string and number primitives: `str(n)`, `'%0*d'`, `int()` for bases 2, 10 and 16, slicing, `split`/`join`, `find`, ASCII `upper`/`lower`, `replace`, `&` on bits |
| `Increment` | `nextName`, the increment primitive |
| `ExtSplit` | `greedyext`, the root/extension splitter |
| `Params` | `scanint`, `parmList`, `bitmapChars`, `prepRule`, the rule defaults and the rule-argument loop |
| `Pattern` | the regex elements a filter compiles to, Python's backtracking `re.match` on them, and a declarative meaning (`Fits`) |
| `FilterCompile` | the native filter compile, as written and corrected, and the selection half of `native` |
| `Replacement` | tokenising the replacement, the last consumer, the rule variables, `-O` order completion, the whole native compile |
| `Synth` | the synthesis half of `native`: floaters, the token walk, and the Slice, Bump and Insert rules |
| `Avoid` | `avoid`, collision avoidance, and the scheme normalisation |
| `Batch` | `procDir`'s decisions: substitution mode `-S`, the native proposal, the collision policy, the batch of new names |
| `Traverse` | `procTree`: pre-order recursion with depth limit, directory list, per-directory reload of Insert rules |
| `FilterExamples`, `SynthExamples`, `AvoidExamples`, `BatchExamples`, `TraverseExamples` | input/output vectors from `rene/renet.py` and from the source's comments |

Python exceptions are modelled explicitly:

- When compilation raises, the result is `CompileError.Crash`.
- When processing a file raises, the result is `Outcome.Fault`, `Resolution.Fault`, `Decision.Raise` or `DirResult.Crashed`.

The file system enters only as parameters:

- `Batch.Env` holds the set of existing names, a same-file test and the `-F` exclusion test.
- `Traverse.Tree` holds the directory tree.
- `Traverse.Recursion` holds the `-R` settings, with the glob test as a name predicate.

## Model

| member | source | states |
|---|---|---|
| Text.Decimal | rene/rene.py:365 | `'%d'` of a natural number: non-empty, all digits, no leading zero unless it is 0, one digit exactly below 10 |
| Text.ValueOfDecimal | rene/rene.py:346-347 | reading back the digits `str(n)` writes gives n |
| Text.ValueOfAppend | rene/rene.py:346 | the value of concatenated digit strings is the place-value combination of the parts |
| Text.FormatIntRoundTrip | rene/rene.py:347 | `'%0*d'` of a natural number is all digits, reads back as the number, and is exactly max(width, its decimal length) long |
| Text.FormatIntUnsigned | rene/rene.py:588 | `'%0*d'` of a natural number is zeros up to the width followed by the decimal digits |
| Text.PyIntDigits | rene/rene.py:268 | `int()` of a run of decimal digits is the number they denote |
| Text.PyIntNegDigits | rene/rene.py:273 | `int()` of a minus sign followed by digits is the negated number |
| Text.PyIntSignedDecimal | rene/rene.py:513 | `int()` reads back what `'%d'` writes, sign included |
| Text.LexLessStrictTotal | rene/rene.py:509 | Python's string `<` is asymmetric and total on distinct strings |
| Text.PySlice | rene/rene.py:563 | Python slicing never lengthens, and within bounds is the plain subsequence |
| Text.Split | rene/rene.py:505 | `split` yields at least one part and no part contains the separator |
| Text.Find | rene/rene.py:1098 | `find` returns the first occurrence at or after i, or None exactly when there is none |
| Text.JoinSplit | rene/rene.py:385 | joining the parts of `split` gives back the string, and there is one part more than separators |
| Text.SplitJoinParts | rene/rene.py:1194 | splitting a join of separator-free parts gives back the parts |
| Text.ConcatAppend | rene/rene.py:544 | `"".join` distributes over list concatenation |
| Increment.TrailingDigits | rene/rene.py:343 | the length of the maximal trailing digit run: all digits, and the character before it is not a digit |
| Increment.StepLetter | rene/rene.py:348-362 | a trailing letter moves by step mod 26 in its own case. A carry (forward) or borrow (backward) appends a letter instead of propagating. Everything before the letter is kept |
| Increment.AppendStepReadsBack | rene/rene.py:364-365 | with no digit or letter at the end, what is appended reads back through `int()` as the step |
| Increment.NextNameDigits | rene/rene.py:342-347 | a trailing number of `s[offset:]` becomes its value plus step, zero-padded to at least its old width. Everything to its left is unchanged |
| Increment.NextName | rene/rene.py:341-365 | `nextName` on a non-empty name with an offset inside it never shortens the name and never touches its first offset characters |
| Increment.FormatIntOfDigits | rene/rene.py:347 | a digit string formatted at its own width gives itself back (a zero step rewrites nothing) |
| Increment.NextNameDigitsInverse | rene/rene.py:342-347 | stepping a number by -n after +n restores the name when the number did not widen |
| Increment.NextNameLetterInverse | rene/rene.py:348-362 | stepping a letter by -n after +n (0 < n < 26, no carry) restores the name |
| Increment.NextNameLetterExamples | rene/renet.py:483-505 | Z+1=AA, z+1=aa, A-1=ZZ, my1ABC+10=my1ABM, my1ABZ+10=my1ABAJ, F-10=ZV, L-10=B |
| Increment.NextNameNumberExample | rene/rene.py:342-347 | "01"+997 is "998" |
| Increment.NextNameWidensExample | rene/renet.py:485 | "999"+1 is "1000": the number widens |
| Increment.NextNameOffsetExample | rene/renet.py:702 | "his-010"+1 with offset 6 is "his-011" |
| Increment.NextNameAppendExample | rene/renet.py:490 | "{}"+1 is "{}1" |
| ExtSplit.SkipDots | rene/rene.py:303 | the position after the leading dots of the root pattern `\.*` |
| ExtSplit.SkipNonDots | rene/rene.py:303 | the position after the maximal non-dot run `[^.]+` |
| ExtSplit.GreedyExt | rene/rene.py:303-309 | The root is empty exactly when the name is all dots, and then so is the extension. Otherwise the root is leading dots plus a non-dot run, the extension is empty or a dot plus at least one character, and root+ext is the name, or the name minus one lone trailing dot |
| ExtSplit.GreedyExtOfParts | rene/rene.py:303-309 | a root followed by an extension splits back into exactly those two parts |
| ExtSplit.GreedyExtIdempotent | rene/rene.py:303-309 | splitting root+extension again gives the same parts |
| ExtSplit.GreedyExtExamples | rene/rene.py:297-299 | name.tar.gzip gives (name, .tar.gzip), and .bashx gives (.bashx, "") |
| ExtSplit.GreedyExtDotsExamples | rene/rene.py:305-306 | "..." gives ("", ""), and "a." drops the lone trailing dot |
| Params.ScanInt | rene/rene.py:264-273 | the empty string scans as 0, a decimal numeral without a leading 0 scans as its value, and a '-' before one negates it |
| Params.ScanIntSignedDecimal | rene/rene.py:264-273 | `scanint` reads back any int written in decimal |
| Params.ScanIntNegative | rene/rene.py:266-273 | a leading '-' negates the value |
| Params.ScanIntZero | rene/rene.py:267-272 | "0" scans as 0 (through the binary branch) |
| Params.ScanIntHexExample | rene/rene.py:269-270 | 0x1F scans as 31 |
| Params.ScanIntBinaryExamples | rene/rene.py:271-272 | a leading 0 means binary: 0101 is 5, and 09 is not a number |
| Params.ScanIntNegativeHexExample | rene/rene.py:264-273 | -0x10 scans as -16 |
| Params.NonEmpty | rene/rene.py:279 | the kept parts are non-empty parts of the input |
| Params.ParmList | rene/rene.py:278-279 | no part holds '/', and no part is empty unless empty parts are allowed |
| Params.ParmListText | rene/rene.py:278-279 | whichever parts are kept, they spell the parameter minus its '/' separators |
| Params.BitmapChars | rene/rene.py:289-294 | the bitmap has no bit at or beyond the pattern's length |
| Params.BitmapCharsBits | rene/rene.py:289-294 | bit k is set exactly when the k-th pattern character occurs in the string |
| Params.Defaults | rene/rene.py:239-253 | S has 3 default fields, B has 2 and I has 5 |
| Params.ConvertField | rene/rene.py:397-400 | A lone '-' crashes (`v[1]` out of range). A field that starts with a digit, or '-' and a digit, becomes the number `scanint` reads, or a bad rule number where `int()` raises. Any other field stays a string |
| Params.FieldsFrom | rene/rene.py:392-400 | On success, one field per default, in order. A field given non-empty in the argument is its conversion, and a missing or empty one is the default |
| Params.FieldsFromFails | rene/rene.py:392-400 | the fields fail exactly when some given field fails to convert, and then with that field's error |
| Params.PrepRuleFields | rene/rene.py:384-412 | a parsed rule holds exactly the fields its argument converts to (for I, the first three; the mode becomes a bitmap) |
| Params.PrepRule | rene/rene.py:384-412 | A parsed rule has the argument's kind and serves the given variable. An I rule's bitmap uses only the E and R bits, and a non-zero mode copies the start to reload |
| Params.InsertModeBits | rene/rene.py:408-409 | bit 0 of an I rule's bitmap is set iff the mode holds E, and bit 1 iff it holds R |
| Params.ConvertRendered | rene/rene.py:398-400 | a field written back as text converts to itself |
| Params.PrepRuleRender | rene/rene.py:384-412 | writing a rule as an argument and parsing it for its own variable gives the rule back |
| Params.PrepRuleDefaultsExample | rene/rene.py:240 | "S" alone is Slice 2/2/0 |
| Params.PrepRuleBlankFieldExample | rene/rene.py:395-396 | in "B//1" the empty field keeps its default, and the later field still counts |
| Params.PrepRuleErrorExamples | rene/rene.py:386-391 | "Sx/1" is bad syntax, "I/a" does not serve '?', and the field "-" crashes |
| Params.RulesFrom | rene/rene.py:1281-1297 | on success, one rule per argument in order, each with the argument's letter and serving the variable at its position |
| Params.CompileRules | rene/rene.py:1281-1304 | on success, exactly one rule per rule variable, in order |
| Params.CompileRulesRender | rene/rene.py:1281-1304 | rendered rules compile back to themselves against their own variables |
| Pattern.MatchSound | rene/rene.py:498 | whatever the matcher returns is a fit: the captures and the literals spell the name |
| Pattern.MatchComplete | rene/rene.py:498 | whenever some fit exists, the matcher succeeds |
| Pattern.MatchIffFits | rene/rene.py:498 | a pattern matches exactly when some capture assignment fits it |
| Pattern.FitsCount | rene/rene.py:520 | a fit has one text per capturing element |
| Pattern.MatchCount | rene/rene.py:520 | the match yields one group per capturing element |
| Pattern.LazyTakesShortest | rene/rene.py:1169 | a leading lazy group takes text no longer than in any other fit |
| Pattern.GreedyTakesLongest | rene/rene.py:1199 | a leading `{m,n}` or `([^.]*)` group takes text no shorter than in any other fit |
| Pattern.NoDotPrefix | rene/rene.py:1158 | the dot-free group admits exactly the prefixes up to the first dot |
| FilterCompile.FirstIllegal | rene/rene.py:316-321 | the first illegal character's position, or None exactly when there is none |
| FilterCompile.RangeRuleDashes | rene/rene.py:1213-1228 | a semantic rule without exactly one '-' is unrecognised, one starting with '-' crashes on `rang[0][0]`, and a string range splits the rule at its '-' |
| FilterCompile.RangeRuleNumeric | rene/rene.py:1218-1223 | `#lo-hi` is the numeric range lo..hi when both are integers, and an incorrect numeric range otherwise |
| FilterCompile.RangeRuleLex | rene/rene.py:1224-1225 | `first-last` without a leading '#' is the string range first..last |
| FilterCompile.ClauseWidths | rene/rene.py:1195-1208 | an empty clause is width 1, a lone number m is width exactly m (0 meaning any, lazily), and a clause always gives a capturing group |
| FilterCompile.ClauseSpan | rene/rene.py:1198-1199 | `m,n` of two numbers is width m to n with no semantic rule |
| FilterCompile.CharStepElem | rene/rene.py:1164-1232 | '*' becomes a lazy group, '?' a width group, and any other character a literal of itself |
| FilterCompile.StepsShape | rene/rene.py:1164-1232 | each filter character's step has that character's element, and only a '?' carries a semantic rule |
| FilterCompile.StepsClauses | rene/rene.py:1172-1208 | the q-th '?' takes the q-th extension clause, or the default single character once the clauses are used up |
| FilterCompile.AssembleGroups | rene/rene.py:1229 | each recorded semantic rule comes from its own '?', tagged with the start tag plus the number of groups before it |
| FilterCompile.Body | rene/rene.py:1156-1161 | the base minus a trailing `*.` or lone '.' is a prefix of the base |
| FilterCompile.CompileFilterFrom | rene/rene.py:1098-1234 | the compile succeeds only when every check passes (clause count, illegal characters, `**`, non-empty base), and after the checks it fails only on a bad clause or a repeat count `re` rejects |
| FilterCompile.CompileFilterRefusals | rene/rene.py:1098-1160 | the checks refuse in the source's order, each with its own error: too many clauses, an illegal filter character (the first), an illegal replacement character (the first), `**`, then an empty base |
| FilterCompile.AssembleShift | rene/rene.py:1164-1230 | starting the group counter d higher moves every recorded group by d and changes nothing else |
| FilterCompile.CompileFilterTagShift | rene/rene.py:1156-1234 | the starting group tag changes only the groups the semantic rules record: the same refusals, the same pattern, maxFloat and dot-name flag |
| FilterCompile.CompileFilter | rene/rene.py:1098-1234 | The compile as written accepts and refuses exactly what the corrected one does, with the same errors. It builds the same pattern, but after a trailing `*.` every rule records the group one past its own |
| FilterCompile.CompileFilterIntended | rene/rene.py:1098-1234 | the corrected compile has a non-empty base, names only groups the pattern has, and records each clause's rule for its own '?' |
| FilterCompile.CompileFilterFromOk | rene/rene.py:1098-1234 | when every check passes, the compile is the assembled steps of the body plus the trailing group |
| FilterCompile.CompileFilterParts | rene/rene.py:1098-1234 | a successful compile has a non-empty base and is built from the steps of its body |
| FilterCompile.CompileFilterShape | rene/rene.py:1136-1234 | A compiled filter spells its body character by character and ends in `([^.]*)` iff the filter ends in `*.`. It refuses dot names iff the filter starts with `*.`, and has maxFloat+1 groups, one per '*' and '?' plus the trailing one |
| FilterCompile.CompileFilterRules | rene/rene.py:1193-1230 | the semantic rules are exactly those of the clauses, each recorded for the group counter at its '?' |
| FilterCompile.CompileFilterWellFormed | rene/rene.py:1229 | in both compiles, every recorded group number names a group the pattern has |
| FilterCompile.RulesPassAll | rene/rene.py:501-517 | the rule loop passes from rule j on exactly when every later rule's test holds on the group it names, whatever the test |
| FilterCompile.SemsPassAll | rene/rene.py:501-517 | the semantic check passes iff every rule holds on the root of the group it names |
| FilterCompile.Select | rene/rene.py:498-517 | A name is selected iff it matches and is not a refused dot name and every semantic rule holds. The groups returned are the match's groups and fit the pattern |
| FilterCompile.SelectOfMatch | rene/rene.py:501-517 | once the pattern has matched a name that is not refused, the semantic rules alone decide |
| FilterCompile.SelectNeedsFit | rene/rene.py:498-500 | a name that no capture assignment spells is never selected |
| FilterExamples.RangeNumericExample | rene/rene.py:1213-1220 | "#1-5" is the numeric range 1..5 |
| FilterExamples.ClauseNumericExample | rene/rene.py:1197-1220 | "1,#1-5" is width exactly 1 with the numeric range 1..5 |
| FilterExamples.ShiftedMatch | rene/rene.py:498 | `(.{1})([^.]*)` matches 3abc as 3 and abc |
| FilterExamples.ShiftedGroupCounterexample | rene/rene.py:1156-1159 | filter `?*./1,#1-5`: as written the rule lands on group 2 and 3abc is refused; corrected it lands on group 1 and 3abc is selected |
| Replacement.NextVar | rene/rene.py:1259 | the first variable at or after i, with no variable before it |
| Replacement.TokensSpell | rene/rene.py:1259 | the tokens from i spell exactly the replacement text from i |
| Replacement.TokensCanonical | rene/rene.py:1259 | the tokens have `re.split`'s shape: non-empty literals, never two side by side |
| Replacement.TokeniseSpell | rene/rene.py:1259 | tokenising the spelling of a canonical token list gives the list back |
| Replacement.Tokenise | rene/rene.py:1259 | the tokens of a replacement spell it exactly and are canonical |
| Replacement.MaxConsumer | rene/rene.py:1264-1267 | the index of the last '?', '/' or '*' token, or None when there is none |
| Replacement.RuleVarsFrom | rene/rene.py:1273 | one rule variable per '?' or ':' token |
| Replacement.RuleVarsIndex | rene/rene.py:1273 | the rule token at k is rule variable number (rule tokens before k) |
| Replacement.TooLarge | rene/rene.py:1244-1247 | the first -O index above maxFloat, or None exactly when all are in range |
| Replacement.Fill | rene/rene.py:1248-1255 | the completion only appends, and only indices in range that are not yet listed |
| Replacement.CompleteOrder | rene/rene.py:1243-1255 | Fails iff some index exceeds maxFloat, naming one such index. Otherwise it keeps the given order as a prefix and appends only absent, in-range indices |
| Replacement.FillComplete | rene/rene.py:1249-1255 | the completion loop keeps its invariant to the end of the range |
| Replacement.CompleteOrderPermutation | rene/rene.py:1243-1255 | with distinct in-range indices, the completed order is a permutation of 0..maxFloat |
| Replacement.CompleteOrderDuplicateExample | rene/rene.py:1248-1255 | with a repeated index, [0,0,0] of three floaters completes to [0,0,0,1] and index 2 is lost |
| Replacement.CompileNativeFrom | rene/rene.py:1243-1304 | Filter errors pass through. On success, the tokens spell the replacement, the -O order is completed from the given prefix, the maximal consumer is recorded, and there is one rule per rule variable serving it |
| Replacement.CompileNative | rene/rene.py:1095-1304 | the compile as written succeeds and fails exactly when the corrected one does, with the same error, and differs only in the filter |
| Replacement.NativeFromReady | rene/rene.py:1243-1304 | after a well-formed filter, the rest of the compile gives a ready setup |
| Replacement.CompileNativeReady | rene/rene.py:1095-1304 | Both native compiles, as written and corrected, give a ready setup on success: a well-formed filter, one floater per group, and one rule per rule variable of the right kind |
| Synth.PyIndex | rene/rene.py:522 | Python list indexing, negatives from the end; None exactly on IndexError |
| Synth.Pick | rene/rene.py:522 | one floater per -O index, each the group that index names; None iff some index is out of range |
| Synth.FloatersCover | rene/rene.py:519-522 | an order that names every group in range leaves no group out of the floaters |
| Synth.SliceText | rene/rene.py:559-567 | Slice fails exactly when a bound is a string |
| Synth.SliceEnds | rene/rene.py:560-563 | mode 0 within bounds gives the first lead and the last trail characters, with no warning |
| Synth.SliceZeroTrail | rene/rene.py:563 | mode 0 with trail 0 appends the whole floater (`src[-0:]`) |
| Synth.SliceInfix | rene/rene.py:564-567 | any other mode cuts one piece out of the floater, exactly `src[lead:trail]` when it does not warn |
| Synth.BumpTotal | rene/rene.py:573-584 | with numeric fields, Bump fails exactly on a floater made only of dots |
| Synth.BumpText | rene/rene.py:573-584 | a string mode raises (`mode & bsel`), and whatever Bump emits ends with the floater's greedyext extension |
| Synth.Place | rene/rene.py:594-598 | E mode appends the inserted text. Otherwise the text goes right after the root of the name so far: what is before it is kept, and what follows is a prefix of the rest of the name |
| Synth.InsertText | rene/rene.py:586-593 | Insert changes only its rule's start, which keeps its kind (int or string) |
| Synth.InsertCounts | rene/rene.py:587-589 | a numeric Insert emits its start zero-padded to the width, which reads back as the start, and moves on by step |
| Synth.ApplyRule | rene/rene.py:559-600 | running a rule moves the rule cursor by one, takes no floater, and only advances Insert starts |
| Synth.AdvancedTrans | rene/rene.py:586-598 | the rules-advanced relation composes across files |
| Synth.SourceFacts | rene/rene.py:541-546 | A consumer with a floater left receives at least that floater. Only the last consumer receives more, and the others raise exactly when the floaters are used up. Given only the last floater, even the last consumer receives just that one |
| Synth.StepToken | rene/rene.py:532-600 | one token takes at most one floater, moves the rule cursor by at most one, and only advances Insert starts |
| Synth.StepTokenLiteral | rene/rene.py:533-535 | a literal token appends its text and changes nothing else |
| Synth.WalkTo | rene/rene.py:529-600 | after k tokens neither the floater index nor the rule cursor exceeds k, and the rules have only advanced |
| Synth.Synthesize | rene/rene.py:497-601 | a name is rejected exactly when the selection refuses it |
| Synth.StepAccount | rene/rene.py:532-600 | one token keeps the walk in step with the counts of consumers and rules run |
| Synth.WalkAccount | rene/rene.py:532-600 | Each consumer takes one floater until they run out. The rule cursor moves once per rule that ran, so a '?' that gets no floater or an empty one does not move it |
| Synth.RulesRunBound | rene/rene.py:551-600 | rules run never outnumber rule tokens |
| Synth.CursorInRange | rene/rene.py:559 | with one rule per rule variable, the cursor is in range at every rule token |
| Synth.SynthesizeAdvances | rene/rene.py:586-598 | applying a ready setup changes no rule except the start of an Insert, which keeps its kind |
| Synth.WalkWithoutRules | rene/rene.py:529-552 | Without '?' and ':' the walk cannot fail and builds the reference text. Literals come out verbatim and in order, each '*' gives its floater, the last consumer gives all the rest, and '/' and exhausted consumers give nothing |
| Synth.CopiesSoFar | rene/rene.py:541-549 | before the last '*', the first k floaters have been copied in order |
| Synth.CopiesKeepFloaters | rene/rene.py:541-549 | a replacement of only '*'s gives every floater, in order, however many '*'s there are |
| SynthExamples.TokeniseCopies | rene/rene.py:1259-1267 | `*A**B` tokenises to five tokens with the last consumer at index 3 |
| SynthExamples.CopiesExample | rene/renet.py:316-317 | floaters 49, 5, -001 through `*A**B` give 49A5-001B |
| SynthExamples.SliceShortExample | rene/renet.py:361-363 | S/3/6/0 on 08493357 warns and gives 084493357 |
| SynthExamples.SliceExactExample | rene/renet.py:378-379 | S/3/5/0 on 08493357 gives the floater unchanged, without a warning |
| SynthExamples.SlicePythonicExamples | rene/renet.py:388-404 | S/4/9/1 warns and S/4/8/1 does not; both give 3357 |
| SynthExamples.SliceBackwardsExample | rene/renet.py:415-417 | S/4/3/1 warns and gives nothing |
| Avoid.Normalise | rene/rene.py:1085 | merge moves a root-suffix collision string to the suffix position and changes nothing else |
| Avoid.Search | rene/rene.py:450-477 | At most 11 - i candidates, all ending with the extension, and every one before the last taken. A resolved name is the last candidate and is free. Unresolved means every round was used and the last was taken |
| Avoid.Avoid | rene/rene.py:422-477 | At most 11 candidates, the first being the proposal's root (with the collision string) plus its extension. Every candidate keeps the extension, a resolved name is free in batch and disk, and unresolved means all 11 were taken |
| Avoid.SearchStops | rene/rene.py:453-458 | a free candidate, or the last round, ends the search there without a fault |
| Avoid.SearchGoesOn | rene/rene.py:459-473 | a taken candidate with a next root hands over to the next round |
| Avoid.NextRoot | rene/rene.py:459-472 | The next root fails (Python raises) exactly on an empty root past round 0 or under merge, or when a digit-final root leaves nothing after the remembered length. It never shortens the root. Round 0 appends the start string and remembers the root's length, and later rounds keep the remembered part |
| Avoid.NextRootGrows | rene/rene.py:468-472 | without merge and with a start string, every next root exists and is longer than the remembered length |
| Avoid.NextRootKeepsRoot | rene/rene.py:468-472 | without merge, the next root extends the original root and remembers its length |
| Avoid.SearchNoFault | rene/rene.py:463-472 | without merge and with a start string, the search never raises |
| Avoid.SearchKeepsRoot | rene/rene.py:463-472 | without merge, every candidate begins with the original root: only what the start string added is stepped |
| Avoid.SearchMergeNoFault | rene/rene.py:461-462 | with merge, the search fails only when it has to step an empty root |
| Avoid.AvoidFaults | rene/rene.py:422-477 | avoid raises only on a merge from an empty root or on an empty start string. With a start string and no merge, every candidate begins with the proposal's root |
| AvoidExamples.AppendOnceExample | rene/renet.py:687-689 | his-01.png taken: the candidates are his-01.png and his-010.png, which is taken |
| AvoidExamples.AppendTwiceExample | rene/renet.py:701-703 | his-01.png and his-010.png taken: the search goes on to his-011.png |
| AvoidExamples.AppendLetterExample | rene/renet.py:792-794 | with start string A, his-01.png becomes his-01A.png |
| AvoidExamples.BatchCollisionExample | rene/rene.py:454 | a name already in the batch counts as taken, like one on disk |
| Batch.SubstOne | rene/rene.py:678-684 | U leaves no lower-case letter and L no upper-case one. A two-character operation leaves no occurrence of its first character, unless it maps that character to itself. Anything else changes nothing |
| Batch.Subst | rene/rene.py:677-684 | operations that are neither a case change nor two characters leave the name unchanged |
| Batch.SubstLastCase | rene/rene.py:677-684 | the last operation decides: after a final U no letter is lower case, after a final L none is upper case, and after a final replacement its first character is gone |
| Batch.CaseForgets | rene/rene.py:678-681 | case changes forget the earlier case, and each is idempotent |
| Batch.ReplaceCharPointwise | rene/rene.py:683-684 | replacing a by b rewrites exactly the positions that held a |
| Batch.ReplaceCharWithOther | rene/rene.py:683-684 | after replacing a by another character, a no longer occurs |
| Batch.ReplaceCharDeletes | rene/rene.py:683-684 | a doubled character deletes every occurrence of it and nothing else (as a multiset) |
| Batch.ReplaceCharAppend | rene/rene.py:683 | replacement works on each part of a name separately |
| Batch.SubstAppend | rene/rene.py:677-684 | the operations compose left to right |
| Batch.Propose | rene/rene.py:670-692 | Excluded names are skipped. `-S` proposes the substituted name. Native skips a rejected name, fails when the synthesiser raises, and proposes exactly the non-empty synthesized names |
| Batch.Decide | rene/rene.py:698-722 | Unchanged iff the proposal is the old name. Collide iff it hits an existing other file under stop or continue. A taken name is non-empty, not in the batch and not another existing file, and the proposal itself is taken iff it is new, non-empty and free |
| Batch.FileStep | rene/rene.py:690-727 | a file ends the directory only by halting or crashing, and otherwise adds at most one pair to the batch |
| Batch.Loop | rene/rene.py:661-727 | the loop only appends to the batch, at most one pair per remaining file |
| Batch.ProcDir | rene/rene.py:652-727 | a directory renames at most as many files as it lists, and an empty one renames nothing and keeps the rules |
| Batch.TakeAccepted | rene/rene.py:710-727 | a taken name is acceptable for the directory |
| Batch.FileStepSafe | rene/rene.py:698-727 | one file keeps the batch's new names distinct and acceptable, and its old names a subsequence of the listing |
| Batch.LoopSafe | rene/rene.py:661-727 | the loop keeps the batch's new names distinct and acceptable, and halts only under the stop policy |
| Batch.ProcDirSafe | rene/rene.py:652-727 | A finished directory's pairs have distinct new names, each non-empty and not another existing file. Their old names are a subsequence of the listing, and the directory halts only under the stop policy |
| BatchExamples.LowerDashExample | rene/renet.py:1204-1206 | -SL/_- turns My_Test_File into my-test-file |
| BatchExamples.DeleteExample | rene/renet.py:1216-1217 | -S/__/ turns My_Test_File into MyTestFile |
| BatchExamples.PolicyExample | rene/rene.py:710-714 | a collision with an existing file halts the directory under stop, and under continue skips the file and goes on |
| BatchExamples.DefaultAvoidExample | rene/renet.py:687-689 | my-01.png proposed as his-01.png, which exists, is renamed his-010.png |
| Traverse.Reload | rene/rene.py:810-812 | every R-flagged Insert stands at its reload value afterwards, and every other rule is kept |
| Traverse.ReloadRestarts | rene/rene.py:810-812 | Reloading puts every R-flagged Insert at its reload value and keeps all other rules and fields. It is idempotent, and changes nothing on rules already fresh |
| Traverse.Visits | rene/rene.py:813-835 | the reference pre-order starts at the directory and stays within the depth limit |
| Traverse.TreeOrder | rene/rene.py:804-837 | the walk visits a prefix of the reference pre-order, and all of it when it completes |
| Traverse.ChildrenOrder | rene/rene.py:819-835 | the subdirectory loop visits a prefix of the subdirectories' pre-orders, and all of them when it completes |
| Traverse.ProcTree | rene/rene.py:804-837 | the walk from a directory visits it first, with the reloaded rules and procDir's result for them. A walk that stops or dies ends on the directory that halted or raised |
| Traverse.Children | rene/rene.py:819-835 | the subdirectory loop only appends visits, a loop that visits nothing hands the rules on unchanged, and one that stops or dies ends on the directory that did |
| Traverse.Recurse | rene/rene.py:804-837 | the walk from the starting directory visits it first with the reloaded initial rules, and ends on the directory that halted or raised when it does not complete |
| Traverse.RecurseStops | rene/rene.py:804-837 | a walk stops only under the stop policy |
| Traverse.TreeThreads | rene/rene.py:810-813 | each directory starts from the rules the previous one finished with, reloaded |
| Traverse.ChildrenThreads | rene/rene.py:830-835 | the subdirectory loop keeps the rules threaded from directory to directory |
| Traverse.RecurseSummary | rene/rene.py:804-837 | The walk visits the reference pre-order, all of it with every directory finished when it completes. It stops only under the stop policy, and threads the reloaded rules from directory to directory |
| TraverseExamples.UnlimitedExample | rene/renet.py:1262-1286 | -R visits recurse, X_New, X_New/X_New, X_New/X_Old, X_Old, X_Old/X_New, X_Old/X_Old |
| TraverseExamples.DepthOneExample | rene/renet.py:1290-1301 | -R1 visits recurse, X_New, X_Old |
| TraverseExamples.ExcludeExample | rene/renet.py:1305-1316 | -R/X_Old/ visits recurse, X_New, X_New/X_New |
| TraverseExamples.IncludeExample | rene/renet.py:1320-1331 | -R+/X_Old/ visits recurse, X_Old, X_Old/X_Old |
| TraverseExamples.IncludeDepthOneExample | rene/renet.py:1335-1343 | -R1/+/X_Old/ visits recurse, X_Old |

## Left out

- Command-line parsing and help text (rene/rene.py:897-1082): the collision scheme, the depth, the directory list, the `-O` order, the fold flag and the rule arguments are plain parameters.
- Regex mode `-E` (rene/rene.py:685-688, 1092-1093): it hands arbitrary regexes to Python's `re`, which is not modelled.
- `fnmatch` tests for `-F` and the `-R` directory list: they are abstract name predicates (`Env.excluded`, `Recursion.listed`).
- Directory listing and sorting (`getdir`), `os.stat` classification and the `renePat` self-protection: the names a directory is given are the ones that reach the loop, in listing order.
- `os.path.exists` and `os.path.samefile` are the `disk` set and the `same` predicate of `Batch.Env`.
- `os.rename`, the `reneAct`/`reneActr` files, undo (`-U`), the Y/N prompt, `chdir` and `agnosticDir`: the model stops at the rename pairs.
- Printed diagnostics: the Slice warning is a flag in the outcome, and the other messages (collision traces, skips) are not modelled.
- Unicode: names are ASCII without newlines. `isalpha`, `isdigit`, `upper`, `lower` and regex `.` are their ASCII meanings.
- FilterCompile.CompileFilter: requires `LiteralSafe`, i.e. no regex metacharacters among the filter's literal characters. The source copies them into the regex unescaped (rene/rene.py:1232), and their regex meaning is not modelled.
- Increment.NextName: requires a non-empty name and an offset before its end. On an empty name Python raises IndexError (`str[-1]`). With a digit at the end and an offset at or past the end, `re.search` on the empty rest fails and `nextName` returns None; with a letter or punctuation at the end the offset is ignored. The callers reproduce this: `Avoid.NextRoot` returns None where `avoid`'s concatenation with None raises, and passes offset 0 where the offset would be ignored. Bump and Insert fail on an empty root or start.
- Params.ScanInt: requires the string not to be "-" alone. `prepRule` never passes it one, because its number test needs a digit after the '-'.
- Traverse.Recurse: requires a positive depth. With depth 0 the source calls `procDir` once without reloading (rene/rene.py:1309-1310), which is `Batch.ProcDir` itself.
- The `re.compile` limits on repeat counts are modelled as a crash at and above 2^32 - 1, not at the build's exact MAXREPEAT.
- The walk keeps the source's rule cursor behaviour: a '?' that gets no floater or an empty floater does not move the cursor, so later rules shift. This is reproduced as written, not corrected.

## Findings

| source | as written | input that shows it | evidently intended | confidence | as-written member | corrected member |
|---|---|---|---|---|---|---|
| rene/rene.py:1229 | When the filter ends in `*.`, maxFloat starts at 0 (rene/rene.py:1159), and each semantic rule is recorded for group maxFloat + 1. That is the group after its own '?' | filter `?*./1,#1-5` with name `3abc`: the range is checked against `abc` and the name is refused | the rule applies to its own '?' group (`3`), and the name is selected | not executed | FilterCompile.CompileFilter, FilterExamples.ShiftedGroupCounterexample | FilterCompile.CompileFilterIntended, FilterCompile.CompileFilterRules, FilterCompile.CompileFilterWellFormed |

The rest of the model takes a compiled setup as a parameter (`Replacement.Compiled`). It works for `Replacement.CompileNative` (as written) and for `Replacement.CompileNativeIntended` (corrected) alike, and `Replacement.CompileNativeReady` proves both ready.
