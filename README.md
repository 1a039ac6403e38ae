# FossLicenses license normalisation, modelled in Dafny

This project models the license-identifier normalisation core of the
`FossLicenses` class of foss-licenses (`python/flame/license_db.py`):

- the tables built from the parsed license files (`__init_license_db`): licenses,
  aliases, scancode keys, compatibility entries, with the duplicate-alias error;
- the lookup `__identify_license` and the queries on it: `license`,
  `__compatibility_as`, `aliases_list` and `compatibility_as_list`;
- the token rewriter `__update_license_expression_helper`: needles in descending
  string order, the boundary pattern `( |\(|^|\)|\|)NEEDLE( |$|\)|\||&)` (with
  `[a-zA-Z]` as a further trailing alternative when letters are allowed), what
  `re.search` and `re.sub` do with it, one identification per matching needle,
  and the final whitespace clean-up;
- the pipelines `expression_license` (alias, scancode and operator passes, then
  the expression parser) and `expression_compatibility_as` (a further pass over
  the compatibility table, then the optional SPDX or relaxed validation);
- the relaxed validator `__validate_license_relaxed`: a substring split on `AND`,
  `OR`, `WITH` and a no-space check on every stripped piece.

Modules follow the program's parts:

- `Common`: result wrappers, the identification record, the raised errors.
- `Text`: Python whitespace, `re.sub(r'\s\s*', ' ', s).strip()`, substring.
- `Order`: Python string order, and the descending key order of the rewriter.
- `Pattern`: the boundary pattern, leftmost search and non-overlapping substitution.
- `Rewriter`: the rewrite helper.
- `LicenseDb`: table building and lookups.
- `Validation`: the relaxed validator.
- `Pipeline`: the two public pipelines.

The database tables are values: `__init_license_db` fills them once, in a loop,
and nothing changes them afterwards. So the loader is a method
(`InitLicenseDb`) that returns the tables or the error it raises. It is proved
equal to a fold over the parsed records (`Load`).

The loops of the source are methods proved equal to specification functions:

- `InitLicenseDb` is proved equal to `Load`;
- `UpdateLicenseExpression` to `Rewrite`;
- `ExpressionLicense` to `ExpressionLicenseSpec`;
- `ExpressionCompatibilityAs` to `ExpressionCompatibilityAsSpec`;
- `ValidateLicenseRelaxed` to `RelaxedCheck`.

The properties are proved as lemmas about those functions.

Two external calls are parameters of the pipelines:

- the expression parser's `str(parse(...))`, which may fail;
- the SPDX validator's error list.

Behaviour of the code that is easy to misread (the model follows the code):

- The rewriter tries needles in descending string order (`reversed(sorted(...))`),
  not in descending length. It still tries every needle before any of its own
  proper prefixes (`Order.PrefixVisitedLater`).
- Letters are an extra boundary only after a needle, never before one.
  Only ASCII letters count, and digits do not.
  `&` is a trailing boundary but not a leading one.
- A second pass with the same table is not always free of events. A needle
  that survives into its own replacement can be identified again on a later
  pass (`Rewriter.RewriteRepeatsEvents`).
- `aliases_list(alias_license)` keeps the aliases whose license id *contains*
  the filter (`alias_license in v`). Its docstring says it returns the aliases
  *beginning with* the filter, which would be a prefix test on the alias names.
  The code instead tests whether the alias's license id contains it.
- The relaxed split is on the bare substrings `AND`, `OR`, `WITH`; they need not
  be separate words.

## Model

| member | source | states |
|---|---|---|
| Text.Squeeze | python/flame/license_db.py:135 | `re.sub(r'\s\s*', ' ', s)` leaves a single-spaced text, empty exactly when the input is, starting with whitespace exactly when the input does (its words: `Text.WordsSqueeze`) |
| Text.DropSpaces | python/flame/license_db.py:135 | removing leading whitespace leaves a text that is empty or starts with a non-whitespace character, and is no longer than the input |
| Text.StripRight | python/flame/license_db.py:135 | removing trailing whitespace leaves a text that is empty or ends with a non-whitespace character, and is no longer than the input |
| Text.DropSpacesSuffix | python/flame/license_db.py:135 | removing leading whitespace leaves a suffix of the text |
| Text.StripRightPrefix | python/flame/license_db.py:135 | removing trailing whitespace leaves a prefix of the text |
| Text.Strip | python/flame/license_db.py:316 | `str.strip()` leaves no whitespace at either end |
| Text.DropSpacesRemovesSpaces | python/flame/license_db.py:135 | what the left half of the strip removes is whitespace |
| Text.StripRightRemovesSpaces | python/flame/license_db.py:135 | what the right half of the strip removes is whitespace |
| Text.StripRemovesOnlyEnds | python/flame/license_db.py:316 | `str.strip()` removes whitespace at the two ends and nothing else: the input is whitespace, then the result, then whitespace |
| Text.Collapse | python/flame/license_db.py:135 | the clean-up leaves no whitespace at either end, only plain spaces, and never two whitespace characters in a row (where the spaces go: `Text.CollapseIsJoinedWords`) |
| Text.Words | python/flame/license_db.py:135 | a text starting with a non-whitespace character has at least one word |
| Text.WordsDropSpaces | python/flame/license_db.py:135 | leading whitespace belongs to no word |
| Text.WordsSnocSpace | python/flame/license_db.py:135 | a whitespace character at the end belongs to no word |
| Text.WordsStripRight | python/flame/license_db.py:135 | trailing whitespace belongs to no word |
| Text.WordsSqueeze | python/flame/license_db.py:135 | replacing each whitespace run by one space keeps the words, in order |
| Text.CollapseKeepsWords | python/flame/license_db.py:135 | the clean-up keeps the words (maximal runs of non-whitespace), in order |
| Text.NormalIsJoinedWords | python/flame/license_db.py:135 | a normal text is its words joined by single spaces |
| Text.CollapseIsJoinedWords | python/flame/license_db.py:135 | the clean-up's result is exactly the words of the input joined by single spaces |
| Text.CollapseFixpoint | python/flame/license_db.py:135 | the clean-up returns its input exactly when the input is already normal |
| Text.CollapseIdempotent | python/flame/license_db.py:284 | cleaning up twice is the same as once |
| Text.CollapseKeepsText | python/flame/license_db.py:135 | the clean-up keeps every non-whitespace character, in order |
| Text.SqueezeSingleSpaced | python/flame/license_db.py:135 | squeezing a single-spaced text changes nothing |
| Order.StrLtIrreflexive | python/flame/license_db.py:118 | no string sorts before itself |
| Order.StrLtTransitive | python/flame/license_db.py:118 | the string order is transitive |
| Order.StrLtTotal | python/flame/license_db.py:118 | any two distinct strings are ordered one way or the other |
| Order.StrLtAsymmetric | python/flame/license_db.py:118 | the string order is asymmetric |
| Order.ProperPrefixLess | python/flame/license_db.py:118 | a proper prefix sorts before the string |
| Order.MaxKey | python/flame/license_db.py:118 | a non-empty key set has a largest key |
| Order.DescKeys | python/flame/license_db.py:118 | `reversed(sorted(keys))` lists exactly the keys, once each, strictly descending |
| Order.PrefixVisitedLater | python/flame/license_db.py:118 | in that order every needle comes before each of its proper prefixes |
| Pattern.TrailAt | python/flame/license_db.py:120-123 | the trailing group's capture lies inside the text |
| Pattern.TrailAtCases | python/flame/license_db.py:120-123 | the trailing group captures `t` at `q` exactly when `TrailAt` yields `t` (at most one capture can succeed) |
| Pattern.BodyAtCases | python/flame/license_db.py:120-123 | needle and trailing group match at `i` exactly when `BodyAt` yields that capture |
| Pattern.IsMatchCases | python/flame/license_db.py:120-123 | a match at `p` is `^` and the body at 0, or a leading character and the body after it |
| Pattern.MatchAt | python/flame/license_db.py:120-123 | a match found at `p` ends inside the text |
| Pattern.MatchAtFirst | python/flame/license_db.py:120-123 | what the engine finds at `p` is a match, nothing is found only when nothing matches, and the leading alternatives are preferred in the order space, `(`, `^`, `)`, `\|` |
| Pattern.Search | python/flame/license_db.py:126 | the search result lies between the start position and the end of the text |
| Pattern.SearchLeftmost | python/flame/license_db.py:126 | `re.search` finds the leftmost matching position, and nothing only when no position matches |
| Pattern.OccursIff | python/flame/license_db.py:126 | the search succeeds exactly when the pattern matches at some position |
| Pattern.SubFromNoMatch | python/flame/license_db.py:133 | with no match from `p` on, substitution copies the rest of the text |
| Pattern.SubWithoutOccurrence | python/flame/license_db.py:133 | without an occurrence `re.sub` returns the text unchanged |
| Pattern.SubFromSkip | python/flame/license_db.py:133 | proof helper: where nothing matches, substitution copies one character and moves on |
| Pattern.SubFromReplace | python/flame/license_db.py:133 | proof helper: a match is rendered as `\1 replacement\2` and scanning resumes after it, so its trailing boundary is consumed |
| Pattern.SubFromFirstMatch | python/flame/license_db.py:133 | substitution keeps the text before the leftmost match, renders the match, and continues after it |
| Rewriter.NeedleOrder | python/flame/license_db.py:118 | the needles are tried in strictly descending order, all taken from the table |
| Rewriter.Rewrite | python/flame/license_db.py:116-137 | the helper's text is normal |
| Rewriter.UpdateLicenseExpression | python/flame/license_db.py:116-137 | the loop's result is the needle-by-needle sweep followed by the clean-up, and its text is normal |
| Rewriter.StepCases | python/flame/license_db.py:126-133 | proof helper: the loop body's replace branch and its skip branch are the two cases of one step |
| Rewriter.SweepAdvance | python/flame/license_db.py:118-133 | proof helper: after one more needle, the loop's text and identifications still agree with the sweep |
| Rewriter.SweepAppend | python/flame/license_db.py:118-133 | sweeping `a + b` sweeps `a`, then `b` from where `a` left off, concatenating the events |
| Rewriter.SweepIdentificationsFromTable | python/flame/license_db.py:126-132 | every event names a needle of the order, with its table value and the pass's tag |
| Rewriter.SweepIdentificationsDescending | python/flame/license_db.py:118-132 | the events' needles are strictly descending, so no needle is reported twice |
| Rewriter.SweepWithoutOccurrence | python/flame/license_db.py:126 | when no needle occurs the sweep changes nothing and records nothing |
| Rewriter.SweepIdentifiesExactlyTheOccurring | python/flame/license_db.py:118-133 | needle `order[k]` is reported exactly when its pattern occurs in the text as it stands at its turn |
| Rewriter.RewriteWithoutOccurrence | python/flame/license_db.py:126-136 | when no needle of the table occurs (an empty table in particular), the result is the cleaned-up input and no events |
| Rewriter.RewriteIdentifications | python/flame/license_db.py:118-136 | the events carry the table value and tag, come in descending needle order, and name exactly the needles whose pattern occurs at their turn |
| Rewriter.RewriteFirstNeedle | python/flame/license_db.py:118-126 | the largest needle is reported exactly when its pattern occurs in the input itself |
| Rewriter.RewriteRepeatsEvents | python/flame/license_db.py:126-135 | a second pass with the same table can report a needle again |
| LicenseDb.InitLicenseDb | python/flame/license_db.py:66-92 | the loader's loops build exactly the tables of the fold over the records, or raise its error |
| LicenseDb.AliasFoldSucceeds | python/flame/license_db.py:77-81 | the alias loop succeeds exactly when no declared alias is already present or declared twice |
| LicenseDb.AliasFoldTable | python/flame/license_db.py:77-81 | a successful alias loop maps each declared alias to its declarer, keeps earlier entries and adds nothing else |
| LicenseDb.AliasFoldFailure | python/flame/license_db.py:78-79 | a failing alias loop reports the first clash: the alias, its new declarer and the one already stored |
| LicenseDb.AliasFoldAppend | python/flame/license_db.py:77-81 | the alias loop over `a + b` is the loop over `a` continued over `b` |
| LicenseDb.LoadAliases | python/flame/license_db.py:73-81 | the file loop fills the alias table as one alias loop over all files' declarations |
| LicenseDb.AllDeclarationsOf | python/flame/license_db.py:73-77 | the declarations are exactly the (alias, id) pairs of the files |
| LicenseDb.LoadSucceedsIff | python/flame/license_db.py:73-81 | loading succeeds exactly when no alias is declared twice |
| LicenseDb.LoadFailure | python/flame/license_db.py:77-79 | a failed load reports a duplicate alias, with both of its real declarers |
| LicenseDb.LoadDeclaredAliases | python/flame/license_db.py:73-81 | after a load every declared alias maps to its file's id |
| LicenseDb.LoadOnlyDeclaredAliases | python/flame/license_db.py:73-81 | after a load every alias in the table was declared by some file |
| LicenseDb.LoadAliasTable | python/flame/license_db.py:77-81 | after a load every declared alias maps to its file's id, and every alias was declared |
| LicenseDb.LoadScancodes | python/flame/license_db.py:73-83 | the file loop fills the scancode table as one scancode-key fold over the files |
| LicenseDb.ScancodeFoldAt | python/flame/license_db.py:82-83 | after the fold a key is present exactly when it was before or some file declares it; the last file that declares it wins, and an undeclared key keeps its earlier entry |
| LicenseDb.LoadScancodeTable | python/flame/license_db.py:66-92 | after a load the scancode table holds exactly the declared keys, each mapped to the id of the last file that declares it |
| LicenseDb.AddRecordValid | python/flame/license_db.py:76-85 | one file iteration keeps the tables consistent |
| LicenseDb.LoadFromValid | python/flame/license_db.py:73-85 | the file loop keeps the tables consistent |
| LicenseDb.LoadValid | python/flame/license_db.py:66-92 | loaded tables store each license under its id, and every alias, scancode key and compatibility entry refers to a stored license |
| LicenseDb.AddRecordNewId | python/flame/license_db.py:76-85 | a file with a new id is stored, appended to the license order, and keeps the compatibility table consistent |
| LicenseDb.NewIdsTail | python/flame/license_db.py:73-76 | after a file with a new id the remaining files still have new ids |
| LicenseDb.LoadFromStores | python/flame/license_db.py:73-76 | with new, distinct ids every file is stored under its id and earlier licenses are kept |
| LicenseDb.LoadFromOrder | python/flame/license_db.py:73-76 | with new, distinct ids the license order grows by the files' ids in order |
| LicenseDb.LoadFromCompats | python/flame/license_db.py:76-85 | with new, distinct ids the compatibility table stays consistent with the records |
| LicenseDb.LoadDistinctIds | python/flame/license_db.py:66-92 | with distinct ids every file is stored, in file order, and the compatibility table agrees with the records |
| LicenseDb.SharedIdLeavesStaleCompat | python/flame/license_db.py:76-85 | when two files share an id, the earlier file's compatibility entry survives its replacement |
| LicenseDb.Identify | python/flame/license_db.py:94-114 | lookup resolves with priority licenses, operators, aliases, scancode keys, raises exactly when the name is in none of them, and returns the queried name |
| LicenseDb.IdentifyYieldsLicense | python/flame/license_db.py:94-114 | on loaded tables every non-operator resolution is a stored license id |
| LicenseDb.IdentifyStable | python/flame/license_db.py:94-114 | resolving the result of a non-operator resolution finds it directly |
| LicenseDb.License | python/flame/license_db.py:189-206 | `license` reports an operator as such, else the record of the resolved id; it raises what the lookup raises, and after a successful lookup only the missing-record error for the resolved id |
| LicenseDb.LicenseOnValid | python/flame/license_db.py:189-206 | on loaded tables `license` fails exactly for unknown names and returns the record of the resolved id |
| LicenseDb.CompatibilityAs | python/flame/license_db.py:253-272 | the record's `compatibility_as`, tagged `compatibility_as`, when it has one, else the resolved id tagged `direct` |
| LicenseDb.CompatibilityAsAgreesWithCompats | python/flame/license_db.py:253-263 | with a consistent compatibility table the result is that table's entry, or the id itself |
| LicenseDb.AliasesList | python/flame/license_db.py:229-238 | all aliases without a filter, else exactly the aliases whose id contains the filter |
| LicenseDb.AliasesListKeepsOwnAliases | python/flame/license_db.py:235-236 | filtering by an id keeps every alias of that id |
| LicenseDb.CompatEntries | python/flame/license_db.py:227 | the entries are exactly the (compatibility_as, id) pairs of the listed licenses that have one |
| LicenseDb.CompatibilityAsList | python/flame/license_db.py:224-227 | one entry for each stored license with a `compatibility_as`, and no other |
| LicenseDb.CompatEntriesDistinct | python/flame/license_db.py:227 | over distinct ids no license appears in two entries |
| LicenseDb.CompatibilityAsListDistinct | python/flame/license_db.py:224-227 | on loaded tables no license appears twice in the list |
| LicenseDb.CompatEntriesOrdered | python/flame/license_db.py:227 | the entries follow the order of the listed ids |
| LicenseDb.CompatibilityAsListInLicenseOrder | python/flame/license_db.py:224-227 | on loaded tables the entries follow the insertion order of the licenses; with membership and uniqueness this fixes the list |
| Validation.OperatorAt | python/flame/license_db.py:313-314 | the split pattern matches `AND`, `OR` or `WITH` at `p`, or none of them occurs there |
| Validation.PiecesFrom | python/flame/license_db.py:314 | the split yields at least one piece |
| Validation.PiecesFromSeparators | python/flame/license_db.py:314 | from any point the pieces and the separators interleave back to the rest of the text |
| Validation.SeparatorsFromAreOperators | python/flame/license_db.py:313-314 | every separator the split removes is `AND`, `OR` or `WITH` |
| Validation.SplitReconstructs | python/flame/license_db.py:313-314 | there is one more piece than separators, every separator is `AND`, `OR` or `WITH`, and together they give back the expression |
| Validation.SplitOperatorFree | python/flame/license_db.py:314 | no piece contains an operator |
| Validation.NoOperatorNoSplit | python/flame/license_db.py:314 | an operator-free text is not split |
| Validation.CheckPiecesFirst | python/flame/license_db.py:315-318 | the check passes when every piece is one word, and otherwise raises on the first piece that is not |
| Validation.StripIdempotent | python/flame/license_db.py:316-317 | stripping a stripped piece changes nothing |
| Validation.ValidateLicenseRelaxed | python/flame/license_db.py:310-318 | the loop with its early raise decides as the check over the split pieces |
| Validation.RelaxedCheckIff | python/flame/license_db.py:310-318 | relaxed validation passes exactly when every stripped piece is one word, and otherwise names the first piece that is not |
| Validation.OperatorFreeExpression | python/flame/license_db.py:310-318 | an operator-free expression fails exactly when it is more than one word |
| Pipeline.ExpressionLicense | python/flame/license_db.py:139-172 | the three helper calls and the parser give the alias, scancode and operator passes, then the parse |
| Pipeline.PassBlocksInOrder | python/flame/license_db.py:148-164 | events drawn from the alias, scancode and operator tables, concatenated, are in pass order |
| Pipeline.PassesInOrder | python/flame/license_db.py:148-164 | all alias events come before all scancode events, which come before all operator events |
| Pipeline.ParseStepResult | python/flame/license_db.py:166-172 | proof helper: the result fails exactly when the parser fails, and otherwise reports the input, the parse and the events |
| Pipeline.ExpressionLicenseResult | python/flame/license_db.py:148-172 | `expression_license` fails only when the parser does; `queried_license` is the input, `identified_license` the parse, and the events are exactly those of the three rewrite passes, in pass order |
| Pipeline.ExpressionLicenseUntouched | python/flame/license_db.py:150-166 | a normal expression in which nothing matches reaches the parser unchanged and with no events |
| Pipeline.ExpressionCompatibilityAs | python/flame/license_db.py:274-299 | the source's sequence of calls and early raises computes `expression_compatibility_as` |
| Pipeline.SecondCollapseIsNoOp | python/flame/license_db.py:284 | the second clean-up of the compatibility pass changes nothing |
| Pipeline.CompatStageResult | python/flame/license_db.py:281-299 | a successful compatibility stage reports the input, the result of `expression_license`, table events and a normal compat expression |
| Pipeline.ExpressionCompatibilityAsResult | python/flame/license_db.py:279-299 | a successful `expression_compatibility_as` reports the input, the `expression_license` result and its license, table events and the compatibility pass's normal expression |
| Pipeline.ValidatedFailures | python/flame/license_db.py:288-318 | no validation cannot fail; SPDX validation raises the validator's non-empty error list; relaxed validation raises a multi-word error |
| Pipeline.CompatStagePrecedence | python/flame/license_db.py:288-291 | with SPDX validation requested the relaxed flag does not change the compatibility stage |
| Pipeline.SpdxValidationTakesPrecedence | python/flame/license_db.py:288-291 | with SPDX validation requested the relaxed flag does not change `expression_compatibility_as` |
| Pipeline.CompatStageFailures | python/flame/license_db.py:288-291 | the compatibility stage fails only through the one validator requested |
| Pipeline.ValidationFailures | python/flame/license_db.py:288-291 | once `expression_license` succeeds, `expression_compatibility_as` fails only through the one validator requested, SPDX first |

The definitions below model source lines but have no `ensures` of their own.
Their properties are stated by the lemmas named beside them. The members that
appear in neither list are proof helpers, or predicates used to state the
lemmas.

- `Text.IsSpace` (python/flame/license_db.py:135, 316): the characters Python's
  `\s` and `str.isspace` treat as whitespace. Used by every `Text` row above.
- `Text.Words`, `Text.JoinWords` (python/flame/license_db.py:135): the words of a
  text, and words joined by single spaces. See `Text.CollapseKeepsWords` and
  `Text.CollapseIsJoinedWords`.
- `Order.StrLt` (python/flame/license_db.py:118): Python's `<` on strings, which
  `sorted` uses. See the `Order.StrLt*` rows, `Order.ProperPrefixLess` and
  `Order.DescKeys`.
- `Pattern.IsLeadChar`, `Pattern.IsTrailChar`, `Pattern.IsAsciiLetter`,
  `Pattern.AtEnd`, `Pattern.LeadOk`, `Pattern.TrailOk`, `Pattern.NeedleAt`,
  `Pattern.IsMatch` (python/flame/license_db.py:120, 123): the pieces of the
  boundary pattern and a match of the whole pattern. See `Pattern.TrailAtCases`,
  `Pattern.BodyAtCases`, `Pattern.IsMatchCases` and `Pattern.MatchAtFirst`.
- `Pattern.Occurs` (python/flame/license_db.py:126): the `re.search` test. See
  `Pattern.OccursIff`.
- `Pattern.Render` (python/flame/license_db.py:133): the replacement template
  `\1 replacement\2`. See `Pattern.SubFromReplace` and `Pattern.SubFromFirstMatch`.
- `Pattern.SubFrom`, `Pattern.Sub` (python/flame/license_db.py:133): `re.sub` with
  the boundary pattern. See `Pattern.SubFromNoMatch`,
  `Pattern.SubWithoutOccurrence` and `Pattern.SubFromFirstMatch`.
- `Rewriter.Step`, `Rewriter.Sweep` (python/flame/license_db.py:118-133): one
  needle's turn and the loop over all needles. See `Rewriter.SweepAppend`,
  `Rewriter.SweepIdentificationsFromTable`, `Rewriter.SweepIdentificationsDescending`
  and `Rewriter.SweepIdentifiesExactlyTheOccurring`.
- `LicenseDb.Empty` (python/flame/license_db.py:67-71): the tables before the
  first file. See `LicenseDb.LoadValid`.
- `LicenseDb.Declarations`, `LicenseDb.AllDeclarations`
  (python/flame/license_db.py:73-77): the (alias, id) pairs of one file and of
  all files. See `LicenseDb.AllDeclarationsOf` and `LicenseDb.LoadAliases`.
- `LicenseDb.ScancodeFold` (python/flame/license_db.py:82-83): the scancode-key
  writes of the file loop. See `LicenseDb.LoadScancodes`,
  `LicenseDb.ScancodeFoldAt` and `LicenseDb.LoadScancodeTable`.
- `LicenseDb.AliasFold`, `LicenseDb.AddRecord`, `LicenseDb.LoadFrom`,
  `LicenseDb.Load` (python/flame/license_db.py:66-92): the alias loop, one file
  iteration, the file loop and the whole loader. See the `LicenseDb.AliasFold*`,
  `LicenseDb.Load*` and `LicenseDb.AddRecord*` rows.
- `Validation.Split`, `Validation.Separators` (python/flame/license_db.py:313-314):
  `re.split` on the operators, and what it removes. See
  `Validation.SplitReconstructs`, `Validation.SplitOperatorFree` and
  `Validation.NoOperatorNoSplit`.
- `Text.IsSubstring`, `Text.OccursAt` (python/flame/license_db.py:236): Python's
  `q in v` on strings. See `LicenseDb.AliasesList` and
  `LicenseDb.AliasesListKeepsOwnAliases`.
- `Validation.SeparatorsFrom` (python/flame/license_db.py:314): the operators the
  split removes. See `Validation.SeparatorsFromAreOperators` and
  `Validation.PiecesFromSeparators`.
- `Validation.MultiWord` (python/flame/license_db.py:316-317): `" " in lic.strip()`.
  See `Validation.CheckPiecesFirst`, `Validation.RelaxedCheckIff` and
  `Validation.OperatorFreeExpression`.
- `Validation.CheckPieces`, `Validation.RelaxedCheck`
  (python/flame/license_db.py:315-318): the loop over the pieces with its early
  raise. See `Validation.CheckPiecesFirst` and `Validation.RelaxedCheckIff`.
- `Pipeline.RewritePasses` (python/flame/license_db.py:148-164): the alias,
  scancode and operator passes with their tables, tags and letter flags. See
  `Pipeline.PassesInOrder` and `Pipeline.ExpressionLicenseUntouched`.
- `Pipeline.ParseStep` (python/flame/license_db.py:166-172): the parser call and
  the result. See `Pipeline.ParseStepResult`.
- `Pipeline.ExpressionLicenseSpec` (python/flame/license_db.py:139-172): see
  `Pipeline.ExpressionLicenseResult`, `Pipeline.PassesInOrder` and
  `Pipeline.ExpressionLicenseUntouched`.
- `Pipeline.SpdxCheck`, `Pipeline.ValidationOf`, `Pipeline.Validated`
  (python/flame/license_db.py:288-308): the validation step. See
  `Pipeline.ValidatedFailures` and `Pipeline.CompatStagePrecedence`.
- `Pipeline.CompatStage`, `Pipeline.AfterLicense`,
  `Pipeline.ExpressionCompatibilityAsSpec` (python/flame/license_db.py:274-299):
  see `Pipeline.CompatStageResult`, `Pipeline.ExpressionCompatibilityAsResult`,
  `Pipeline.SpdxValidationTakesPrecedence` and `Pipeline.ValidationFailures`.

## Left out

- File handling is not modelled: globbing the license directory, reading JSON,
  loading the `.LICENSE` texts and the `FileNotFoundError` (lines 36-64, 73-75).
  The loader starts from the parsed records, in the order the glob yields
  them, and from the operator table.
- The JSON schema check and its global cache (lines 45-51) are not modelled.
- Logging is not modelled.
- The `license_expression` library is a parameter.
  - `parse` becomes a function that either yields the string of the parsed
    expression or fails.
  - `validate` becomes a function that yields its list of errors.
  - `get_spdx_licensing` is not modelled.
- The `isinstance` check of `expression_license` (line 145) is not modelled: the
  Dafny parameter is a string.
- The `__OBSOLETE__` methods (lines 208-222) are dead code and are not modelled.
- `licenses`, `license_complete`, `aliases(name)` and `operators` (lines
  174-187, 240-251) are not modelled. They are direct reads of the tables, or a
  lookup followed by a table read, and are not part of the modelled core.
- The replacement text is inserted literally. `re.sub` would also expand
  backslash escapes and group references inside a table value. The model
  assumes they are absent from the table values.
- The order of keys in a dict is kept only for `licenses`, as `licenseOrder`,
  because `compatibility_as_list` follows it. `aliases_list` returns a map,
  without the dict's order.
- The error messages raised are not modelled. The model keeps, for each raise
  site, a constructor of `FlameError` carrying the values the message is built
  from.
- A dict lookup that raises `KeyError` is modelled as `FlameError.MissingLicense`.
  This is `licenses[identified_name]`. In `__compatibility_as` it raises when the
  name resolved through the operator table to something that is not a license.
  In `license` an operator resolution returns before the lookup (lines 197-201),
  so the lookup at line 205 can fail only on tables a load cannot produce
  (`LicenseDb.LicenseOnValid`).
- LicenseDb.LoadDistinctIds: requires that no two files share an id. With a shared
  id the later record replaces the earlier, but the earlier record's
  compatibility entry stays behind (`LicenseDb.SharedIdLeavesStaleCompat`).
- LicenseDb.CompatibilityAsAgreesWithCompats: requires the compatibility table to be
  consistent with the records. `LoadDistinctIds` shows this holds when ids are distinct.
- LicenseDb.IdentifyYieldsLicense: covers the non-operator resolutions only. An
  operator resolves to the operator table's value, which need not be a license.
