# Creative Commons legal tools: language codes, deed strings and branch status

This project is a Dafny model of two parts of the Creative Commons legal
tools application, the Django site that publishes the licenses, their deeds
and their translations.

**The i18n utilities (`i18n/utils.py`)**
- map a Django language code to the legacy codes that redirect to it;
- turn legacy and Transifex codes into Django codes, and back;
- find a jurisdiction's default language and a jurisdiction's display name;
- derive the `.mo` path of a saved `.po` file;
- choose the Deeds & UX languages that are "mostly translated".

**The behaviour the view tests pin down (`legal_tools/tests/test_views.py`)**
- the table of deed strings, each with the condition under which a deed page shows it;
- the enumeration of the license units;
- the translation-branch status summary;
- the helpers that pick the language a deed or a legal code is served in.

## Modules

- `Common`: `Option` and `Result`, plus the settings the code reads:
  - `LANGUAGE_CODE`;
  - `TRANSLATION_THRESHOLD`;
  - `LANGUAGES_MOSTLY_TRANSLATED`;
  - `OFFICIAL_GIT_BRANCH`.
- `Text`: the Python string operations the code uses, for ASCII text:
  - `lower`, `upper` and `title`;
  - `split` and `join`;
  - `endswith`;
  - character `replace`.
- `Ordering`: code-point order on strings and `sorted(set(xs))` as a strictly sorted list. It also models `list.remove`.
- `I18nUtils`: the functions of `i18n/utils.py`.
  - The redirect list is a specification function (`RedirectCodes`) together with the method that runs the source's loops (`MapDjangoToRedirects`).
  - `load_deeds_ux_translations` is a method whose loop is proved against set-valued specification functions.
- `DeedStrings`: `strings_to_lambdas` as a table from string keys to named conditions, and the split into expected and unexpected strings.
- `Units`: the `range(8)` loop that builds the list of units, and its specification.
- `BranchStatus`: `branch_status_helper` as the branch tests state it.
- `ViewHelpers`: the view helpers the tests call.
  - `views.py` is not part of this model, so these helpers are specification functions that satisfy every assertion of the tests.

## Model

| member | source | states |
|---|---|---|
| I18nUtils.MapDjangoToRedirects | i18n/utils.py:206-248 | The loops return exactly `RedirectCodes`. The lower-case assertion becomes a `Failure` naming the offending code. |
| I18nUtils.RedirectCodes | i18n/utils.py:206-248 | A failure names a processed code that is not lower-case. A success is strictly sorted and never holds the code. |
| I18nUtils.RedirectCodesMeaning | i18n/utils.py:206-248 | The list fails exactly when a processed code (a legacy code or the code itself) is not lower-case. Otherwise it is strictly sorted and never holds the code. It holds exactly the other variants (the code, its upper-case form, and the upper- and title-cased separator variants) of the processed codes. |
| I18nUtils.FirstNotLowercaseMeaning | i18n/utils.py:220-222 | The code the assertion stops at is a processed code that is not lower-case. None is found exactly when all processed codes are lower-case. |
| I18nUtils.CandidatesAreVariants | i18n/utils.py:220-245 | The appended list holds exactly the variants of the processed codes. |
| I18nUtils.RedirectsContainUppercase | i18n/utils.py:223-224 | The upper-case code is among the redirects whenever it differs from the code. |
| I18nUtils.RedirectsContainSeparatorVariants | i18n/utils.py:225-245 | For each separator `-`, `@`, `_` in a processed code, its upper-cased-tail and title-cased-tail variants are redirects, unless equal to the code. |
| I18nUtils.AppendSeparatorVariants | i18n/utils.py:225-245 | The separator loop appends exactly the separator variants, in separator order. |
| I18nUtils.AppendSeparatorVariant | i18n/utils.py:226-245 | One separator adds the two variants when it occurs in the code, and nothing otherwise. |
| I18nUtils.AppendVariants | i18n/utils.py:223-245 | One pass of the outer loop appends the code, its upper-case form, then its separator variants. |
| I18nUtils.ProcessedPrefixStep | i18n/utils.py:220-224 | Processing one more code extends the candidates by its variants. It makes that code the first failure exactly when it is not lower-case. |
| I18nUtils.FirstNotLowercaseExtends | i18n/utils.py:220-222 | Once a failing code is met, later codes do not change which code is reported. |
| I18nUtils.VariantsLowerToCode | i18n/utils.py:223-245 | Every variant of a lower-case code lower-cases back to that code. |
| I18nUtils.SeparatorVariantsLower | i18n/utils.py:225-245 | The upper- and title-cased separator variants of a lower-case code lower-case back to it. |
| I18nUtils.LowerFiltered | i18n/utils.py:263-267 | The comprehension holds exactly the lower-cased redirects that differ from the code. |
| I18nUtils.RedirectCodesLowercase | i18n/utils.py:251-269 | It fails exactly when the redirect list fails. Otherwise it is strictly sorted, lower-case, and never holds the code. |
| I18nUtils.LowercaseRedirectsAreLegacyCodes | i18n/utils.py:251-269 | The lower-case redirects are exactly the legacy codes listed for the code, other than the code itself. |
| I18nUtils.LowercaseRedirectsEmptyWithoutEntry | i18n/utils.py:251-269 | A lower-case code without a table entry has no lower-case redirects (the list "may be empty"). |
| I18nUtils.DjangoToTransifex | i18n/utils.py:272-286 | The result is the table's special case when there is one, and the code unchanged otherwise. |
| I18nUtils.NormalizeLegacy | i18n/utils.py:299-304 | Lower-casing and replacing `@` and `_` by `-` maps each character independently and keeps the length. |
| I18nUtils.LegacyToDjango | i18n/utils.py:289-310 | The result is the table entry for the normalised code. Without an entry, it is the normalised code itself, which is lower-case with no `@` or `_`. |
| I18nUtils.NormalizeLegacyIdentifies | i18n/utils.py:299-310 | Two codes normalise alike exactly when, position by position, their characters are equal, the same letter in another case, or both among `-`, `@`, `_`. Such codes map to the same Django code. |
| I18nUtils.FoldCharIdentifies | i18n/utils.py:301-304 | Lower-casing and turning `@` and `_` into `-` identifies exactly the characters that are equal, the same letter in another case, or both separators. |
| I18nUtils.NormalizeLegacyIdempotent | i18n/utils.py:299-304 | Normalising a normalised code changes nothing. |
| I18nUtils.DefaultLanguageForJurisdiction | i18n/utils.py:313-320 | The result is the jurisdiction's configured language, else the given default, else `LANGUAGE_CODE`. |
| I18nUtils.JurisdictionKey | i18n/utils.py:326-334 | The key looked up is the jurisdiction code or one of "=p10", "=l40", "=l30", "<=l25". CC0 and the Mark always use "=p10". Any other tool with a jurisdiction code uses that code. |
| I18nUtils.JurisdictionName | i18n/utils.py:323-338 | An unknown key gives "UNDEFINED". Any other result is a configured name. |
| I18nUtils.PublicDomainJurisdictionName | i18n/utils.py:326-327 | CC0 and the Public Domain Mark are always named by "=p10". |
| I18nUtils.UnportedLicenseJurisdictionName | i18n/utils.py:328-334 | Unported licenses are named by "=l40", "=l30" or "<=l25" according to their version. |
| I18nUtils.PortedJurisdictionName | i18n/utils.py:326-336 | Everything else is named by its own jurisdiction code. |
| I18nUtils.MoFilePath | i18n/utils.py:132-137 | A path ending in `.po` gets `.mo` in its place, with the rest unchanged. Any other path is unchanged. |
| I18nUtils.MoFilePathIdempotent | i18n/utils.py:135 | Rewriting twice is rewriting once. |
| I18nUtils.SavedPaths | i18n/utils.py:132-137 | The pair returned is the `.po` path and its `.mo` counterpart: a trailing `.po` becomes `.mo` with the rest kept, and any other path is saved unchanged. |
| I18nUtils.PoFilesStep | i18n/utils.py:364-379 | One more file adds its language to the languages seen. It adds the language to the mostly translated ones exactly when it meets the threshold or is `LANGUAGE_CODE`. |
| I18nUtils.RecordsLastPercentStep | i18n/utils.py:364-372 | Storing a file's record keeps the latest percentage of every language. |
| I18nUtils.LoadDeedsUxTranslations | i18n/utils.py:357-386 | The info keys are exactly the languages of the files, each holding the percentage of its last file. The mostly translated list is strictly sorted and holds exactly the languages of files at or above the threshold, or equal to `LANGUAGE_CODE`. |
| Text.LowerOfCaseChanges | i18n/utils.py:222-245 | `lower()` of a string, of its `upper()` and of its `title()` agree, and the result is lower-case. |
| Text.JoinSplit | i18n/utils.py:227-245 | Joining the pieces of a split with the separator gives back the string. |
| Text.SplitJoin | legal_tools/tests/test_views.py:96-107 | Splitting a join of separator-free parts gives back the parts. |
| Text.LowerJoin | i18n/utils.py:227-245 | For a separator that is not a letter, lower-casing a join of parts is the join of the lower-cased parts. |
| Ordering.SortedDistinct | i18n/utils.py:246 | `sorted(list(set(xs)))` is strictly sorted and holds exactly the elements of `xs`. |
| Ordering.StrictlySortedUnique | i18n/utils.py:246 | Two strictly sorted lists with the same elements are equal, so the sorted set is determined by its elements. |
| Ordering.Remove | i18n/utils.py:247 | `list.remove` deletes exactly the first occurrence of the element and keeps the other elements in order; one copy of it leaves the multiset. |
| Ordering.FirstIndex | i18n/utils.py:247 | The index found holds the element, and no earlier position does. |
| Ordering.RemoveSorted | i18n/utils.py:246-247 | Removing from a strictly sorted list keeps it strictly sorted and drops exactly that element. |
| DeedStrings.ExpectedAndUnexpected | legal_tools/tests/test_views.py:79-90 | Together the two lists are as long as the dictionary: every string lands in exactly one. |
| DeedStrings.StringsToConditions | legal_tools/tests/test_views.py:37-76 | The 22 strings of the dictionary, in its key order, each with its condition (`never`, `always`, or the lambda's test on the tool). |
| DeedStrings.SelectPartitions | legal_tools/tests/test_views.py:79-90 | Together, the expected and unexpected keys are the table's keys, each counted once. |
| DeedStrings.SelectKeepsOrder | legal_tools/tests/test_views.py:79-90 | Each list keeps the dictionary's key order. |
| DeedStrings.SelectMembers | legal_tools/tests/test_views.py:79-90 | With distinct keys, a key is selected exactly when its condition has the wanted value. |
| DeedStrings.TableKeysDistinct | legal_tools/tests/test_views.py:37-76 | The dictionary's keys are distinct. |
| DeedStrings.DecodeWording | legal_tools/tests/test_views.py:37-76 | Each deed string can be recognised from its wording. |
| DeedStrings.WordingInjective | legal_tools/tests/test_views.py:37-76 | Different keys are different strings. |
| DeedStrings.WordingSelected | legal_tools/tests/test_views.py:79-90 | A string is in a list exactly when its condition has that list's value. |
| DeedStrings.ExpectedIffHolds | legal_tools/tests/test_views.py:79-90 | A string is expected for a tool exactly when its condition holds for it. It is unexpected exactly when the condition does not hold. |
| DeedStrings.ExpectedAndUnexpectedPartition | legal_tools/tests/test_views.py:79-90 | The two lists are disjoint, and every string is in one of them. Each list is in dictionary order. |
| DeedStrings.NeverAndAlwaysStrings | legal_tools/tests/test_views.py:29-34 | Strings guarded by `never` are unexpected for every tool. The string guarded by `always` is expected for every tool. |
| Units.PartsFor | legal_tools/tests/test_views.py:97-104 | The parts always start with "by". |
| Units.CollectParts | legal_tools/tests/test_views.py:97-104 | The three bit tests collect exactly the parts of the bit pattern. |
| Units.UnitsBelow | legal_tools/tests/test_views.py:96-107 | Each bit pattern contributes at most one unit. |
| Units.EnumerateUnits | legal_tools/tests/test_views.py:96-107 | The loop builds exactly the specified unit list. |
| Units.UnitsBelowStep | legal_tools/tests/test_views.py:105-107 | A bit pattern with both "nd" and "sa" adds nothing. Any other pattern adds its joined parts. |
| Units.UnitOfYields | legal_tools/tests/test_views.py:105-107 | A pattern contributes a unit exactly when its parts are compatible and join to it. |
| Units.ConcatBelowMembers | legal_tools/tests/test_views.py:96-107 | A string is in the appended lists exactly when one of them holds it. |
| Units.UnitsBelowIsConcat | legal_tools/tests/test_views.py:96-107 | The unit list is the per-pattern contributions, appended in order. |
| Units.UnitsBelowMembers | legal_tools/tests/test_views.py:96-107 | A unit is listed exactly when some bit pattern yields it. |
| Units.SixUnits | legal_tools/tests/test_views.py:93-107 | The list is exactly by, by-nc, by-nd, by-nc-nd, by-sa, by-nc-sa, in that order. |
| Units.PatternsSixAndSevenSkipped | legal_tools/tests/test_views.py:105-106 | Patterns 6 and 7 hold both "nd" and "sa" and are skipped. |
| Units.UnitParts | legal_tools/tests/test_views.py:93-95 | Every listed unit splits into "by" followed by the parts some pattern selects, so never both "nd" and "sa". |
| Units.PartsWithoutSeparator | legal_tools/tests/test_views.py:97-104 | No part contains "-", so joining the parts can be undone. |
| BranchStatus.ShortHash | legal_tools/tests/test_views.py:864-870 | The short hash is the first seven characters of the hash, or the whole hash when it is shorter. |
| BranchStatus.Massage | legal_tools/tests/test_views.py:864-870 | A massaged commit copies hash, message, committer and time, adds the seven-character prefix of the hash, and has no link yet. |
| BranchStatus.IterCommits | legal_tools/tests/test_views.py:854-860 | The result is at most `max_count` of the newest commits of the ref, all of them when fewer, and none for an unknown ref. |
| BranchStatus.Threaded | legal_tools/tests/test_views.py:872-878 | One massaged commit per fetched commit, with the same hash, message, committer, time and seven-character short hash; each but the oldest links to index i + 1. |
| BranchStatus.StatusOf | legal_tools/tests/test_views.py:846-895 | The shown commits are a prefix of the at most NUM_COMMITS + 1 fetched: NUM_COMMITS of them, or all when fewer. The last commit is the first shown, absent when none is shown. |
| BranchStatus.ThreadCommits | legal_tools/tests/test_views.py:872-878 | The loop links every fetched commit but the oldest to the next one. |
| BranchStatus.BranchStatusHelper | legal_tools/tests/test_views.py:846-895 | The status is `StatusOf`, and the commits are always asked of `origin/<branch>` with `max_count=4`. |
| BranchStatus.CommitsCopyRepository | legal_tools/tests/test_views.py:864-879 | Each fetched commit, the extra one reached through `previous` included, and so each visible commit, copies the hash, message, committer and time of the repository commit at its position, with the short hash its first seven characters. |
| BranchStatus.WindowSize | legal_tools/tests/test_views.py:872-879 | NUM_COMMITS + 1 commits are fetched. NUM_COMMITS are shown, or all of them when the branch has fewer. The shown commits are a prefix of the fetched ones. |
| BranchStatus.PreviousLinks | legal_tools/tests/test_views.py:876-878 | Each fetched commit but the oldest links to index i + 1, the next older fetched commit; the oldest has no link. Each fetched commit carries the hash of the repository commit at its position. |
| BranchStatus.LastVisibleHasPrevious | legal_tools/tests/test_views.py:872-879 | With more than NUM_COMMITS commits, the oldest visible commit still links to the extra fetched one. |
| BranchStatus.LastCommitIsNewest | legal_tools/tests/test_views.py:880-891 | `last_commit` is the newest shown commit, and is absent exactly when none is shown. Branch and official branch are copied. |
| BranchStatus.StatusIgnoresBranchNames | legal_tools/tests/test_views.py:897-964 | Local and remote branch names do not change the status. A ref without commits gives no commits and no last commit. |
| BranchStatus.FourCopiesOfOneCommit | legal_tools/tests/test_views.py:846-891 | Four copies of one commit give three shown commits linked 1, 2, 3, with the short hash "0123456". |
| ViewHelpers.RelativeTo | legal_tools/tests/test_views.py:473-482 | Stripping `path_start` from a URL below it leaves the rest of the URL. |
| ViewHelpers.Relabel | legal_tools/tests/test_views.py:668-702 | A trailing `<kind><code>` becomes `<kind><chosen>`, and what precedes it is kept. |
| ViewHelpers.DeedRelPath | legal_tools/tests/test_views.py:668-702 | For a URL below `path_start` ending in `deed.<code>`, the result is the part in between, then `deed.` and the chosen deed language. Any other URL below `path_start` only loses `path_start`. |
| ViewHelpers.LegalCodeRelPath | legal_tools/tests/test_views.py:473-482 | The same for `legalcode.<code>`, with the language the document is chosen in. |
| ViewHelpers.RelabelBelow | legal_tools/tests/test_views.py:473-482 | Relabelling the part of a URL below `path_start` keeps what lies between `path_start` and the language suffix. |
| ViewHelpers.DeedLanguage | legal_tools/tests/test_views.py:668-702 | The requested language is used when mostly translated. Otherwise the default is used when that is mostly translated, and otherwise `LANGUAGE_CODE`. |
| ViewHelpers.LegalCodeLanguage | legal_tools/tests/test_views.py:473-482 | The requested language is used when the document exists in it, and the default otherwise. |
| ViewHelpers.DeedRelPathChoice | legal_tools/tests/test_views.py:668-702 | The deed's relative path keeps its prefix and ends in the chosen language, which is mostly translated or `LANGUAGE_CODE`, and is the requested one whenever that is mostly translated. |
| ViewHelpers.LegalCodeRelPathChoice | legal_tools/tests/test_views.py:473-482 | The legal code's relative path ends in the requested language or in the default. |
| ViewHelpers.DeedMostlyTranslatedCode | legal_tools/tests/test_views.py:668-677 | `/deed.x1` with x1 mostly translated gives `deed.x1`. |
| ViewHelpers.DeedLessTranslatedCode | legal_tools/tests/test_views.py:679-688 | `/deed.x3` falls back to the mostly translated default and gives `deed.x2`. |
| ViewHelpers.DeedLessTranslatedDefault | legal_tools/tests/test_views.py:690-702 | With nothing mostly translated, `LANGUAGE_CODE` x1 is used. |
| ViewHelpers.LegalCodeFallsBackToDefault | legal_tools/tests/test_views.py:473-482 | `/legalcode.xx` with languages en, es gives `legalcode.en`. |
| ViewHelpers.NormalizePathAndLang | legal_tools/tests/test_views.py:657-666 | The language is the explicit one, else the jurisdiction's default. The path ends in `.<language>`, appended exactly when it was missing. |
| ViewHelpers.NormalizeIdempotent | legal_tools/tests/test_views.py:657-666 | Normalising a normalised path with its language changes nothing. |
| ViewHelpers.NormalizeGermanLegalCode | legal_tools/tests/test_views.py:657-666 | A German legal code path without a language gets `.de` appended. |
| ViewHelpers.CategoryAndTitle | legal_tools/tests/test_views.py:629-655 | A success is licenses/Licenses or publicdomain/Public Domain. A failure names a category that is neither. An explicit category is always the one reported. |
| ViewHelpers.CategoryChoice | legal_tools/tests/test_views.py:629-655 | The category is the explicit one, else the tool's, else "licenses". It succeeds exactly for the two known categories, each with its own title. |
| ViewHelpers.CategoryExamples | legal_tools/tests/test_views.py:629-655 | The three test cases give licenses/Licenses and publicdomain/Public Domain. |

## Left out

- The Django translation machinery, the `.po` and `.mo` file I/O (polib), `get_deeds_ux_pofiles` (directory listing) and the date parsing of `.po` metadata. They are I/O or foreign libraries. `LoadDeedsUxTranslations` takes each file's language and percentage as input.
- `update_lang_info` and the Babel lookups it makes: foreign library.
- `write_transstats_csv` and the other file and network helpers of `i18n/utils.py`: I/O.
- The module-level tables (`LANGMAP_*`, `DEFAULT_JURISDICTION_LANGUAGES`, `JURISDICTION_NAMES`) are defined elsewhere in the i18n package and are map parameters here.
- I18nUtils.LoadDeedsUxTranslations: the creation date, revision date and metadata stored with each percentage are left out. The order of the info dictionary is also left out; it is a map here. The writes to `settings` become return values.
- I18nUtils.MapDjangoToRedirects: the legacy-code list is appended to in place in the source, so every call for a code that has a table entry also adds the code to that entry's list (a code without an entry gets a fresh empty list, i18n/utils.py:218-219). That side effect is invisible in the result (a set is taken), so the tables are treated as constants.
- I18nUtils.MoFilePath: Python's `$` also matches before a final newline. Paths ending in ".po\n" are not modelled.
- Text: case mapping is ASCII only; Unicode case folding is not modelled.
- I18nUtils.DefaultLanguageForJurisdiction: Python binds the default argument `settings.LANGUAGE_CODE` once, when the module is imported, while the model reads `LANGUAGE_CODE` from the settings passed to each call; the two differ only if the settings change after import. A caller passing `None` explicitly gets `None` back for an unknown jurisdiction in the source; in the model `None` means the argument was left out, and an explicit `None` is not modelled.
- I18nUtils.JurisdictionName: an absent jurisdiction (`None`) is the empty string.
- `views.py` is not part of this model. The view helpers are specification functions that agree with every assertion of the view tests.
  - `os.path.relpath` is modelled as stripping a prefix.
  - The language is replaced only as a trailing `deed.<code>` or `legalcode.<code>`.
- The HTTP view tests, rendering, template checks and mocks are left out.
- ViewHelpers.DeedLanguage: the tests show a fallback from the default language to `LANGUAGE_CODE` when the default is not mostly translated. The model follows the tests.
- ViewHelpers.CategoryAndTitle: only the two categories the tests name have a title. Any other category is a `Failure`, as a configuration error.
- DeedStrings: `UNITS_LICENSES` is defined in the tool models, which are not part of this model; it is a parameter. The keys of `strings_to_lambdas` are an enumeration whose `Wording` is the string. The lambdas are named conditions.
- BranchStatus.BranchStatusHelper: the tests show the helper always querying `origin/<branch>`, whether or not a local or remote branch exists. The model follows the tests rather than a "prefer origin when present" rule.
  - A commit's `previous` is the index of the next older commit in the fetched list, rather than the commit itself.
  - Commit times are abstract integers.
  - Failures of the repository other than a missing ref are not modelled.
- NUM_COMMITS is 3, the value for which the tests' `max_count=4` is NUM_COMMITS + 1.
