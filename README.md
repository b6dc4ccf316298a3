# MediGuideAI symptom core, modelled in Dafny

MediGuideAI is a Streamlit medical assistant. Its core logic is small:

- a **rule loader** (`rules/rules_loader.py`) checks the rules document. It builds a table from a normalised symptom token to an ordered dictionary of condition → positive integer weight.
- `safe_load_rules` falls back to a two-entry table when loading fails.
- a **scorer** (`score_symptoms`) adds up the weights each selected symptom gives each condition. It turns the totals into percentages of the top score, rounded to one decimal place, and ranks them in descending order.
- a **critical-condition rule** (`detect_critical`) raises an alert on high severity or on a confident match to one of five life-threatening conditions.
- a **sanitizer** (`sanitize_text`) redacts e-mail addresses, then phone numbers, then long digit runs from free text. It flags whether anything was redacted.
- a few **pure UI helpers**: the colour theme lookup, the ambulance map link, the severity label, parsing of the typed symptom list, and the medication search filter.

The project is organised as follows:

- `wrappers.dfy`: `Option` and `Result`.
- `text.dfy`: the Python string operations used (`isspace`, `lower`, `strip`, substring test).
- `ordered_dict.dfy`: Python's insertion-ordered `dict`.
- `rules_loader.dfy`: the loader, written as loops, as in the source. Each loop is proved against a recursive specification function, and the promised properties are proved about those functions.
- `ranking.dfy`: percentages in tenths with round-half-to-even, and the stable descending sort.
- `scoring.dfy`: `safe_load_rules`, `score_symptoms` (loops over an explicit rule table) and `detect_critical`.
- `sanitizer.dfy`: a scanner for each of the three regular expressions, `re.subn` as a left-to-right scan, and `sanitize_text`. It proves that no word-bounded run of six or more digits survives.
- `ui_helpers.dfy`: the UI helpers.

A percentage is an integer number of tenths. For example, 100.0 is `1000` and 85.0 is `850`.

Two behaviours of the code are worth stating outright:

- Not every malformed document raises `RulesLoadError`. For a parsed document that is not a JSON object, `"rules" in data` tests the elements of an array and the substrings of a string. If that test fails, the loader raises `RulesLoadError` (rules/rules_loader.py:33-34). If it succeeds, `data["rules"]` raises `TypeError`. A number, a boolean or `null` raises `TypeError` in the `in` test itself. `LoadError.TypeError` and `IsRulesLoadError` model this. `safe_load_rules` catches every exception, so the fallback table is used either way.
- `score_symptoms` receives a list, not a set, and counts a symptom listed twice two times. The model takes a sequence and proves the duplicate counting.

## Model

| member | source | states |
|---|---|---|
| RulesLoader.LoadRules | rules/rules_loader.py:25-46 | The loop over tokens returns exactly the recursive specification `LoadResult`: the first failing token or weight decides the error; otherwise the cleaned table. |
| RulesLoader.CleanMapping | rules/rules_loader.py:40-44 | The inner loop over one token's mapping returns the specification `CleanWeights`: the first non-positive or non-integer weight raises; otherwise the trimmed conditions keep their weights. |
| RulesLoader.CleanWeights | rules/rules_loader.py:41-44 | The specification of the inner loop. It fails only with a bad-weight error that names this token. |
| RulesLoader.InnerOf | rules/rules_loader.py:37-44 | One token's mapping fails with the bad-mapping error exactly when it is not an object. Otherwise it can only fail with a bad-weight error that names this token. |
| RulesLoader.CleanTokens | rules/rules_loader.py:36-45 | The specification of the outer loop. It fails only with a bad-mapping or a bad-weight error. |
| RulesLoader.LoadResult | rules/rules_loader.py:26-34 | A missing file fails with not-found and an unparsable one with a parse failure. A `TypeError` arises only for a parsed document that is not an object. An empty `rules` object gives an empty table. |
| RulesLoader.RulesDictOf | rules/rules_loader.py:33-34 | The document is accepted exactly when it is an object whose `rules` member is an object. An object without one fails with the missing-rules error. A `TypeError` arises exactly for an array holding the string "rules", a string containing "rules", or a number, boolean or `null`; any other non-object fails with the missing-rules error. |
| RulesLoader.WeightValue | rules/rules_loader.py:42-44 | A weight is accepted exactly when it is a positive JSON integer or `true`. Floats, strings and `false` are rejected. An accepted weight is `int(weight)`: the integer itself, or 1 for `true` (Python's `bool` is an `int`). |
| RulesLoader.AsDict | rules/rules_loader.py:30 | The members of a parsed object form a valid ordered dictionary (no key listed twice, every listed key bound). |
| RulesLoader.AsDictKeys | rules/rules_loader.py:30 | The dictionary's keys are the member names in order of first occurrence. |
| RulesLoader.AsDictBindings | rules/rules_loader.py:30 | The dictionary binds what assigning the members one by one, in document order, binds. |
| RulesLoader.AsDictBound | rules/rules_loader.py:30 | A name is bound in the dictionary exactly when some member carries it. |
| RulesLoader.AsDictLastValue | rules/rules_loader.py:30 | A repeated name is bound to the value of its last member. |
| RulesLoader.LoadSucceedsIff | rules/rules_loader.py:27-46 | Loading succeeds if and only if the document parses, has a `rules` object, every mapping is an object, and every weight is a positive integer. |
| RulesLoader.CleanTokensSucceedsIff | rules/rules_loader.py:36-45 | The outer loop succeeds if and only if every token's mapping is valid. |
| RulesLoader.CleanWeightsSucceedsIff | rules/rules_loader.py:41-44 | The inner loop succeeds if and only if every weight is accepted. |
| RulesLoader.InnerSucceedsIff | rules/rules_loader.py:37-44 | One token's mapping is cleaned without error if and only if it is an object of acceptable weights. |
| RulesLoader.NonPositiveWeightRaises | rules/rules_loader.py:42-43 | A zero or negative integer weight anywhere makes loading fail with a `RulesLoadError`. |
| RulesLoader.LoadedTableIsNormalised | rules/rules_loader.py:35-46 | A loaded table's tokens are lower-cased and trimmed, its conditions are trimmed, and its weights are positive. Its key set is exactly the set of normalised keys of `rules`: none is dropped or added. |
| RulesLoader.LoadedConditionsAreTrimmed | rules/rules_loader.py:40-44 | A cleaned mapping's conditions are exactly the trimmed condition names, each with a positive weight. Each trimmed name holds the document's weight for the last condition that trims to it. |
| RulesLoader.CleanWeightsValues | rules/rules_loader.py:41-44 | After the inner loop, each trimmed name holds the accepted weight of the last condition that trims to it. |
| RulesLoader.CleanWeightsLastWins | rules/rules_loader.py:44 | A condition that no later condition trims alike stores its own accepted weight under its trimmed name, and that value survives to the end of the loop. |
| RulesLoader.CleanWeightsFrame | rules/rules_loader.py:44 | A trimmed name that no remaining condition trims to keeps its value through the rest of the inner loop. |
| RulesLoader.CleanWeightsGood | rules/rules_loader.py:41-44 | The inner loop keeps every condition trimmed and every weight positive. It adds exactly the trimmed names of the conditions it visits. |
| RulesLoader.CleanTokensGood | rules/rules_loader.py:36-45 | The outer loop keeps the table normalised. |
| RulesLoader.CleanTokensKeys | rules/rules_loader.py:36-45 | The outer loop adds exactly the normalised tokens it visits. |
| RulesLoader.CleanTokensFrame | rules/rules_loader.py:45 | A table entry whose token no later key normalises to is left untouched. |
| RulesLoader.CleanTokensLastWins | rules/rules_loader.py:45 | After the loop, a normalised token holds the cleaned mapping of the last key that normalises to it. |
| RulesLoader.LaterTokenReplacesEarlier | rules/rules_loader.py:45 | When two keys normalise to the same token, the later key's mapping replaces the earlier one wholesale; the two are not merged. |
| RulesLoader.PutKeepsNormalised | rules/rules_loader.py:45 | Storing a clean mapping under a token keeps the table normalised. |
| Scoring.SafeLoadRules | ui.py:43-48 | The loaded table is used when loading succeeds, and the fallback table whenever loading fails for any reason. The result is always a normalised table. |
| Scoring.Fallback | ui.py:48 | The fallback table (chest pain → Ischemic Heart Disease 5, fever → Community-Acquired Pneumonia 3) is a normalised table with two tokens. |
| Scoring.FallbackNames | ui.py:48 | The fallback tokens are distinct, lower-case and trimmed, and its condition names are trimmed. |
| Scoring.PairTable | ui.py:48 | A two-token table of distinct normalised tokens with clean mappings is a normalised table. |
| Scoring.SingleIsGood | ui.py:48 | A one-condition mapping with a trimmed name and positive weight is clean. |
| Scoring.NormalisedIsScorable | ui.py:50 | Any table the loader or the fallback produces can be scored: every mapping is valid and every weight positive. |
| Scoring.Lookup | ui.py:348-349 | `RULES.get(tok, {})` after lower-casing and trimming the symptom gives a mapping of positive weights. |
| Scoring.Mappings | ui.py:347-349 | The looked-up mapping of each selected symptom, in order. |
| Scoring.Accumulate | ui.py:346-351 | After the first `n` symptoms, each condition's total is the sum of the weights the looked-up mappings give it, with duplicates counted. A condition is present exactly when some mapping names it. Every total is positive. The keys are the conditions in order of first mention. |
| Scoring.RawScores | ui.py:346-351 | The totals after all selected symptoms form a valid dictionary. |
| Scoring.AccumulateScores | ui.py:346-351 | The nested loops compute exactly the specification `RawScores`. |
| Scoring.ScoreSymptoms | ui.py:345-357 | Each total is the sum of the weights, with duplicates counted. The ranking has one entry per condition, is non-increasing, and lies in [0, 100.0]. It is the stable descending sort of the per-condition percentages. |
| Scoring.ScoreFacts | ui.py:345-357 | The same facts for the specification functions: positive totals, one entry per condition, sorted, and bounded. |
| Scoring.RawScoresEmptyIff | ui.py:352-353 | The totals are empty, so the result is `[], {}`, exactly when no selected symptom has a mapping with a condition. |
| Scoring.AccumulateEmptyIff | ui.py:346-353 | The accumulated totals are empty exactly when every mapping seen is empty. |
| Scoring.PreNormalisedSameScores | ui.py:348 | Normalising the symptoms beforehand changes nothing, because lower-casing and trimming is idempotent. |
| Scoring.AddWeightsKeys | ui.py:350-351 | The inner loop appends new conditions in the mapping's order; existing ones keep their place. |
| Scoring.AddWeightsValue | ui.py:350-351 | The inner loop adds the mapping's weight to each condition it names and leaves the others unchanged. |
| Scoring.AddMapping | ui.py:350-351 | Adding a whole mapping adds its weight per condition and appends its new conditions in order. |
| Scoring.AddMappingScores | ui.py:350-351 | The loop over one mapping computes exactly the specification `AddWeights`. |
| Scoring.AddWeights | ui.py:350-351 | The specification of the inner loop keeps the totals a valid dictionary. Its keys and values are stated by `AddWeightsKeys` and `AddWeightsValue`. |
| Scoring.AddWeightsMembers | ui.py:350-351 | After the inner loop, a condition has a total exactly when it had one before or the mapping names it at or after the starting position. |
| Scoring.MaxOver | ui.py:354 | `max(raw.values())` is at least every value and equal to one of them. |
| Scoring.MaxScore | ui.py:354 | The maximum is attained by some condition and bounds every total. |
| Scoring.Percentages | ui.py:355 | The list comprehension gives one entry per condition, in dictionary order, each holding the total as a percentage of the maximum rounded to one decimal place (half to even). A total no larger than the maximum gets at most 100.0, and a total equal to the maximum gets exactly 100.0. |
| Scoring.EntryOf | ui.py:355 | The entry of a condition names that condition and holds its total as a percentage of the maximum, rounded to one decimal place (half to even). It lies in [0, 100.0], and a condition with the maximum total gets exactly 100.0. |
| Scoring.Rank | ui.py:355-356 | The ranking is empty exactly when there are no totals. Otherwise it is a permutation of the comprehension's entries. |
| Scoring.RankedEntries | ui.py:355-356 | Every condition appears in the ranking with its own percentage, and nothing else appears. |
| Scoring.RankedBounds | ui.py:355 | Every percentage in the ranking lies in [0, 100.0], and every condition with the maximum total appears with exactly 100.0. |
| Scoring.RankedSorted | ui.py:356 | The ranking is non-increasing and starts at 100.0 when it is not empty. |
| Scoring.RankedTiesKeepInsertionOrder | ui.py:356 | For each percentage, the ranking lists its conditions in dictionary order, as the comprehension does (the sort is stable). |
| Scoring.DetectCritical | ui.py:359-365 | Severity 8 or more is always critical, even for an empty ranking. Below 8, the result is critical exactly when some entry is at or above 85.0 and its lower-cased name is one of the five critical conditions: ischemic heart disease, ischemic stroke, sepsis, septic shock, pulmonary embolism. |
| Scoring.CriticalIgnoresCase | ui.py:362 | Whether an entry is critical does not depend on the case of its condition name. A critical entry stays critical at a higher percentage. |
| Ranking.RoundHalfEven | ui.py:355 | Rounding to the nearest integer: the result is within half a unit of the exact quotient, and an exact tie goes to the even neighbour. |
| Ranking.Percent | ui.py:355 | `round(100.0*v/m, 1)` in tenths: the result is within half a tenth of `1000·v/m`, an exact tie goes to the even neighbour, a total no larger than the maximum gives at most 100.0, and the maximum itself gives exactly 100.0. |
| Ranking.RoundedPercentUnique | ui.py:355 | The rounding condition pins the percentage down: at most one number of tenths meets it. |
| Ranking.Insert | ui.py:356 | Inserting an entry adds exactly that entry to the multiset. |
| Ranking.SortDesc | ui.py:356 | The sort is a permutation of its input. |
| Ranking.InsertSorted | ui.py:356 | Inserting into a non-increasing list keeps it non-increasing. |
| Ranking.SortDescSorted | ui.py:356 | `sort(key=pct, reverse=True)` yields a non-increasing list. |
| Ranking.InsertStable | ui.py:356 | Insertion places an entry before the entries with an equal percentage. Inserting the list's elements from the back therefore keeps their original order among equals. |
| Ranking.SortDescStable | ui.py:356 | For each percentage, the entries with that percentage keep their original relative order. |
| Sanitizer.SanitizeText | ui.py:332-343 | An empty text comes back unflagged. Otherwise the output is the ID pass over the phone pass over the e-mail pass. The flag is raised exactly when some pass changed its input, so an unflagged result equals the input. No word-bounded run of six or more digits remains. |
| Sanitizer.Subn | ui.py:337-342 | The count is zero exactly when the text comes out unchanged. |
| Sanitizer.Scan | ui.py:337-342 | The left-to-right scan replaces at most one match per remaining character, and copies the rest of the text unchanged when it makes no replacement. |
| Sanitizer.ScanUnchangedIff | ui.py:337-342 | The scan makes no replacement exactly when it copies its input, because each replacement token starts with `[`, which no match starts with. |
| Sanitizer.Matches | ui.py:337-341 | Every match found at a position is non-empty and ends inside the text. |
| Sanitizer.MatchAt | ui.py:337-341 | A match is never empty and never starts with `[`. |
| Sanitizer.Replacement | ui.py:337-341 | Each replacement token is non-empty and starts with `[`. |
| Sanitizer.EmailAt | ui.py:337 | An e-mail match starts with a local-part character and is non-empty. |
| Sanitizer.LastTld | ui.py:337 | The greedy domain part backtracks to the last dot that is followed by two or more letters. |
| Sanitizer.PhoneAt | ui.py:339 | A phone match starts with a digit and is non-empty. |
| Sanitizer.IdAt | ui.py:341 | An ID match found at a position is a run of six or more digits with a word boundary at both ends. |
| Sanitizer.IdAtComplete | ui.py:341 | Conversely, every such run starting at the position is the match found there. |
| Sanitizer.RunEnd | ui.py:337-341 | A greedy `[...]+` run takes every following character of its class and stops at the first one outside it. |
| Sanitizer.IdPassLeavesNoId | ui.py:341 | After the ID pass, `\b\d{6,}\b` matches nowhere in the text. |
| Sanitizer.IdFreeFrom | ui.py:341 | The ID scan's output from any position holds no ID match, given what precedes it. |
| Sanitizer.CopiedNotId | ui.py:341 | Where the scan copies a character, no ID match starts in the output either. |
| Sanitizer.CopiedDigitRun | ui.py:341 | A copied digit run is copied whole, together with the character that ends it. |
| Sanitizer.CopiesWhileNoMatch | ui.py:337-342 | Where no match starts, `re.subn` copies the text unchanged. |
| Sanitizer.ShiftIdIn | ui.py:341 | Whether an ID matches inside a suffix depends only on the suffix and the character before it. |
| Sanitizer.IdInIsMatch | ui.py:341 | At the start of a text, the relative ID test is the ID pattern itself. |
| Sanitizer.RunEndUnique | ui.py:341 | A run is determined by its characters and the character after it. |
| Text.StripIsTrimmedSlice | rules/rules_loader.py:44 | `strip()` removes only leading and trailing whitespace. |
| Text.LowerStripCommute | rules/rules_loader.py:39 | Lower-casing and trimming commute. |
| Text.LowerIdempotent | rules/rules_loader.py:39 | Lower-casing twice gives the same as lower-casing once. |
| Text.Lower | rules/rules_loader.py:39 | `lower()` keeps the length and leaves no upper-case letter; a string without upper-case letters is unchanged. |
| Text.LStrip | rules/rules_loader.py:44 | `lstrip()` drops a whitespace prefix and keeps the rest, which does not start with whitespace. |
| Text.RStrip | rules/rules_loader.py:44 | `rstrip()` drops a whitespace suffix and keeps the rest, which does not end with whitespace. |
| Text.Strip | rules/rules_loader.py:44 | `strip()` leaves no whitespace at either end, and a trimmed string is unchanged. |
| Text.Normalise | rules/rules_loader.py:39 | `lower().strip()` yields a lower-case, trimmed token, and such a token is its own normal form. |
| Text.LowerChar | rules/rules_loader.py:39 | A lower-cased character is not upper-case. Whether it is whitespace is unchanged, and a non-upper-case character is unchanged. |
| OrderedDict.Put | rules/rules_loader.py:45 | Assigning a key keeps the dictionary valid. An existing key keeps its place; a new key goes last. |
| OrderedDict.EmptyIff | ui.py:352 | A dictionary is falsy exactly when it binds nothing. |
| OrderedDict.NoDupsSnoc | rules/rules_loader.py:45 | Appending a new key keeps the keys free of repeats. |
| OrderedDict.DedupConcat | ui.py:351 | First-occurrence order over two runs of assignments composes. |
| OrderedDict.PutKeysDedup | ui.py:351 | A dictionary's key order is the order of first assignment. |
| OrderedDict.Empty | ui.py:346 | `{}` is a valid dictionary with no keys. |
| UiHelpers.GetPalette | ui.py:118-119 | The result is always one of the listed themes. |
| UiHelpers.GetPaletteChoosesTheme | ui.py:118-119 | Each listed name shows its own theme; any other name shows Teal. |
| UiHelpers.FindTheme | ui.py:118-119 | `PALETTES.get(name)` finds a listed theme under that name, and finds nothing exactly when no theme has the name. |
| UiHelpers.ThemeNamesDistinct | ui.py:55-117 | The six themes are listed under different names. |
| UiHelpers.AmbulanceMapLink | ui.py:367-372 | The link is always a Google Maps ambulance search. An empty query searches "near me"; otherwise it searches near the quoted query. |
| UiHelpers.AmbulanceMapLinkInjective | ui.py:367-372 | When quoting is injective, different places give different links. |
| UiHelpers.FirstBand | ui.py:892-897 | `next(...)` finds a band containing the value, and finds none exactly when no band contains it. |
| UiHelpers.SeverityBandsAsRanges | ui.py:892-898 | 1–3 is Mild (green), 4–6 Moderate (amber), 7–10 Severe (red); any other value falls back to Mild in green. |
| UiHelpers.SeverityLabel | ui.py:897 | The label is Mild, Moderate or Severe, and it is Mild whenever no band contains the value. |
| UiHelpers.SeverityColour | ui.py:898 | The colour is green, amber or red, and it is green whenever no band contains the value. |
| UiHelpers.Split | ui.py:833 | `split(",")` yields at least one piece, and no piece contains a comma. |
| UiHelpers.JoinSplit | ui.py:833 | Joining the split pieces with the separator gives back the text. |
| UiHelpers.SplitJoin | ui.py:833 | Splitting joined pieces that contain no separator gives back the pieces. |
| UiHelpers.StrippedPieces | ui.py:833 | The comprehension keeps exactly the non-empty trimmed pieces. Every kept piece is non-empty and trimmed. |
| UiHelpers.ParseSymptoms | ui.py:833 | The typed symptoms are exactly the non-empty, trimmed comma-separated pieces. Each is non-empty, trimmed and comma-free. Empty input gives no symptoms. |
| UiHelpers.FilterDrugs | ui.py:1377-1384 | The two successive comprehensions equal the one-pass reference: the records that match the search term, when one is typed, and the category, unless all categories are chosen. |
| UiHelpers.SearchFilter | ui.py:1379-1382 | The search comprehension keeps exactly the listed records whose name, class or indications contain the lower-cased term, compared in lower case, and never lengthens the list. |
| UiHelpers.CategoryFilter | ui.py:1383-1384 | The category comprehension keeps exactly the listed records of the chosen category, and never lengthens the list. |
| UiHelpers.ShownDrugsCounts | ui.py:1377-1384 | Each shown record appears as often as it is listed, and no other record appears. |
| UiHelpers.ShownDrugsConcat | ui.py:1377-1384 | Filtering distributes over concatenation, so the listed order is kept. |
| UiHelpers.SearchThenCategory | ui.py:1378-1384 | The search filter followed by the category filter keeps exactly the records passing both. |
| UiHelpers.SearchOnly | ui.py:1378-1382 | With all categories chosen, only the search filter applies. |
| UiHelpers.CategoryOnly | ui.py:1383-1384 | With no search term, only the category filter applies. |
| UiHelpers.NoFilter | ui.py:1377 | With no term and all categories chosen, every record is shown. |
| UiHelpers.CategoryFilterConcat | ui.py:1383-1384 | The category filter distributes over concatenation. |

## Left out

- Reading `rules.json` and `json.loads` (rules/rules_loader.py:26-32): the outcome of reading and parsing is an input, `Source`: missing, unparsable, or a parsed JSON value.
- The module-level `RULES = safe_load_rules()` (ui.py:50): the table is a parameter of the scorer, so the file is not read at import time.
- Scoring.ScoreSymptoms: percentages are exact integer tenths with round-half-to-even of `1000·v/m`. Python computes `round(100.0*v/m, 1)` in binary floating point, so the last digit can differ at ties that are not exactly representable.
- Scoring.ScoreSymptoms: the Python list is sorted in place by `ranked.sort`. The model computes the same stable descending order as a function on sequences, `Ranking.SortDesc`.
- Text.Lower: `str.lower()` is modelled for ASCII letters only. Other Unicode case mappings are not modelled.
- Sanitizer.SanitizeText: `\w`, `\d` and the letter classes are taken over ASCII. Python's `re` treats `\w`, `\d` and `\b` as Unicode-aware for `str` patterns, so non-ASCII letters and digits are not modelled.
- UiHelpers.AmbulanceMapLink: `urllib.parse.quote` is a function parameter with no interpretation, since it is library code.
- `list(set(manual_symptoms + selected_from_list))` (ui.py:842): set iteration order is not modelled. The scorer is proved for every order of its input sequence.
- The drug filter reads the records from `medical_data.py`: the static tables are not part of this model, and a record is reduced to the three fields the filter reads.
- All Streamlit rendering, CSS, session state, the chat client in `config.py` (network I/O), `app.py`, `time.sleep`, and pandas DataFrames: display and I/O with no behaviour to verify.
