# Course filtering and grade normalisation of the EOPP chatbot

The EOPP chatbot helps applicants find university courses. This project
models its deterministic core in Dafny and proves properties of that model:

- **Grade normalisers** (`chatbot/utils/filtering_helpers.py`). Six small,
  total functions:
  - a BTEC grade string becomes a summed weight (D*=4, D=3, M=2, P=1);
  - an A-Level string becomes a summed tariff (A*=56 down to E=16);
  - free text becomes the list of `grade N` numbers it mentions;
  - a GPA becomes a degree classification;
  - a text yields its first embedded integer;
  - a free-text degree description becomes one of four classification labels.

  The regular expressions are modelled as left-to-right scanners:
  - `FindAll` reads an alternation of literals the way `re.findall` does;
  - `GcseScan` reads `grade\s*(\d+)`;
  - `FirstNumber` reads `\d+`.
- **The filter pipeline** (`chatbot/filter.py`, `initial_filtering`). The
  catalog is a sequence of `CourseRecord`s, and the request is a map from
  keys to `FilterValue`s. The method `Filter.InitialFiltering` follows the
  source step by step and is proved equal to the specification function
  `Filter.InitialFilteringSpec`. The steps are:
  - a loop that trims and lower-cases six columns;
  - the `"course name"` alias;
  - the course-lookup shortcut, which returns the distinct universities whose
    course title contains the query;
  - otherwise, the chain of exact-match filters on university, field,
    location (where "uk" means anywhere) and degree;
  - finally, the projection to (university, course) pairs, or one of two
    fixed messages.

  A truthy value that is not a string makes `strip` raise `AttributeError`;
  that case is an outcome of its own.
- **Two tool adapters.** Each turns the pipeline's result into one line of
  text for the agent.
  - `chatbot/eopp_tool.py` (module `JsonTool`) parses a JSON request.
  - `chatbot/tools/eopp_tool.py` (module `StructuredTool`) takes a typed
    `FilterCriteria` record. It forwards its non-`None` fields, groups the
    rows by university in sorted order, and lists at most ten rows per
    university. Its nested loops are the method
    `StructuredTool.GroupedEntries`.

The structured adapter forwards the criteria's field names as keys:
`university_name`, `field_type`, `degree_program`, `course_name`, and so on.
The filter reads other keys: `"university name"`, `"field type"`,
`"degree program type"` and `"course name"`. So `location` is the only
criterion that has any effect, and the course-lookup shortcut never fires
from this adapter. `StructuredTool.OnlyLocationConstrains` proves this.

Where the documented behaviour and the code differ, the model follows the
code. Four cases:

- Every listed entry shows the university name as the normalisation loop
  left it: lower-cased and trimmed. The one-row sample catalog with
  university "X" is listed as `"x - civil engineering"`
  (`StructuredTool.SampleStructuredRequest`).
- The description calls the filter values strings. The code instead tests
  them for truthiness and then calls `strip`. The model keeps `null`, other
  JSON values, and the resulting `AttributeError`.
- The filter chain skips a falsy value and a location of "uk", but the
  course-lookup shortcut tests only whether a categorical key is present.
  So `{"course name": "civil", "location": "uk"}` (or `"location": null`)
  is answered in standard mode with course pairs, while
  `{"course name": "civil"}` is answered with universities.
  `FilterProperties.SkippedIsOmittedExactly` proves that a skipped value
  acts like a missing key exactly when the shortcut would stay off
  without it.
- Once any categorical key is present, standard mode never reads the
  course query. So adding a filter to a course lookup can widen the
  answer: on rows (a, civil engineering, london), (b, history, london) and
  (c, law, london), `{"course name": "civil"}` gives the university `a`,
  while adding `"location": "london"` lists all three courses.
  `FilterProperties.CourseQueryIgnored` proves that the course value makes
  no difference in that case. `FilterProperties.AddingFilterNarrows`
  therefore speaks only of requests already in standard mode.

Modules:

| file | module | contents |
|---|---|---|
| wrappers.dfy | `Wrappers`, `Values` | `Option`, `Result`; spreadsheet cells and their `str()` rendering |
| text.dfy | `Text` | ASCII case mapping, `strip`, substring search, digits, `join`, string order |
| filtering_helpers.dfy | `FilteringHelpers` | the six grade normalisers |
| filter.dfy | `Filter` | records, request, `initial_filtering` as a method and a specification |
| filter_properties.dfy | `FilterProperties` | what `initial_filtering` promises |
| replies.dfy | `Replies` | the adapters' replies and result entries |
| sample_catalog.dfy | `SampleCatalog` | a one-row catalog used for worked examples |
| eopp_tool.dfy | `JsonTool` | the JSON adapter |
| tools_eopp_tool.dfy | `StructuredTool` | the structured adapter |

## Model

| member | source | states |
|---|---|---|
| Values.Render | chatbot/filter.py:19 | `astype(str)`: a text cell renders as itself and a missing cell as "nan" |
| Text.NormalizeIsNormal | chatbot/filter.py:19 | after `strip().lower()` a value has no upper-case letter and no surrounding whitespace |
| Text.NormalizeIdempotent | chatbot/filter.py:19 | normalising an already normalised value changes nothing |
| Text.StripSpec | chatbot/filter.py:19 | `strip()` leaves text that neither starts nor ends with whitespace |
| Text.ContainsCaseless | chatbot/filter.py:32-33 | for lower-case text and query, the upper-cased caseless search agrees with a plain substring search |
| Text.NatToStringRoundTrip | chatbot/utils/filtering_helpers.py:51 | `int()` of the decimal digits of n is n |
| Text.JoinLength | chatbot/eopp_tool.py:52 | the length of `sep.join(xs)` is the pieces' total length plus one separator for each neighbouring pair |
| Text.JoinAt | chatbot/eopp_tool.py:52 | in `sep.join(xs)` each piece sits, unchanged, after the pieces and separators before it, and a separator follows every piece but the last |
| Text.JoinSnoc | chatbot/eopp_tool.py:52 | joining one more piece appends the separator and then that piece |
| Text.ContainsStripped | chatbot/utils/filtering_helpers.py:135-147 | for a phrase that neither starts nor ends with whitespace, `p in s.strip()` is `p in s` |
| Text.ContainsPadded | chatbot/utils/filtering_helpers.py:135-147 | whitespace on either side of a text adds no occurrence of such a phrase |
| FilteringHelpers.FirstMatch | chatbot/utils/filtering_helpers.py:32-33 | at one position the alternation takes an alternative that starts there, and none only when no alternative does |
| FilteringHelpers.FindAll | chatbot/utils/filtering_helpers.py:32-33 | every token `re.findall` returns for a literal alternation is one of the alternatives |
| FilteringHelpers.FindAllSplit | chatbot/utils/filtering_helpers.py:103-104 | a character occurring in no alternative splits the scan: no token straddles it and it adds none |
| FilteringHelpers.StripAddsNoToken | chatbot/utils/filtering_helpers.py:23 | stripping whitespace before upper-casing changes no token |
| FilteringHelpers.SumWeightsBounds | chatbot/utils/filtering_helpers.py:37 | a sum of n weights each within [lo, hi] lies within [lo·n, hi·n] |
| FilteringHelpers.BtecTokens | chatbot/utils/filtering_helpers.py:31-33 | every BTEC token is D*, D, M or P, weighing 1 to 4 |
| FilteringHelpers.ConvertBtecGrade | chatbot/utils/filtering_helpers.py:20-38 | None for a non-string or empty grade and for one without a token; otherwise the summed weight, between 1 and 4 per token |
| FilteringHelpers.StripAddsNoBtecToken | chatbot/utils/filtering_helpers.py:23 | the `strip()` in the BTEC conversion changes no token |
| FilteringHelpers.BtecSeparatorAddsNothing | chatbot/utils/filtering_helpers.py:32-37 | a character that is not part of a grade splits a BTEC grade: tokens and weights of the parts add up |
| FilteringHelpers.BtecTakes | chatbot/utils/filtering_helpers.py:31-33 | a grade token at the front is read whole, D* before D |
| FilteringHelpers.BtecExampleStars | chatbot/utils/filtering_helpers.py:16 | "D*D*D*" scores 12 |
| FilteringHelpers.BtecExampleDistinctions | chatbot/utils/filtering_helpers.py:17 | "DDD" scores 9 |
| FilteringHelpers.BtecExampleMixed | chatbot/utils/filtering_helpers.py:18 | "D*M P" scores 7, the space skipped |
| FilteringHelpers.ALevelTokens | chatbot/utils/filtering_helpers.py:103-104 | every A-Level token is A*, A, B, C, D or E, worth 16 to 56 |
| FilteringHelpers.ConvertALevelToNumeric | chatbot/utils/filtering_helpers.py:88-111 | None for a non-string or empty grade and for one without a token; otherwise the summed tariff, between 16 and 56 per token |
| FilteringHelpers.ALevelSeparatorAddsNothing | chatbot/utils/filtering_helpers.py:103-110 | a character that is not part of a grade splits an A-Level grade: tokens and tariffs of the parts add up |
| FilteringHelpers.ALevelTakes | chatbot/utils/filtering_helpers.py:103-104 | a grade token at the front is read whole, A* before A |
| FilteringHelpers.ALevelExampleStars | chatbot/utils/filtering_helpers.py:84 | "A*A*A*" scores 168 |
| FilteringHelpers.ALevelExampleAAB | chatbot/utils/filtering_helpers.py:84 | "AAB" and "aab" both score 136 |
| FilteringHelpers.ExtractGcseGrades | chatbot/utils/filtering_helpers.py:47-48 | a non-string or empty text gives no grades |
| FilteringHelpers.GcseScan | chatbot/utils/filtering_helpers.py:50 | every grade found uses the five letters of `grade` and at least one digit, so a text of length n names at most n/6 grades |
| FilteringHelpers.GcseScanPhrase | chatbot/utils/filtering_helpers.py:50 | `grade` in any mix of cases, any run of whitespace (none included), the digits of N and then a non-digit: N is found, then the scan goes on with the rest |
| FilteringHelpers.GcseScanSeparator | chatbot/utils/filtering_helpers.py:50 | the separator ", " yields no grade |
| FilteringHelpers.GcseScanRoundTrip | chatbot/utils/filtering_helpers.py:50-51 | writing grades as "grade a, grade b, …" and scanning gives back the same grades, in order, duplicates kept |
| FilteringHelpers.GcseExtractRoundTrip | chatbot/utils/filtering_helpers.py:41-51 | the same round trip through `extract_gcse_grades` |
| FilteringHelpers.GcseExample | chatbot/utils/filtering_helpers.py:44 | "grade 5, grade 6, grade 7" gives [5, 6, 7] |
| FilteringHelpers.GcseScanNeedsDigit | chatbot/utils/filtering_helpers.py:50 | text without a digit names no grade |
| FilteringHelpers.GcseExampleNone | chatbot/utils/filtering_helpers.py:45 | a text with no grade gives [] |
| FilteringHelpers.ConvertBachelorsDegreeFromGpa | chatbot/utils/filtering_helpers.py:65-79 | an input `float()` rejects, or a GPA below 2.5, gives None |
| FilteringHelpers.GpaBands | chatbot/utils/filtering_helpers.py:70-79 | each class is given exactly on its band: [3.7, ∞), [3.3, 3.7), [3.0, 3.3), [2.5, 3.0); below 2.5 none |
| FilteringHelpers.GpaMonotone | chatbot/utils/filtering_helpers.py:70-79 | a higher GPA never gives a lower class |
| FilteringHelpers.GpaExamples | chatbot/utils/filtering_helpers.py:70-79 | 3.8, 3.0, 2.9 and 2.4 give first, lower second, third and none |
| FilteringHelpers.FirstNumber | chatbot/utils/filtering_helpers.py:118 | no number exactly when the text has no digit |
| FilteringHelpers.ExtractNumeric | chatbot/utils/filtering_helpers.py:116-119 | None for a missing value; otherwise None exactly when the rendered text has no digit |
| FilteringHelpers.FirstNumberFinds | chatbot/utils/filtering_helpers.py:118-119 | text without digits, then the digits of n, then a non-digit: n is found |
| FilteringHelpers.ExtractNumericFinds | chatbot/utils/filtering_helpers.py:114-119 | the same for `extract_numeric` on a text cell |
| FilteringHelpers.ExtractBachelorsClassification | chatbot/utils/filtering_helpers.py:132-133 | a missing value gives None |
| FilteringHelpers.ThirdClassTestRedundant | chatbot/utils/filtering_helpers.py:144 | the test for "third class" adds nothing to the test for "third" |
| FilteringHelpers.LadderRung | chatbot/utils/filtering_helpers.py:138-147 | on a text that is already lower-case and stripped, a classification whose own test holds and whose higher rungs' tests fail is the one given |
| FilteringHelpers.ClassificationLadder | chatbot/utils/filtering_helpers.py:132-147 | for any present value, with `l` its lower-cased text: first iff `l` mentions "first"; an upper second iff not first and `l` contains "upper second", "2:1" or "second upper"; likewise for the lower second and the third; None exactly when `l` contains none of the phrases |
| FilteringHelpers.ClassificationCaseless | chatbot/utils/filtering_helpers.py:135 | upper case in the text makes no difference to the classification |
| FilteringHelpers.ClassificationIgnoresPadding | chatbot/utils/filtering_helpers.py:135 | whitespace around the text makes no difference to the classification |
| FilteringHelpers.ReadsFirstClassOf | chatbot/utils/filtering_helpers.py:138-139 | "first class" is read as a first |
| FilteringHelpers.ReadsUpperSecondOf | chatbot/utils/filtering_helpers.py:140-141 | "upper second class" is read as an upper second |
| FilteringHelpers.ReadsLowerSecondOf | chatbot/utils/filtering_helpers.py:142-143 | "lower second class" is read as a lower second |
| FilteringHelpers.ReadsThirdClassOf | chatbot/utils/filtering_helpers.py:144-145 | "third class" is read as a third |
| FilteringHelpers.ClassificationRoundTrip | chatbot/utils/filtering_helpers.py:135-145 | every label the helpers produce is read back as the same classification |
| FilteringHelpers.GpaLabelReadBack | chatbot/utils/filtering_helpers.py:54-147 | a class computed from a GPA, written as its label, is extracted unchanged |
| Filter.NormalizeCell | chatbot/filter.py:19 | a normalised cell always holds text |
| Filter.NormalizedCellIsNormal | chatbot/filter.py:19 | a normalised cell is lower-case with no surrounding whitespace |
| Filter.NormalizeCellIdempotent | chatbot/filter.py:19 | normalising a cell twice is normalising it once |
| Filter.MissingCellReadsNan | chatbot/filter.py:19 | a missing cell becomes "nan", so the later `notna` test never rejects a row |
| Filter.NormalizeTable | chatbot/filter.py:17-19 | every row is normalised in place, none added or removed |
| Filter.NormalizeColumns | chatbot/filter.py:17-19 | the column loop leaves exactly the normalised table |
| Filter.AllColumnsNormalized | chatbot/filter.py:17-19 | rewriting the six columns one by one normalises every record |
| Filter.ResolveAlias | chatbot/filter.py:24-25 | "course name" is moved to "course_or_degree_name", overwriting it; no other key changes |
| Filter.DemandOf | chatbot/filter.py:43-44 | a falsy value imposes nothing, a string is normalised, any other truthy value cannot be stripped |
| Filter.LocationDemand | chatbot/filter.py:51-57 | a location that normalises to "uk" imposes nothing, like a falsy one |
| Filter.ConstraintsOf | chatbot/filter.py:43-61 | no constraints exactly when a categorical value is truthy but not text; otherwise each column's constraint is its key's demand |
| Filter.Containing | chatbot/filter.py:32-33 | the rows kept are an order-preserving subsequence of the table |
| Filter.ContainingMembers | chatbot/filter.py:32-33 | a row is kept exactly when its course title contains the query, caselessly |
| Filter.Distinct | chatbot/filter.py:38 | `drop_duplicates`: no duplicates, the same names, an order-preserving subsequence of the input |
| Filter.DistinctKeepsFirstOccurrences | chatbot/filter.py:38 | the names kept appear in the order of their first occurrences in the input |
| Filter.ShortcutApplies | chatbot/filter.py:27-29 | the shortcut needs a truthy course value, and any categorical key present, whatever its value, turns it off |
| Filter.Survivors | chatbot/filter.py:43-61 | the rows meeting every constraint, as an order-preserving subsequence |
| Filter.Matching | chatbot/filter.py:44 | the rows kept are an order-preserving subsequence of the frame |
| Filter.MatchingMembers | chatbot/filter.py:44 | a row is kept exactly when its column reads the value |
| Filter.MatchingNarrows | chatbot/filter.py:43-61 | filtering one more column is adding that constraint |
| Filter.Project | chatbot/filter.py:65 | one (university, course) pair per row, in order |
| Filter.ShortcutOutcome | chatbot/filter.py:31-40 | a non-text query raises; universities are non-empty and distinct; otherwise the no-universities message |
| Filter.StandardOutcome | chatbot/filter.py:43-67 | raises exactly when a value cannot be stripped; pairs are non-empty and no more than the rows; otherwise the no-match message |
| Filter.InitialFilteringSpec | chatbot/filter.py:4-67 | the result is pairs, distinct universities, one of the two messages, or the AttributeError |
| Filter.InitialFiltering | chatbot/filter.py:4-67 | the method computes the specification |
| Filter.CourseLookup | chatbot/filter.py:31-40 | the shortcut's statements compute `ShortcutOutcome` |
| Filter.FilterColumn | chatbot/filter.py:43-49 | one university, field or degree block raises exactly for a truthy non-text value, and otherwise leaves the rows meeting one more equality on its column, or all rows for a falsy value |
| Filter.FilterLocation | chatbot/filter.py:51-57 | the location block does the same, except that "uk" keeps every row |
| Filter.NotTextRaises | chatbot/filter.py:43-61 | one categorical value without `strip` makes standard mode raise |
| Filter.StandardFiltering | chatbot/filter.py:43-67 | the filter chain, reassigning the frame block by block, computes `StandardOutcome` |
| Filter.SurvivorsOfNone | chatbot/filter.py:43-61 | with no constraint every row survives |
| FilterProperties.TableIsNormalized | chatbot/filter.py:17-19 | every compared cell is lower-case text with no surrounding whitespace |
| FilterProperties.CaselessIsPlain | chatbot/filter.py:32-33 | on the normalised table the caseless search is a plain substring search |
| FilterProperties.HitsAreOffers | chatbot/filter.py:31-38 | the universities of the hits are exactly those offering a matching course |
| FilterProperties.ShortcutFindsUniversities | chatbot/filter.py:28-40 | the shortcut returns the distinct universities offering the query, and the message exactly when there is none |
| FilterProperties.ContainingEmpty | chatbot/filter.py:32-33 | every title contains the empty query |
| FilterProperties.BlankQueryMatchesEverything | chatbot/filter.py:28-38 | a whitespace-only query is truthy, strips to empty, and lists every university |
| FilterProperties.PresentNullBlocksShortcut | chatbot/filter.py:28-30 | a present but null categorical key blocks the shortcut, and the whole catalog comes back |
| FilterProperties.CourseQueryIgnored | chatbot/filter.py:27-61 | once a categorical key is present, the reply is the same whatever the course query is, and the same as with no course key at all |
| FilterProperties.AliasUpdate | chatbot/filter.py:24-25 | setting a categorical key commutes with the alias rule |
| FilterProperties.AliasRemove | chatbot/filter.py:24-25 | removing a categorical key commutes with the alias rule |
| FilterProperties.SkippedIsOmitted | chatbot/filter.py:27-61 | a falsy value, or a location of "uk", behaves like leaving the key out whenever the shortcut stays off without the key |
| FilterProperties.SkippedBlocksShortcut | chatbot/filter.py:27-40 | when the shortcut would fire without the key, a present falsy or "uk" value gives a different answer: standard mode instead of the shortcut |
| FilterProperties.SkippedIsOmittedExactly | chatbot/filter.py:27-61 | a skipped value and a missing key give the same answer exactly when the shortcut stays off without the key |
| FilterProperties.ProjectKeepsSubsequence | chatbot/filter.py:65 | projecting keeps the subsequence relation |
| FilterProperties.ConstraintNarrows | chatbot/filter.py:43-61 | one more equality constraint keeps a subsequence of the rows |
| FilterProperties.StandardResultIsSubsequence | chatbot/filter.py:43-65 | standard mode returns the projected survivors, an order-preserving subsequence of the catalog |
| FilterProperties.AddingFilterNarrows | chatbot/filter.py:43-67 | adding a categorical string filter to a standard-mode request never enlarges the result: the pairs become a subsequence of the pairs, and "no match" stays "no match" |
| Replies.Entry | chatbot/eopp_tool.py:47 | an entry is the university, " - ", then the course |
| Replies.Entries | chatbot/eopp_tool.py:46-49 | one entry per row, in row order |
| Replies.EntriesConcat | chatbot/tools/eopp_tool.py:132-136 | appending rows appends their entries |
| Replies.JoinedEntriesLength | chatbot/eopp_tool.py:52 | the joined reply has the entries' length plus one ", " between each neighbouring pair |
| JsonTool.FormatAsWritten | chatbot/eopp_tool.py:38-52 | as written: a message passes through, AttributeError escapes exactly for that outcome, and KeyError exactly for a non-empty shortcut result |
| JsonTool.Format | chatbot/eopp_tool.py:38-52 | repaired: no KeyError; a non-empty shortcut result is answered with the universities joined by ", "; every other outcome as written |
| JsonTool.ToolReplyAsWritten | chatbot/eopp_tool.py:30-52 | malformed JSON is answered with the prefix and the parser's message; a KeyError escapes only when the shortcut fires |
| JsonTool.ToolReply | chatbot/eopp_tool.py:30-52 | the repaired adapter: malformed JSON answered as written, never a KeyError, and an AttributeError only for parsed JSON |
| JsonTool.ParseErrorReported | chatbot/eopp_tool.py:31-35 | malformed JSON is answered, not raised: a fixed prefix, then the parser's message |
| JsonTool.MessagesPassThrough | chatbot/eopp_tool.py:40-41 | a message from the pipeline is returned unchanged |
| JsonTool.OnlyNonTextRaises | chatbot/eopp_tool.py:38-52 | the only exception escaping the repaired adapter is AttributeError, exactly for a truthy non-text value the pipeline strips |
| JsonTool.RowsBecomeEntries | chatbot/eopp_tool.py:43-52 | in standard mode, one "university - course" entry per surviving row, in order, joined by ", "; no survivor gives the no-match message |
| JsonTool.ShortcutHitRaisesAsWritten | chatbot/eopp_tool.py:46-49 | as written, any course lookup that some university offers raises KeyError |
| JsonTool.ShortcutAnswered | chatbot/eopp_tool.py:46-52 | repaired, a course lookup answers with the distinct offering universities, or the no-universities message |
| JsonTool.RepairIsLocal | chatbot/eopp_tool.py:40-52 | the repair changes only the replies to a non-empty course lookup |
| JsonTool.SampleCourseLookup | chatbot/eopp_tool.py:46-49 | on a one-row catalog, a lookup of "civil" raises as written and answers "x" repaired |
| JsonTool.SampleStandardRequest | chatbot/eopp_tool.py:20-26 | the usage example's request finds the sample course: "x - civil engineering" |
| StructuredTool.NonNoneFilters | chatbot/tools/eopp_tool.py:116 | the forwarded keys are field names with non-`None` values, and every field that is set is forwarded |
| StructuredTool.Capped | chatbot/tools/eopp_tool.py:130-136 | the listing of a list of groups holds only input rows of those groups |
| StructuredTool.Selected | chatbot/tools/eopp_tool.py:130-136 | the listing holds only rows of the result |
| StructuredTool.Format | chatbot/tools/eopp_tool.py:123-138 | a message passes through, result rows are always answered, AttributeError escapes exactly for that outcome |
| StructuredTool.ToolReply | chatbot/tools/eopp_tool.py:95-138 | the adapter never raises: it always answers with a string |
| StructuredTool.Insert | chatbot/tools/eopp_tool.py:130 | inserting a university keeps the group keys sorted and adds exactly that key |
| StructuredTool.GroupKeys | chatbot/tools/eopp_tool.py:130 | the groups are the universities of the rows, each once, in ascending order |
| StructuredTool.OfUniversity | chatbot/tools/eopp_tool.py:133 | a group holds exactly that university's rows |
| StructuredTool.Head | chatbot/tools/eopp_tool.py:134 | `head(n)` is the prefix of the given rows whose length is the smaller of n and their number |
| StructuredTool.InitialFilteringTool | chatbot/tools/eopp_tool.py:95-138 | the adapter's statements compute its specification `ToolReply` |
| StructuredTool.GroupedEntries | chatbot/tools/eopp_tool.py:130-136 | the two loops append the entries of the selected rows, group after group |
| StructuredTool.NothingSetNothingForwarded | chatbot/tools/eopp_tool.py:116 | criteria with nothing set forward no filter |
| StructuredTool.LocationForwarded | chatbot/tools/eopp_tool.py:116 | the location is forwarded, as given, exactly when it is set |
| StructuredTool.OnlyLocationConstrains | chatbot/tools/eopp_tool.py:116-121 | the shortcut never fires and only the location constrains the result |
| StructuredTool.OtherCriteriaIgnored | chatbot/tools/eopp_tool.py:116-121 | two sets of criteria with the same location get the same reply |
| StructuredTool.CappedOfUniversity | chatbot/tools/eopp_tool.py:132-136 | the loops list, for each visited university, its first ten rows and nothing else of it |
| StructuredTool.CapPerUniversity | chatbot/tools/eopp_tool.py:130-136 | each university is listed with exactly its first ten rows, in their original order |
| StructuredTool.ListingCovers | chatbot/tools/eopp_tool.py:130-136 | every listed row is a result row, and every university of the result is listed |
| StructuredTool.CappedOrdered | chatbot/tools/eopp_tool.py:130-136 | the universities in the listing never go down |
| StructuredTool.GroupsContiguous | chatbot/tools/eopp_tool.py:130-136 | a university's entries are never interrupted by another's |
| StructuredTool.ReplyListsSelected | chatbot/tools/eopp_tool.py:123-138 | the reply is the no-match message, or the joined entries of the capped listing of the location survivors |
| StructuredTool.SampleStructuredRequest | chatbot/tools/eopp_tool.py:95-138 | any criteria asking for London list the sample course as "x - civil engineering" |

## Left out

- Loading the spreadsheet (`pd.read_excel`) and the fixed file path are not modelled: the catalog is a parameter.
- All six normalised columns are assumed present. So the `col in df.columns` test in `chatbot/filter.py` and the `course_or_degree_name` column test at its end always hold.
- `json.loads` is not modelled: its result is a `Result` holding either a request map or the parser's message.
- A JSON document that parses to something other than an object is not modelled.
- JSON values other than `null` and strings become `OtherValue`, which keeps only their truthiness.
- Pydantic validation of `FilterCriteria` is not modelled: the record is taken as already validated.
- `print` calls and the LangChain `@tool` wrapping are left out.
- Filter values are modelled as values. The caller's dictionary, which `initial_filtering` updates in place through `pop`, is not modelled. Neither adapter reads it again.
- Case mapping, whitespace (`\s`, `strip`) and digits (`\d`) are ASCII only. Unicode case folding and non-ASCII digits are not modelled.
- FilteringHelpers.ConvertBachelorsDegreeFromGpa: `float()` parsing is not modelled. The input is an `Option<real>`, with None for a value `float()` rejects. Thresholds are exact decimals, and NaN and infinities are not represented.
- StructuredTool.NonNoneFilters: a float field is truthy when it is not 0.0 and a list field when it is non-empty. Float rounding is not modelled.
- `re` and pandas are modelled only as the scanners and table operations used here:
  - `findall` and `search` on these patterns;
  - boolean masks;
  - `drop_duplicates`;
  - `groupby` with sorted keys, and `head`.
- The other files of the repository are not part of this model: the agent and its memory, retrieval, CV extraction, course classification, spreadsheet merging and the Streamlit pages.

## Findings

| source | as written | input that shows it | evidently intended | confidence | as-written member | corrected member |
|---|---|---|---|---|---|---|
| chatbot/eopp_tool.py:46-49 | each result row is read for `course_or_degree_name`, but the course-lookup shortcut returns a frame with only `university_name`, so any non-empty lookup raises KeyError | a catalog with one row (X, civil engineering) and the request `{"course name": "civil"}` | answer with the universities found, comma-separated, as the tool's docstring describes | high; not executed | JsonTool.SampleCourseLookup | JsonTool.ShortcutAnswered |

`JsonTool.ToolReplyAsWritten` models the adapter as written. Two lemmas show
the crash:

- `JsonTool.SampleCourseLookup` shows it on the one-row catalog.
- `JsonTool.ShortcutHitRaisesAsWritten` shows it for every lookup that some
  university offers.

`JsonTool.ToolReply` is the repaired adapter.
`JsonTool.ShortcutAnswered` proves that it lists the offering universities.

The structured adapter has the same per-row lookup. There the shortcut never
fires, and the contract of `StructuredTool.ToolReply` states that the adapter never raises.
