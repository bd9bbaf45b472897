# AI medical assistant: deterministic core

`app.py` is a Streamlit assistant. The user asks a medical question. The assistant searches
trusted medical sites, asks a language model to answer from the snippets it found, and shows
the answer with its sources, a severity level and proactive health advisories. Apart from
those service calls, the program is a small amount of string and sequence logic. This project
models that logic in Dafny and proves what it promises:

- `Advisory` covers `RISK_SNIPPETS` and `get_risk_snippets`. The question is lower-cased. Each
  table entry whose keyword occurs in it contributes its advisory, in table order.
- `Severity` covers `SEVERITY_KEYWORDS` and `classify_severity`. The keyword groups are scanned
  in order: Immediate, then Urgent, then the empty Routine group. The label of the first group
  with a hit is returned, and Routine when no group has one. The loop with its early return is
  the method `ClassifySeverity`. It is proved against the function `SeverityOf`.
- `Demographics` covers the `For a {age}-year-old {gender}, ` prefix built from the sidebar
  inputs, and the full query that prefix opens.
- `Search` covers what `get_medical_snippets` does with the decoded search reply:
  - the in-place stable sort that puts nhs.uk links first. This is the method `SortNhsFirst`
    on an array, proved equal to the stable partition `NhsFirst`;
  - the projection of each item to a `(title, link, snippet)` triple;
  - the `[]` returned on any failure, including an item that lacks a field.
- `Answer` covers `answer_medical_question`:
  - the no-sources short-circuit;
  - the context lines and the prompt;
  - the stripped reply followed by the disclaimer, with the sources;
  - the error text when the completion fails.
- `Text` stands in for the Python built-ins this logic uses: `sub in s`, `str.lower()`,
  `str.strip()` and `sep.join(xs)`.

The search request and the completion request are not modelled. Their outcomes are inputs:
- `Search.SearchResponse` is the decoded search reply, or `Unavailable` when the request, its
  status check or the JSON decoding raises, or when the decoded body is not a JSON object, so
  that `.get("items", [])` at app.py:33 raises.
- The completion is a function from the prompt to `Answer.Completion`: the reply text, or the
  text of the raised error.

Three facts about `app.py` shape the model:
- Nothing fills in a missing field. The `item[...]` lookups at app.py:35 raise `KeyError` for
  an item without `title`, `link` or `snippet`, and the `except` at app.py:36-37 turns that
  into `[]` for the whole result.
- Nothing cuts the results down to `num_results`. That parameter only goes into the request
  (app.py:29), and every item the backend returns is kept.
- `RISK_SNIPPETS` (app.py:69-79) has no entry for "aspirin". A question about ibuprofen and
  aspirin gets exactly the ibuprofen advisory (`Advisory.RiskSnippetsIbuprofenExample`).

## Model

| member | source | states |
|---|---|---|
| Advisory.GetRiskSnippets | app.py:81-82 | no more advisories than table entries, and every advisory returned is that of an entry whose keyword occurs in the lower-cased question |
| Advisory.Matching | app.py:82 | the filtered list is never longer than the table |
| Advisory.HitPositions | app.py:82 | the positions of the matching entries are table positions in strictly increasing order |
| Advisory.MatchingAt | app.py:82 | there are as many hit positions as selected advisories, and the k-th selected advisory is that of the k-th hit position |
| Advisory.MatchingSelects | app.py:82 | the k-th selected advisory is the advisory of the k-th hit position, and a position is a hit exactly when its keyword occurs in the text |
| Advisory.MatchingInOrder | app.py:82 | when the keywords of entries i < j both occur, the advisory of i is selected before the advisory of j |
| Advisory.MatchingSingle | app.py:82 | when exactly one keyword occurs, exactly its advisory is selected |
| Advisory.MatchingNone | app.py:82 | nothing is selected exactly when no keyword of the table occurs in the text |
| Advisory.RiskSnippetsExact | app.py:69-82 | an advisory is returned if and only if some table entry with that advisory has a keyword occurring in the lower-cased question |
| Advisory.RiskSnippetsInTableOrder | app.py:69-82 | when the keywords of entries i < j both occur, the advisory of i comes before the advisory of j |
| Advisory.RiskSnippetsEmpty | app.py:69-82 | the result is `[]` exactly when no keyword occurs in the lower-cased question |
| Advisory.RiskSnippetsIgnoreCase | app.py:82 | a question and its lower-cased form get the same advisories |
| Advisory.RiskKeywordsLowerCase | app.py:69-79 | every keyword of the table is lower case |
| Advisory.RiskSnippetsKeywordHit | app.py:69-82 | a question containing a keyword, in any case of the rest of the text, gets that keyword's advisory |
| Advisory.RiskSnippetsRashExample | app.py:78-82 | "Rash?" gets exactly the rash advisory |
| Advisory.IbuprofenQuestionHits | app.py:69-82 | of the table's keywords, only "ibuprofen" occurs in the lower-cased "Can I take Ibuprofen with Aspirin daily?" |
| Advisory.RiskSnippetsIbuprofenExample | app.py:69-82 | "Can I take Ibuprofen with Aspirin daily?" gets exactly the ibuprofen advisory: the capitalised keyword still matches, and "aspirin" adds nothing |
| Severity.AnyKeyword | app.py:94 | `any(keyword in q_lower ...)`: true only for a non-empty keyword list, and always true when one of the keywords is empty |
| Severity.FirstHit | app.py:93-96 | the scan returns the default or the label of one of the groups |
| Severity.SeverityOf | app.py:91-96 | the level is always one of the three labels |
| Severity.ClassifySeverity | app.py:91-96 | the loop returns `SeverityOf(query)`; Immediate if and only if an Immediate keyword occurs; Urgent if and only if no Immediate keyword but some Urgent keyword occurs; Routine if and only if neither occurs |
| Severity.SeverityOfPriority | app.py:85-96 | Immediate wins whenever an Immediate keyword occurs, even alongside Urgent ones; otherwise Urgent whenever an Urgent keyword occurs; otherwise Routine |
| Severity.SeverityOfIsLabel | app.py:85-96 | the level is one of the three labels, and the empty Routine group never has a hit |
| Severity.SeverityIgnoresCase | app.py:92 | the level does not depend on letter case |
| Severity.SeverityChestPainExample | app.py:86-95 | "chest pain" with "dizziness" is Immediate |
| Severity.SeverityDizzinessExample | app.py:86-95 | "Dizziness" alone is Urgent |
| Severity.SeverityRoutineExample | app.py:91-96 | "Hi" is Routine |
| Demographics.Prefix | app.py:113 | the prefix is empty if and only if the age is empty and the gender is the default "Prefer not to say"; otherwise it is "For a " + age + "-year-old " + lower(gender) + ", " |
| Demographics.FullQuery | app.py:113-114 | the full query always ends with the question |
| Demographics.FullQueryEndsWithQuestion | app.py:113-114 | the full query ends with the question, and equals it exactly when no demographics were given |
| Demographics.PrefixMentions | app.py:113 | a non-empty prefix contains the age as typed and the lower-cased gender |
| Demographics.FullQueryMentions | app.py:113-114 | with demographics, the full query contains the age and the lower-cased gender |
| Demographics.PrefixExample | app.py:113 | age "34" and gender "Male" give "For a 34-year-old male, " |
| Demographics.FullQueryExample | app.py:113-114 | with age "34" and gender "Male", the question is preceded by "For a 34-year-old male, " |
| Demographics.FullQueryDefaultExample | app.py:113-114 | no age and the default gender leave the question unchanged |
| Search.Get | app.py:34 | `x.get(key, default)`: the value stored under the key, or the default; never anything else |
| Search.IsNhs | app.py:34 | `"nhs.uk" in x.get("link", "")`: an item without a link is never preferred |
| Search.SortKey | app.py:34 | the sort key is 0 or 1, and 0 exactly for the nhs.uk results |
| Search.NhsFirst | app.py:34 | the sorted list is as long as the input, and position k holds an nhs.uk item exactly when k lies within the nhs.uk group's length |
| Search.Group | app.py:34 | a group is no longer than the input, and each of its items has the group's key |
| Search.GroupAppend | app.py:34 | the group of a concatenation is the concatenation of the groups |
| Search.GroupOfGroup | app.py:34 | selecting a group from a group yields all of it or nothing |
| Search.GroupsLength | app.py:34 | the two groups together are as long as the input |
| Search.GroupsPartition | app.py:34 | the nhs.uk group and the other group together hold exactly the input's items, as a multiset |
| Search.NhsFirstPermutation | app.py:34 | the sorted list is a permutation of the input |
| Search.NhsFirstSorted | app.py:34 | every nhs.uk item comes before every other item |
| Search.NhsFirstStable | app.py:34 | within each group, the sort keeps the input's relative order |
| Search.SortedIsGroups | app.py:34 | a list ordered by the key is its nhs.uk group followed by its other items |
| Search.StableSortIsNhsFirst | app.py:34 | any list that is ordered by the key and keeps each group of the input in order is the sorted list, so the sort result is unique |
| Search.GroupExtend | app.py:34 | one more item extends its own group by that item and leaves the other group as it is |
| Search.SplitByKey | app.py:34 | the first pass collects the nhs.uk items and the other items of the array, each list in array order |
| Search.Overwrite | app.py:34 | the array afterwards holds the given sequence |
| Search.SortNhsFirst | app.py:34 | after the in-place sort the array holds `NhsFirst` of its old contents |
| Search.ExampleKeys | app.py:34 | of the example items, only the one linking to nhs.uk has sort key 0 |
| Search.NhsFirstThree | app.py:34 | for any items where only a is from nhs.uk, [b, a, c] sorts to [a, b, c] |
| Search.NhsFirstExample | app.py:34 | [B, A (nhs.uk), C] sorts to [A, B, C] |
| Search.HasFields | app.py:35 | the three `item[...]` lookups succeed; then the sort key is decided by the very link the triple copies |
| Search.ToSnippet | app.py:35 | `(item["title"], item["link"], item["snippet"])`, whose link mentions nhs.uk exactly when the item sorted first |
| Search.Project | app.py:35-37 | the projection succeeds if and only if every item has title, link and snippet; it then gives one triple per item, in order, built from those fields |
| Search.MedicalSnippets | app.py:30-37 | a non-empty result comes from a decoded reply with items, one snippet per item |
| Search.SortedHasFields | app.py:34-35 | some item lacks a field exactly when some sorted item does |
| Search.MedicalSnippetsMissingField | app.py:35-37 | one item missing a field makes the result `[]` |
| Search.MedicalSnippetsAllFields | app.py:34-35 | when every item has its fields, the result is one triple per item, taken from the sorted items in order |
| Search.MedicalSnippetsFailure | app.py:30-37 | a failed request, or a reply without `items`, gives `[]` rather than an error |
| Search.MedicalSnippetsNhsFirst | app.py:34-35 | in the returned snippets, no nhs.uk link comes after a link that is not from nhs.uk |
| Answer.AnswerMedicalQuestion | app.py:40-66 | the sources listed keep the nhs.uk-first order of the search results |
| Answer.AnswerFromSnippets | app.py:41-66 | without snippets the answer is exactly the no-sources message with no sources; otherwise the sources are none or all of the snippets' |
| Answer.Context | app.py:44 | the context contains every snippet's line |
| Answer.PromptMiddle | app.py:52-54 | the part of the prompt between the instructions and the answer cue contains the context and the question |
| Answer.Prompt | app.py:46-57 | the prompt opens with the fixed instructions, ends with the answer cue, and contains the context and the question |
| Answer.Line | app.py:44 | the f-string line `- **title**: snippet` contains both the title and the snippet |
| Answer.Lines | app.py:44 | one context line `- **title**: snippet` per snippet, in order |
| Answer.Sources | app.py:45 | one `(title, link)` pair per snippet, in order |
| Answer.ContextAppend | app.py:44 | one more snippet adds a newline and its line to the context |
| Answer.NoSnippetsShortCircuit | app.py:41-43 | without snippets the answer is the no-sources message with no sources, and the completion is never consulted |
| Answer.PromptMentions | app.py:44-57 | the prompt contains the question and every snippet's context line |
| Answer.AnswerOnReply | app.py:58-64 | with snippets and a reply, the answer is the stripped reply followed by the disclaimer, and the sources are the snippets' `(title, link)` pairs in order |
| Answer.AnswerReplyStripped | app.py:63-64 | the text before the disclaimer neither starts nor ends with whitespace |
| Answer.AnswerOnRaised | app.py:65-66 | with snippets and a failed completion, the answer is "OpenAI API Error: " + the error text, and there are no sources |
| Answer.SourcesFromSnippets | app.py:45-64 | every source is the `(title, link)` of the snippet at the same position |
| Answer.SourcesAllOrNothing | app.py:43-66 | the source list is empty or consists of all the snippets' sources, whose links are the snippets' links in order |
| Answer.FailedSearchAnswer | app.py:26-43 | a failed search, a reply without items, or an item missing a field gives the no-sources answer |
| Text.Contains | app.py:82 | `sub in s` (also at app.py:34 and app.py:94): a hit is never longer than the text, and the empty string is in every string |
| Text.LowerChar | app.py:82 | the per-character fold of `lower()` (also at app.py:92): an ASCII capital becomes the letter 32 code points later, every other character is kept |
| Text.Lower | app.py:82 | `lower()` keeps the length and lower-cases each ASCII letter |
| Text.LowerIdempotent | app.py:82 | lower-casing twice is lower-casing once |
| Text.LowerKeepsLowerCasePiece | app.py:82 | a lower-case piece of a string remains a piece of it after lower-casing |
| Text.IsSpace | app.py:63 | the whitespace set of `str.strip()`, as `str.isspace()` defines it; no ASCII letter or digit is in it |
| Text.TrimStart | app.py:63 | `lstrip()` returns a suffix of the input that is empty or starts with a non-space |
| Text.TrimStartRemovesSpaces | app.py:63 | everything `lstrip()` removes is whitespace |
| Text.TrimEnd | app.py:63 | `rstrip()` returns a prefix of the input that is empty or ends with a non-space |
| Text.TrimEndRemovesSpaces | app.py:63 | everything `rstrip()` removes is whitespace |
| Text.Strip | app.py:63 | `strip()` is no longer than its input and neither starts nor ends with whitespace |
| Text.StripSpec | app.py:63 | `strip()` yields a contiguous piece of the input, with only whitespace around it, that neither starts nor ends with whitespace |
| Text.StripIdempotent | app.py:63 | stripping twice is stripping once |
| Text.Join | app.py:44 | the joined length is the pieces' total length plus one separator per neighbouring pair |
| Text.JoinAppend | app.py:44 | joining two non-empty lists puts one separator between their joins |
| Text.JoinContainsPiece | app.py:44 | every piece occurs in the joined string |
| Text.JoinContainsAll | app.py:44 | every piece occurs in the joined string, for all pieces at once |

## Left out

- The Streamlit UI (app.py:99-169) is left out: page setup, widgets, tabs, rendering, the `and question` button guard, and the session history.
- Secrets and client construction (app.py:9-16) and the gspread feedback sheet (app.py:152-165) are left out, because they are foreign I/O.
- The search request is left out (app.py:27-33): the `" OR ".join(TRUSTED_SITES)` query, the request parameters, the HTTP call and the JSON decoding. The model takes their outcome as a `SearchResponse`, produced by a function of the question that stands for the whole request.
- The completion request (app.py:59-62) is left out. The model takes its outcome as a function from the prompt to a `Completion`. A reply whose content is not a string makes `.strip()` raise inside the `try`. The model represents that reply as `Raised` with that error's text.
- Search.Item: models a result item as a map from strings to strings, so items with other JSON values fall outside the model. In `app.py` most of them do not raise. A `title` or `snippet` of any type is copied into the triple at app.py:35. A list or object `link` is tested for membership of "nhs.uk" at app.py:34 rather than for a substring. Such items come back as triples, not `[]`. Only a number, boolean or null `link` makes the sort key raise `TypeError`, and an item that is not a JSON object makes `x.get` raise; both give `[]`. An `items` value that is not a list also gives `[]`; the model can express that case only as `Unavailable`.
- Text.Lower: lower-cases only ASCII letters, not all of Unicode as `str.lower()` does. Every keyword of both tables and every gender option is ASCII, and the keywords are already lower case. A question with a non-ASCII character that `str.lower()` maps to an ASCII letter can still get a different result. An example is U+212A KELVIN SIGN, which lowers to `k`: `app.py` classifies "STRO\u212AE" as Immediate (app.py:92-95), but the model gives Routine.
- Error texts are taken as given. How an exception turns into the text after "OpenAI API Error: " is not modelled.
