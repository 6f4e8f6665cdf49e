# EMS analysis: a verified model of the deterministic core

This project models, in Dafny, the deterministic logic around the language
models and data libraries of the EMS (emergency medical services) analysis
system. It covers:

- the risk-labelling path of the risk-score pipeline:
  - age buckets, the medical text of a row and the keyword-priority labeller;
  - LLM failure sentinels and label propagation from clusters to rows;
  - the feature-column bookkeeping (`safe_name`, `make_unique`, train and
    test column lists);
- the LLM reply handling of the three clients:
  - reply-shape dispatch, fenced-code extraction and comment stripping;
  - the backend client's system-prompt modes;
- the backend chat API:
  - intent detection and protocol retrieval;
  - dataset paging and the "top N" and "how many" query parsing;
  - the empty-message guard;
- the operational aggregations:
  - the row filter, SLA delay buckets and delayed-hour ranking;
  - risk counts per hour and per city, and critical windows;
- the hotspot table: first city per cell, left merge, sort, top-n and ranks;
- RAG chunking with a sliding window, and chunk ids;
- the EDA agent's line-oriented parsers and the category normalisation;
- the guards of the code-cleaning loop: the code sanitiser, the pre- and
  post-run checks, the `evaluator_basic` score and the placeholder guard.

Each source file of the core is one module:

| module | file |
|---|---|
| `Base`, `PyText`, `Sorting` | shared helpers: slices, `map`/`filter`, Python `str` methods, stable descending sort |
| `RiskLabels`, `RiskFeatures` | `risk_score/risk_score_pipeline.py` |
| `OllamaReply`, `RiskLlmClient` | `risk_score/llm_client.py` (the reply logic `OllamaReply` is shared with `backend/llm_client.py`) |
| `BackendLlmClient` | `backend/llm_client.py` |
| `BackendMain` | `backend/main.py` |
| `OpEfficiency` | `backend/op_efficiency/op_efficiency_pipeline.py` |
| `RiskByHourLocation` | `backend/op_efficiency/risk_by_hour_location.py` |
| `HotspotTable` | `backend/geospatial/hotspot_table.py` |
| `RagPipeline` | `risk_score/rag_store/rag_pipeline.py` |
| `EdaGenerator` | `eda/eda_generator_agent.py` |
| `EdaClean` | `eda/eda.py` |
| `CleaningLlmClient` | `cleaning/llm_client.py` |
| `CodeExecutor` | `cleaning/code_executor.py` |
| `CleaningController` | `cleaning/controller.py` |

Code that works by expressions (the labeller, the dispatchers, the hotspot
pipeline) is modelled by functions. Code that builds its result in a loop is
modelled by a method with a loop, proved against a function that specifies
it. This covers `make_unique`, the feature-name loop, `chunk_text`, the line
parsers, the hour and city loops, the comment filter and `evaluator_basic`.
Pandas frames are sequences of row records. Missing values are `Option`s.
Durations are exact `real`s. An exception the code can raise is an
`Outcome` (`Returned(v)` or `Raised`).

Where the code and its description disagree, the model follows the code:

- A missing or NaN `Patient_Age` buckets as "elderly", not "unknown". NaN
  fails every `<=` test of `preprocess_age`, and a missing column gives an
  all-NaN series. An age of 200 is "elderly" too.
- The MEDIUM keyword list and the "hospital" test of `extract_label` change
  nothing, because every path after the LOW test returns MEDIUM.
- `compute_risk_by_hour`, `compute_risk_by_location` and
  `compute_peak_risk_hours` raise `KeyError` when the response-time column
  is missing and at least one row survives the filters (an hour with rows,
  a grouped city, or an hour with HIGH rows). The average response time is
  read without the column guard that protects the delay count.
- `evaluator_basic`'s trim check raises, and is skipped at no cost, when the
  cleaned frame has repeated column names.
- `worst_hour_for_high_risk` is the earliest hour with a HIGH incident, not
  the busiest hour.

## Model

| member | source | states |
|---|---|---|
| RiskLabels.PreprocessAge | risk_score/risk_score_pipeline.py:55-68 | "unknown" exactly when `float(age)` raises; inclusive thresholds 1, 12, 18, 65 on finite ages; NaN and +inf give "elderly", -inf "infant" |
| RiskLabels.AgeGroupMonotone | risk_score/risk_score_pipeline.py:60-68 | a larger finite age never lands in a younger bucket |
| RiskLabels.Field | risk_score/risk_score_pipeline.py:100-106 | a text cell after `fillna("")`, lower and strip has no upper-case letter and no white space at either end |
| RiskLabels.MedicalTextNormalised | risk_score/risk_score_pipeline.py:104-108 | building the medical text from already-normalised fields gives the same text |
| RiskLabels.FieldIdempotent | risk_score/risk_score_pipeline.py:105-106 | lower-then-strip applied twice equals applied once |
| RiskLabels.BuildMedicalText | risk_score/risk_score_pipeline.py:98-109 | raises exactly when an impression or protocol column is missing; otherwise one medical text per row, composed from that row's cells |
| RiskLabels.MissingAgeColumnIsElderly | risk_score/risk_score_pipeline.py:102-103 | with no `Patient_Age` column every row's age group is "elderly" (the NaN series) |
| RiskLabels.ExtractLabel | risk_score/risk_score_pipeline.py:130-143 | HIGH iff the lowered summary contains a HIGH keyword; LOW iff it has none of those but a LOW keyword; MEDIUM otherwise |
| RiskLabels.ExtractLabelCaseBlind | risk_score/risk_score_pipeline.py:131 | the label does not depend on letter case |
| RiskLabels.HighWinsInContext | risk_score/risk_score_pipeline.py:135-136 | a HIGH summary stays HIGH whatever text surrounds it, LOW keywords included |
| RiskLabels.CardiacArrestIsHigh | risk_score/risk_score_pipeline.py:132-136 | any summary naming "cardiac arrest" in any case is HIGH |
| RiskLabels.NonLifeThreateningIsHigh | risk_score/risk_score_pipeline.py:132-136 | "non life-threatening" is HIGH (it contains "life-threatening") |
| RiskLabels.SentinelsAreMedium | risk_score/risk_score_pipeline.py:173-190 | "[NO LLM RESPONSE]", "[ERROR]" and a missing summary all label MEDIUM |
| RiskLabels.NoResponseIsKeywordFree | risk_score/risk_score_pipeline.py:177 | the no-response sentinel contains no HIGH and no LOW keyword |
| RiskLabels.NoResponseLower | risk_score/risk_score_pipeline.py:177 | the lowered no-response sentinel is "[no llm response]" |
| RiskLabels.NoResponseLowFree | risk_score/risk_score_pipeline.py:177 | "[no llm response]" contains no LOW keyword |
| RiskLabels.ErrorIsKeywordFree | risk_score/risk_score_pipeline.py:180 | the error sentinel contains no HIGH and no LOW keyword |
| RiskLabels.SummaryOf | risk_score/risk_score_pipeline.py:174-180 | a cluster's summary is never empty: the reply, "[NO LLM RESPONSE]" for an empty reply, "[ERROR]" when the call raised |
| RiskLabels.ReplyLabel | risk_score/risk_score_pipeline.py:173-190 | what a cluster's reply becomes as a label: a failed call or a falsy reply gives MEDIUM; a string reply or a rendered response is labelled through its summary; the run raises exactly when a truthy non-string value reaches `extract_label` |
| RiskLabels.FailedPostIsMedium | risk_score/risk_score_pipeline.py:174-190 | a failed or falsy post to the server leaves the cluster MEDIUM |
| RiskLabels.NumericResponseStopsRun | risk_score/risk_score_pipeline.py:175-189 | a server answer `{"response": 5}` reaches `extract_label` as a number and stops the run |
| RiskLabels.SummarizeClusters | risk_score/risk_score_pipeline.py:172-181 | every cluster gets an entry whatever the other clusters' calls did; each entry is that cluster's summary |
| RiskLabels.LabelMap | risk_score/risk_score_pipeline.py:189 | one label per summarised cluster, from `extract_label` |
| RiskLabels.ClusterLabel | risk_score/risk_score_pipeline.py:190 | a cluster in the label map gets its own label, any other cluster the MEDIUM fill; so the label is always one the map holds or MEDIUM |
| RiskLabels.PropagateLabels | risk_score/risk_score_pipeline.py:190 | one label per row: its cluster's label, MEDIUM when the cluster has none |
| RiskLabels.SameClusterSameLabel | risk_score/risk_score_pipeline.py:190 | rows of one cluster share one label |
| RiskLabels.RowLabelFromSummary | risk_score/risk_score_pipeline.py:173-190 | end to end, a row's label is the label of its cluster's summary; a failed or empty call gives MEDIUM |
| RiskLabels.SampleSize | risk_score/risk_score_pipeline.py:125 | the sample is `min(len(sub), samples_per_cluster)` |
| RiskLabels.RowsOf | risk_score/risk_score_pipeline.py:148 | the rows of a `groupby` group: exactly the rows of that cluster, in frame order |
| RiskLabels.ClusterDiagnostics | risk_score/risk_score_pipeline.py:146-155 | one entry per cluster present; label from the map or MEDIUM; size exactly the number of the cluster's rows; examples exactly the cluster's first three rows in frame order (fewer when the cluster is smaller) |
| RiskLabels.DiagnosticOf | risk_score/risk_score_pipeline.py:149-155 | one cluster's entry: its label, `len(sub)` as its size, and `sub.head(3)` as its examples |
| RiskLabels.RowsOfCount | risk_score/risk_score_pipeline.py:148-153 | a cluster's group has as many rows as the cluster id occurs in the frame |
| RiskLabels.RowsOfBound | risk_score/risk_score_pipeline.py:148-153 | a cluster never has more rows than the frame |
| RiskLabels.LabelCode | risk_score/risk_score_pipeline.py:263 | LOW, MEDIUM and HIGH encode as 0, 1, 2 |
| RiskLabels.CodeLabel | risk_score/risk_score_pipeline.py:314 | class indices below 3 name LOW, MEDIUM, HIGH; others name nothing |
| RiskLabels.LabelCodeRoundTrip | risk_score/risk_score_pipeline.py:263 | encoding and the report's class order are inverse to each other |
| RiskLabels.Misclassified | risk_score/risk_score_pipeline.py:345 | exactly the test rows whose prediction differs from the encoded truth, in order |
| RiskFeatures.SubSpaceRuns | risk_score/risk_score_pipeline.py:73 | after `re.sub(r"\s+", "_")` no white space is left |
| RiskFeatures.SubUnsafe | risk_score/risk_score_pipeline.py:74 | each character outside [0-9a-z_] becomes "_", all others are kept |
| RiskFeatures.SqueezeUnderscores | risk_score/risk_score_pipeline.py:75 | `_+` to `_` keeps only characters of the input, is empty iff the input is, and keeps whether it starts with "_" |
| RiskFeatures.SqueezeNoDouble | risk_score/risk_score_pipeline.py:75 | the squeezed text contains no "__" |
| RiskFeatures.SqueezeNoop | risk_score/risk_score_pipeline.py:75 | text without "__" is left unchanged |
| RiskFeatures.SubSpaceRunsNoop | risk_score/risk_score_pipeline.py:73 | text without white space is left unchanged |
| RiskFeatures.SafeName | risk_score/risk_score_pipeline.py:70-78 | the result is non-empty, uses only [0-9a-z_] and contains no "__" |
| RiskFeatures.SafeNameIdempotent | risk_score/risk_score_pipeline.py:70-78 | `safe_name(safe_name(s)) == safe_name(s)` |
| RiskFeatures.SafeNameFixed | risk_score/risk_score_pipeline.py:70-78 | a non-empty name over [0-9a-z_] without "__" is its own safe name |
| RiskFeatures.LowerSafe | risk_score/risk_score_pipeline.py:72 | lowering leaves [0-9a-z_] text unchanged |
| RiskFeatures.SubUnsafeSafe | risk_score/risk_score_pipeline.py:74 | the unsafe-character substitution leaves [0-9a-z_] text unchanged |
| RiskFeatures.DupNameInjective | risk_score/risk_score_pipeline.py:89-92 | different counters give different "__dup" names |
| RiskFeatures.NextDup | risk_score/risk_score_pipeline.py:88-92 | the counter moves past the last one used; the result has not been seen; every counter skipped had been seen |
| RiskFeatures.MakeUnique | risk_score/risk_score_pipeline.py:80-95 | same length; pairwise distinct; a name not output before is kept; a repeat becomes `name + "__dup" + k` with k >= 1 |
| RiskFeatures.UniqueStep | risk_score/risk_score_pipeline.py:83-94 | appending the admitted name keeps the output distinct and `seen` equal to the names output |
| RiskFeatures.Admit | risk_score/risk_score_pipeline.py:84-93 | a new name is kept, a repeat gets a "__dup" name; the result was not seen and is added to `seen` |
| RiskFeatures.LaterDupShrinks | risk_score/risk_score_pipeline.py:90-92 | each turn of the `while new in seen` loop leaves fewer seen candidates ahead, so the loop terminates |
| RiskFeatures.TfidfColumns | risk_score/risk_score_pipeline.py:240 | `tfidf_0` .. `tfidf_{w-1}`, in order |
| RiskFeatures.CategoryColumnPrefix | risk_score/risk_score_pipeline.py:251-254 | every one-hot name starts with "col" |
| RiskFeatures.CategoryBlock | risk_score/risk_score_pipeline.py:252-254 | one name per category of a column |
| RiskFeatures.RawCategoryNames | risk_score/risk_score_pipeline.py:249-254 | the loop builds `col{i}__{safe_name(cat)}` for every category of every column, in order, each starting with "col" |
| RiskFeatures.AppendCategoryBlock | risk_score/risk_score_pipeline.py:251-254 | the inner loop appends one column's names after what is already there |
| RiskFeatures.CategoryBlockSnoc | risk_score/risk_score_pipeline.py:252-254 | one more category adds one name at the end |
| RiskFeatures.RawCategoryColumnsSnoc | risk_score/risk_score_pipeline.py:250-254 | one more column adds its block at the end |
| RiskFeatures.RawCategoryColumnsAt | risk_score/risk_score_pipeline.py:249-254 | the name of category j of column c sits after the names of the earlier columns and is `col{c}__{safe_name(cat)}` |
| RiskFeatures.RawCategoryColumnsLast | risk_score/risk_score_pipeline.py:250-254 | helper: the names of the last column follow those of the others |
| RiskFeatures.RawCategoryColumnsPrefix | risk_score/risk_score_pipeline.py:250-254 | helper: the names built for the first columns stay a prefix as later columns are added |
| RiskFeatures.CategoricalFeatureNames | risk_score/risk_score_pipeline.py:249-256 | `make_unique` of the `col{i}__{safe_name(cat)}` names: one name per category, pairwise distinct, each starting with "col"; the raw name where it is new, one of its "__dup" forms where it repeats |
| RiskFeatures.DupKeepsPrefix | risk_score/risk_score_pipeline.py:89 | a "__dup" name keeps the "col" prefix of its base name |
| RiskFeatures.TrainFeatureColumns | risk_score/risk_score_pipeline.py:229-261 | the four numeric columns, `patient_age`, the TF-IDF columns, then `feature_names_cat` (each the raw one-hot name where new, a "__dup" form where repeated); all distinct |
| RiskFeatures.TestFeatureColumns | risk_score/risk_score_pipeline.py:289-305 | the test matrix uses the same layout with the fitted width and the training `feature_names_cat` |
| RiskFeatures.TrainTestColumnsAgree | risk_score/risk_score_pipeline.py:260-305 | building the training matrix and then the test matrix gives equal column lists, with no repeat, of length 5 + width + number of categories |
| RiskFeatures.LayoutDistinct | risk_score/risk_score_pipeline.py:229-260 | the combined layout has no repeated column name |
| RiskFeatures.LayoutPair | risk_score/risk_score_pipeline.py:229-260 | any two positions of the layout hold different names |
| OllamaReply.In | risk_score/llm_client.py:77-81 | `key in data`: dict membership for a dict; raises exactly for null, booleans and numbers |
| OllamaReply.GetItem | risk_score/llm_client.py:80-82 | `data[key]` answers exactly when `data` is a dict holding the key, with that value |
| OllamaReply.Get | risk_score/llm_client.py:78-85 | `.get(key, default)` answers exactly on a dict: the value, or the default when the key is absent |
| OllamaReply.First | risk_score/llm_client.py:82 | `[0]` answers exactly on a non-empty list or string |
| OllamaReply.PickText | risk_score/llm_client.py:106-115 | `chat_code` picks no text exactly when neither "message" nor "response" is in the response and "choices" is not either |
| OllamaReply.PickChoice | risk_score/llm_client.py:110-115 | a value only for a dict with "choices"; a first choice without "message" gives its "text" (default ""); one with "message" gives a value iff that message is a dict |
| OllamaReply.Dispatch | risk_score/llm_client.py:77-87 | the `str(data)` fallback renders the response itself |
| OllamaReply.DispatchMessageFirst | risk_score/llm_client.py:77-78 | a dict `message` answers first with its `content`, default "", whatever else is present |
| OllamaReply.DispatchResponseSecond | risk_score/llm_client.py:79-80 | without `message`, `response` is returned as it is |
| OllamaReply.DispatchChoicesThird | risk_score/llm_client.py:81-85 | next, the first choice's `message.content`, else its `text`, default "" |
| OllamaReply.DispatchEmptyChoicesRaises | risk_score/llm_client.py:82 | an empty `choices` list raises |
| OllamaReply.DispatchFallsBackToStr | risk_score/llm_client.py:87 | a dict with none of the three keys is rendered with `str` |
| OllamaReply.DispatchScalarRaises | risk_score/llm_client.py:77 | a bare number or boolean response raises at the `in` test |
| OllamaReply.FindOpener | risk_score/llm_client.py:127 | the first position from `from` on where the opening fence matches; none exactly when no position matches |
| OllamaReply.FenceMatch | risk_score/llm_client.py:127-132 | the non-greedy `re.search` match: a fenced span, leftmost, and the closer nearest its opener; none exactly when no span matches |
| OllamaReply.ExtractPythonCode | risk_score/llm_client.py:122-136 | "" for a non-string; else the stripped inside of the first python fence (any case); else of the first plain fence; else the stripped text |
| OllamaReply.ExtractFromText | backend/llm_client.py:172-178 | the extracted code has no white space at either end |
| OllamaReply.StripEnds | risk_score/llm_client.py:129-136 | `strip()` leaves no white space at either end |
| OllamaReply.ChatCode | risk_score/llm_client.py:93-117 | "" when the post failed, the response is falsy or no known key is present; otherwise the code extracted from the picked text |
| OllamaReply.FencedCodeRoundTrip | risk_score/llm_client.py:126-129 | code placed in a python fence after text without a fence comes back stripped |
| OllamaReply.PythonFenceFound | risk_score/llm_client.py:127 | the regex finds exactly that fence around that body |
| OllamaReply.PythonFenceLower | risk_score/llm_client.py:127 | the python opener is its own lower-case form |
| OllamaReply.NoOpenerBefore | risk_score/llm_client.py:127 | no opener starts inside fence-free text before the fence |
| OllamaReply.NoCloserWithin | risk_score/llm_client.py:127 | no closer starts inside a fence-free body |
| OllamaReply.FencedPieces | risk_score/llm_client.py:127 | the pieces of a fenced text are where they were put |
| OllamaReply.FenceMatchAt | risk_score/llm_client.py:127 | the leftmost opener with the nearest closer is the match |
| OllamaReply.NoOpenerInPrefix | risk_score/llm_client.py:127 | an opener inside the prefix would need a fence in it |
| OllamaReply.NoCloserInBody | risk_score/llm_client.py:127 | a closer inside the body would need a fence in it or a body ending in a backtick |
| RiskLlmClient.Ask | risk_score/llm_client.py:61-87 | "" when the post failed or the response is falsy; otherwise the shape dispatch |
| RiskLlmClient.SummarizeCluster | risk_score/llm_client.py:141-169 | `ask`'s reply unchanged, so "" when the post failed |
| RiskLlmClient.AskRendersWhereChatCodeIsEmpty | risk_score/llm_client.py:87-117 | a non-empty response with no known key: `ask` renders it, `chat_code` returns "" |
| BackendLlmClient.BuildSystemPrompt | backend/llm_client.py:61-102 | data mode iff a data keyword occurs; EMS mode iff no data keyword but an EMS keyword; general mode iff neither |
| BackendLlmClient.BuildSystemPromptCaseBlind | backend/llm_client.py:62 | the mode does not depend on letter case |
| BackendLlmClient.IncidentCountIsData | backend/llm_client.py:65-84 | "incident count" also holds the EMS keyword "incident", yet selects data mode |
| BackendLlmClient.Ask | backend/llm_client.py:107-140 | the fixed apology when the post failed or the response is falsy; otherwise the shape dispatch |
| BackendLlmClient.EmptyContentIsNotFallback | backend/llm_client.py:126-131 | an empty model reply comes back as "", not as the apology |
| BackendMain.DetectIntent | backend/main.py:177-197 | greeting iff the lowered message is a greeting word; each later intent iff its keyword group is hit and no earlier group is; chat otherwise |
| BackendMain.DetectIntentCaseBlind | backend/main.py:178 | the intent does not depend on letter case |
| BackendMain.HourIsOperational | backend/main.py:183-185 | a message mentioning "hour" is operational whatever else it says |
| BackendMain.ComputeNeverSeesAverageOrHour | backend/main.py:183-194 | a compute-intent message never holds "average", "patients" or "hour", because earlier groups catch them |
| BackendMain.NotContainsSuperstring | backend/main.py:186-191 | helper: lacking a keyword means lacking every word that holds it |
| BackendMain.Hits | backend/main.py:166-171 | a name is a hit iff some protocol whose key holds one of the terms bears it |
| BackendMain.Candidates | backend/main.py:164-171 | every name the nested loops reach is the name of some protocol; nothing is reached when no keyword entry fires |
| BackendMain.FiredHits | backend/main.py:166-169 | what one keyword entry adds: nothing when it does not fire, otherwise names that are all protocol names |
| BackendMain.CandidatesMeaning | backend/main.py:164-171 | a name is reached iff some fired keyword entry has a related term held by that protocol's key |
| BackendMain.AddNew | backend/main.py:170-171 | appending only names not yet present keeps the list as a prefix and holds exactly the old names and the new ones |
| BackendMain.AddNewSpec | backend/main.py:170-171 | appending only names not yet present keeps the list repeat-free, keeps its prefix, and holds exactly the old names and the new ones |
| BackendMain.AddNewSnoc | backend/main.py:170-171 | appending one more name is one more step of the same rule |
| BackendMain.HitsSnoc | backend/main.py:166-171 | the hits over one more protocol extend the hits before it |
| BackendMain.CandidatesSnoc | backend/main.py:164-171 | the candidates over one more keyword entry extend the candidates before it |
| BackendMain.AddHits | backend/main.py:166-171 | the inner loop leaves exactly the de-duplicated list of the earlier names followed by this entry's hits |
| BackendMain.CollectMatches | backend/main.py:164-171 | the nested loops leave the de-duplicated candidate list in first-seen order |
| BackendMain.CollectEntry | backend/main.py:165-171 | one round of the outer loop extends the de-duplicated list from the entries before it to the entries up to this one |
| BackendMain.RetrieveRelevantProtocols | backend/main.py:131-173 | the result is the first top_k de-duplicated candidates, has no repeats, and holds only candidates |
| BackendMain.NoProtocolsNoHits | backend/main.py:164-173 | with no protocols loaded nothing is found |
| BackendMain.GetDataset | backend/main.py:439-445 | fails iff limit is 0; otherwise the rows of slice [(page-1)*limit, page*limit) with Python's negative-index clamping, at most limit of them, and the row count; for a positive limit the page count is the ceiling of rows/limit (0 for an empty frame), for a negative limit the floor of (rows+limit-1)/limit |
| BackendMain.RowOnItsPage | backend/main.py:440-444 | row i is at position i mod limit of page i div limit + 1, and that page is within the page count |
| BackendMain.PageOfRow | backend/main.py:440 | helper: division and remainder of a row index by the page size |
| BackendMain.StartOfPage | backend/main.py:440 | helper: the start offset of page p+1 is p*limit |
| BackendMain.PageWithinTotal | backend/main.py:443 | helper: a page holding a row is not past the page count |
| BackendMain.MulMonotone | backend/main.py:443 | helper: multiplying by a positive page size keeps order |
| BackendMain.ZeroLimitRaises | backend/main.py:443 | a zero page size makes the endpoint fail |
| BackendMain.SkipSpaces | backend/main.py:245 | the first non-white-space position at or after i, skipping only white space |
| BackendMain.SkipDigits | backend/main.py:245 | the first non-digit position at or after i, skipping only digits |
| BackendMain.FindTop | backend/main.py:245 | the leftmost position where "top", white space and a digit begin, or none when no position matches |
| BackendMain.TopLimit | backend/main.py:245-246 | 10 when no "top N" occurs (the value of a match is stated by TopLimitRoundTrip) |
| BackendMain.TopLimitRoundTrip | backend/main.py:243-246 | writing "top N" into a question that has no earlier "top" and no digit right after N gives back N |
| BackendMain.NoTopMatchInPrefix | backend/main.py:245 | helper: no match starts in text without "top" that is followed by "top" |
| BackendMain.TopMatchHere | backend/main.py:245 | helper: "top", a space and a digit at a position match there |
| BackendMain.TailParts | backend/main.py:245 | helper: the characters of "top " followed by digits |
| BackendMain.TopMatchFromParts | backend/main.py:245 | helper: the match predicate from its characters |
| BackendMain.DigitsFollow | backend/main.py:245 | helper: the digit run after "top " ends where the digits end |
| BackendMain.SkipDigitsOver | backend/main.py:245 | helper: skipping digits stops right after a known digit run |
| BackendMain.TopLimitDefault | backend/main.py:243-246 | a question with one "top" not followed by a number (such as "what are the top impressions") asks for 10 rows |
| BackendMain.HowManySearchTerm | backend/main.py:255 | the search term is no longer than the question and has no white space at either end |
| BackendMain.HowManyOfTerm | backend/main.py:252-255 | for "how many " followed by a term holding none of the four phrases, the search term is that term trimmed |
| BackendMain.ConsAbsent | backend/main.py:255 | helper: a character unlike the phrase's first one adds no occurrence in front |
| BackendMain.ChatRouting | backend/main.py:350-354 | the fixed greeting iff the trimmed message is empty; otherwise the trimmed message and its intent |
| BackendMain.BlankMessageGreets | backend/main.py:350-352 | a message of white space only gets the fixed greeting |
| BackendMain.RoutedMessageIsTrimmed | backend/main.py:350-354 | the classifier only sees a non-empty message without white space at either end |
| OpEfficiency.Survivors | backend/op_efficiency/op_efficiency_pipeline.py:78-82 | a row survives the first k stages iff it is in the input and passes the core-duration presence check and the first k range filters |
| OpEfficiency.DropNaIsFirstStage | backend/op_efficiency/op_efficiency_pipeline.py:78-79 | dropping rows with a missing core duration is stage 0 of the pipeline |
| OpEfficiency.FilterStep | backend/op_efficiency/op_efficiency_pipeline.py:80-82 | one more range filter takes the survivors of k stages to those of k+1 |
| OpEfficiency.KeepInWindowConcat | backend/op_efficiency/op_efficiency_pipeline.py:82 | a range filter distributes over concatenated frames |
| OpEfficiency.LoadData | backend/op_efficiency/op_efficiency_pipeline.py:78-84 | the kept rows are the survivors of all stages, and a row is kept iff it has all four durations, each in [0, 300] |
| OpEfficiency.MissingTurnoutDropped | backend/op_efficiency/op_efficiency_pipeline.py:80-82 | a row with no turnout time is dropped, though turnout is not a core duration (NaN fails the range test) |
| OpEfficiency.EmptyKpis | backend/op_efficiency/op_efficiency_pipeline.py:88-93 | an empty frame gives exactly the nine KPI keys, each None |
| OpEfficiency.DelayColumn | backend/op_efficiency/op_efficiency_pipeline.py:229-230 | one non-negative delay per row; a positive delay is the response time minus the SLA; a delay is positive iff the response exceeds the SLA |
| OpEfficiency.CountIn | backend/op_efficiency/op_efficiency_pipeline.py:242-245 | a bucket's count is at most the number of delays |
| OpEfficiency.BucketsOf | backend/op_efficiency/op_efficiency_pipeline.py:238-248 | five buckets in label order, bucket i counting the late delays in [edge i, edge i+1) |
| OpEfficiency.ComputeDelayBuckets | backend/op_efficiency/op_efficiency_pipeline.py:224-248 | nothing, and the frame untouched, for an empty frame or one without a response column; otherwise the frame gains the delay column and the five bucket counts are returned |
| OpEfficiency.CountInSplit | backend/op_efficiency/op_efficiency_pipeline.py:238-242 | splitting a half-open interval splits its count |
| OpEfficiency.CountInFromZero | backend/op_efficiency/op_efficiency_pipeline.py:233-242 | counting late delays from 0 counts every late delay below the upper edge |
| OpEfficiency.BucketsPartitionLateRows | backend/op_efficiency/op_efficiency_pipeline.py:233-248 | the five counts add up to the late delays below 999 minutes; a longer delay falls in no bucket |
| OpEfficiency.NoLateRowsNoCounts | backend/op_efficiency/op_efficiency_pipeline.py:234-235 | with no late row every bucket count is 0, matching the early return |
| OpEfficiency.DelayedCount | backend/op_efficiency/op_efficiency_pipeline.py:312 | the delayed rows are at most all rows |
| OpEfficiency.HourCount | backend/op_efficiency/op_efficiency_pipeline.py:323-326 | an hour's count is at most the number of delayed rows |
| OpEfficiency.OccupiedHours | backend/op_efficiency/op_efficiency_pipeline.py:326 | hours in increasing order, each with its positive delayed count |
| OpEfficiency.OccupiedHoursComplete | backend/op_efficiency/op_efficiency_pipeline.py:326 | every hour with a delayed call is listed |
| OpEfficiency.Render | backend/op_efficiency/op_efficiency_pipeline.py:333-339 | one "HH:00" entry with its count per ranked hour, in rank order |
| OpEfficiency.RenderSnoc | backend/op_efficiency/op_efficiency_pipeline.py:334-339 | rendering one more hour appends its entry |
| OpEfficiency.ComputePeakDelayHours | backend/op_efficiency/op_efficiency_pipeline.py:296-346 | the fixed empty answer for an empty frame, a missing column or no delayed row; otherwise the ranked hours, worst = first, best = last, and the delayed-row total |
| OpEfficiency.RankedHoursSpec | backend/op_efficiency/op_efficiency_pipeline.py:326 | the ranking is non-increasing by count, every count is positive, and an hour is listed with its count iff it has a delayed call |
| OpEfficiency.RankedHours | backend/op_efficiency/op_efficiency_pipeline.py:326 | the hours ranked largest delayed count first, each with its own positive count |
| OpEfficiency.WorstAndBestHours | backend/op_efficiency/op_efficiency_pipeline.py:329-330 | the worst hour's count is the largest and the best hour's the smallest among hours with delayed calls |
| OpEfficiency.PeakHourLabelsDistinct | backend/op_efficiency/op_efficiency_pipeline.py:333-339 | no hour label is listed twice |
| OpEfficiency.HourLabelDiffers | backend/op_efficiency/op_efficiency_pipeline.py:336 | distinct hours get distinct "HH:00" labels |
| OpEfficiency.SumHoursStep | backend/op_efficiency/op_efficiency_pipeline.py:326 | helper: peeling the first row off the per-hour sum |
| OpEfficiency.HourCountsAddUp | backend/op_efficiency/op_efficiency_pipeline.py:326-345 | the per-hour counts add up to the delayed rows with a known hour |
| OpEfficiency.SumHoursOfNothing | backend/op_efficiency/op_efficiency_pipeline.py:326 | helper: no rows, no counts |
| RiskByHourLocation.FillRiskLabels | backend/op_efficiency/risk_by_hour_location.py:66-70 | every row gets a label: its own when the column exists and the value is present, "MEDIUM" otherwise; nothing else in the frame changes |
| RiskByHourLocation.FilledLabelsPresent | backend/op_efficiency/risk_by_hour_location.py:66-70 | after the fill no label is missing |
| RiskByHourLocation.DropNaHourLabel | backend/op_efficiency/risk_by_hour_location.py:85 | a row is kept iff it was in the frame and has both an hour and a label |
| RiskByHourLocation.At | backend/op_efficiency/risk_by_hour_location.py:89 | an hour's rows are among all rows |
| RiskByHourLocation.CountLabel | backend/op_efficiency/risk_by_hour_location.py:94-96 | a label's count is at most the number of rows |
| RiskByHourLocation.CountDelayed | backend/op_efficiency/risk_by_hour_location.py:102 | the late count is at most the number of rows |
| RiskByHourLocation.LabelCountsBounded | backend/op_efficiency/risk_by_hour_location.py:93-96 | the HIGH, MEDIUM and LOW counts together never exceed the row count |
| RiskByHourLocation.AtCount | backend/op_efficiency/risk_by_hour_location.py:89-93 | an hour's selection has as many rows as carry that hour |
| RiskByHourLocation.WithHour | backend/op_efficiency/risk_by_hour_location.py:85-89 | the rows with an hour are among all rows |
| RiskByHourLocation.SumAtStep | backend/op_efficiency/risk_by_hour_location.py:88-89 | helper: peeling the first row off the per-hour sum |
| RiskByHourLocation.SumAtEmpty | backend/op_efficiency/risk_by_hour_location.py:88-89 | helper: no rows, no counts |
| RiskByHourLocation.HoursPartitionRows | backend/op_efficiency/risk_by_hour_location.py:88-93 | every row with an hour falls in exactly one of the 24 hours |
| RiskByHourLocation.HourLabelRoundTrip | backend/op_efficiency/risk_by_hour_location.py:106-118 | the sort key parsed from "HH:00" is the hour that was formatted |
| RiskByHourLocation.SortKeyIsHour | backend/op_efficiency/risk_by_hour_location.py:118 | sorting by the parsed label is sorting by hour |
| RiskByHourLocation.HourEntries | backend/op_efficiency/risk_by_hour_location.py:88-115 | the entries are for hours below the bound, strictly ascending |
| RiskByHourLocation.HourEntriesContents | backend/op_efficiency/risk_by_hour_location.py:88-115 | each entry holds the counts of its own hour, which has rows, and every hour with rows has its entry |
| RiskByHourLocation.HourEntriesSnoc | backend/op_efficiency/risk_by_hour_location.py:88-115 | one more hour appends its entry iff it has rows |
| RiskByHourLocation.ComputeRiskByHour | backend/op_efficiency/risk_by_hour_location.py:78-119 | the loop over hours 0..23 returns the per-hour entries: nothing for an empty frame or a missing hour or label column, a KeyError when rows exist but the response column does not |
| RiskByHourLocation.RiskByHourEntries | backend/op_efficiency/risk_by_hour_location.py:93-118 | every listed hour has rows, its label counts and late count stay within its total, and the hours ascend |
| RiskByHourLocation.RiskByHourCoversHours | backend/op_efficiency/risk_by_hour_location.py:85-115 | every hour that has rows with an hour and a label is listed |
| RiskByHourLocation.RiskByHour | backend/op_efficiency/risk_by_hour_location.py:78-119 | empty without rows, an hour column or a label column; raises only when the response column is missing; every hour listed has rows |
| RiskByHourLocation.RiskByLocation | backend/op_efficiency/risk_by_hour_location.py:121-151 | empty without rows, a city column or a label column; raises only when the response column is missing; cities come largest HIGH count first |
| RiskByHourLocation.PeakRiskHours | backend/op_efficiency/risk_by_hour_location.py:153-213 | the default without rows, an hour column or a label column; raises only when the response column is missing; a worst hour is named exactly when some window exists |
| RiskByHourLocation.StrLtIrreflexive | backend/op_efficiency/risk_by_hour_location.py:130 | Python's string order is irreflexive |
| RiskByHourLocation.StrLtTrans | backend/op_efficiency/risk_by_hour_location.py:130 | Python's string order is transitive |
| RiskByHourLocation.StrLtTotal | backend/op_efficiency/risk_by_hour_location.py:130 | Python's string order is total on distinct strings |
| RiskByHourLocation.InsertCity | backend/op_efficiency/risk_by_hour_location.py:130 | inserting a city keeps the key list strictly ascending and adds exactly that city |
| RiskByHourLocation.InsertCityFront | backend/op_efficiency/risk_by_hour_location.py:130 | helper: a city smaller than the head goes first |
| RiskByHourLocation.AscendingCons | backend/op_efficiency/risk_by_hour_location.py:130 | helper: a smallest element in front keeps the list ascending |
| RiskByHourLocation.Cities | backend/op_efficiency/risk_by_hour_location.py:127-130 | the groupby keys: strictly ascending, and exactly the cities of rows with a non-empty city and a label |
| RiskByHourLocation.CityRows | backend/op_efficiency/risk_by_hour_location.py:130 | a city's group is among the rows |
| RiskByHourLocation.CityEntries | backend/op_efficiency/risk_by_hour_location.py:130-147 | one entry per city, in key order |
| RiskByHourLocation.ComputeRiskByLocation | backend/op_efficiency/risk_by_hour_location.py:121-151 | the loop's entries sorted by HIGH count descending, cities with equal HIGH counts in ascending order (stable sort); label counts within each total |
| RiskByHourLocation.CityListed | backend/op_efficiency/risk_by_hour_location.py:127-147 | a city's entry is listed iff the city has a row with a label |
| RiskByHourLocation.HighRows | backend/op_efficiency/risk_by_hour_location.py:167-170 | the HIGH rows all have an hour and the HIGH label |
| RiskByHourLocation.Windows | backend/op_efficiency/risk_by_hour_location.py:182-198 | the windows are for hours below the bound, strictly ascending |
| RiskByHourLocation.WindowsContents | backend/op_efficiency/risk_by_hour_location.py:182-198 | each window holds its hour's counts, which are positive, and every hour with HIGH rows has its window |
| RiskByHourLocation.WindowsSnoc | backend/op_efficiency/risk_by_hour_location.py:182-198 | one more hour appends its window iff it has HIGH rows |
| RiskByHourLocation.PeakRiskKeys | backend/op_efficiency/risk_by_hour_location.py:158-213 | four keys on the early returns, five with the delayed-HIGH share otherwise |
| RiskByHourLocation.ComputePeakRiskHours | backend/op_efficiency/risk_by_hour_location.py:153-213 | the default for an empty frame, a missing column or no HIGH row; otherwise the windows in hour order, the first window's hour as worst, and the HIGH and late HIGH totals |
| RiskByHourLocation.WindowKeyIsHour | backend/op_efficiency/risk_by_hour_location.py:201 | sorting windows by the parsed label is sorting by hour |
| RiskByHourLocation.WorstHourIsEarliest | backend/op_efficiency/risk_by_hour_location.py:201-203 | the "worst" hour is the earliest hour with a HIGH incident, whatever the counts |
| RiskByHourLocation.PeakRiskTotals | backend/op_efficiency/risk_by_hour_location.py:188-205 | the late HIGH total is within the HIGH total, and each window's late count within its HIGH count |
| RiskByHourLocation.WindowsSumTo | backend/op_efficiency/risk_by_hour_location.py:182-187 | the window counts add up to the HIGH rows of the hours covered |
| RiskByHourLocation.HighRowsHaveHours | backend/op_efficiency/risk_by_hour_location.py:167-170 | every HIGH row has an hour |
| RiskByHourLocation.WindowCountsAddUp | backend/op_efficiency/risk_by_hour_location.py:182-204 | the window counts add up to the HIGH total |
| HotspotTable.CityOf | backend/geospatial/hotspot_table.py:24-31 | a city found for a cell is the city of some incident row of that cell |
| HotspotTable.CityIsFirstRows | backend/geospatial/hotspot_table.py:24 | `drop_duplicates` keeps the first row of a cell, so the cell gets that row's city |
| HotspotTable.UnmatchedCellHasNoCity | backend/geospatial/hotspot_table.py:27-31 | a cell with no incident row gets no city from the left merge |
| HotspotTable.Merge | backend/geospatial/hotspot_table.py:27-31 | the left merge keeps every aggregate row in order and adds its cell's city |
| HotspotTable.TopCells | backend/geospatial/hotspot_table.py:34 | at most top_n merged rows, largest incident count first, drawn from the merge without repeats beyond it |
| HotspotTable.Ranked | backend/geospatial/hotspot_table.py:35-43 | one output row per kept row, ranked 1..n, with the renamed columns |
| HotspotTable.GenerateHotspotTable | backend/geospatial/hotspot_table.py:24-43 | top_n rows (or all, if fewer) for a non-negative top_n, never more than the cells; ranks 1..n; incident counts non-increasing; each row carries its cell's first city |
| HotspotTable.TopCellsOrdered | backend/geospatial/hotspot_table.py:34 | the kept rows come largest first, each with the city of its own cell |
| HotspotTable.TableRowsFromCells | backend/geospatial/hotspot_table.py:27-43 | the kept rows are a sub-multiset of the merged rows, and the table is their ranking |
| HotspotTable.LeftOutCellsAreNotBusier | backend/geospatial/hotspot_table.py:34 | no merged row left out of the table has more incidents than a row kept |
| RagPipeline.Windows | risk_score/rag_store/rag_pipeline.py:126-133 | the loop's first window starts at the start and ends at min(start + chunk_size, len) |
| RagPipeline.WindowsInText | risk_score/rag_store/rag_pipeline.py:128-129 | every window lies inside the text and is non-empty |
| RagPipeline.WindowsAtMostChunkSize | risk_score/rag_store/rag_pipeline.py:129 | every window is at most chunk_size long |
| RagPipeline.WindowsAdvance | risk_score/rag_store/rag_pipeline.py:131 | window starts strictly increase, so the loop terminates |
| RagPipeline.WindowsReachEnd | risk_score/rag_store/rag_pipeline.py:128-133 | with a non-negative overlap the last window ends at the end of the text |
| RagPipeline.WindowsOverlap | risk_score/rag_store/rag_pipeline.py:131 | with a non-negative overlap each window starts no later than the previous one ends |
| RagPipeline.WindowsCoverText | risk_score/rag_store/rag_pipeline.py:128-133 | with a non-negative overlap every position of the text lies in some window |
| RagPipeline.ShortTextGivesTwoWindows | risk_score/rag_store/rag_pipeline.py:128-133 | a text longer than the overlap but within one chunk is cut twice: the whole text, then its last overlap characters |
| RagPipeline.ThousandCharacterPage | risk_score/rag_store/rag_pipeline.py:123-133 | with the default settings a 1000-character page gives the windows [0,1000) and [600,1000) |
| RagPipeline.TextsOf | risk_score/rag_store/rag_pipeline.py:130 | one cleaned slice per window, in order |
| RagPipeline.ChunksAreWindowTexts | risk_score/rag_store/rag_pipeline.py:126-134 | the loop's chunks are the cleaned texts of the windows, in order |
| RagPipeline.ChunkText | risk_score/rag_store/rag_pipeline.py:123-134 | `chunk_text`: nothing for a missing or empty text, otherwise the loop's chunks |
| RagPipeline.Chunks | risk_score/rag_store/rag_pipeline.py:123-134 | nothing for a missing or empty text; otherwise at least one chunk, none longer than chunk_size |
| RagPipeline.ChunkLoop | risk_score/rag_store/rag_pipeline.py:126-134 | the `while` loop yields the chunks of every window from 0 |
| RagPipeline.ChunkOnce | risk_score/rag_store/rag_pipeline.py:129-133 | one turn moves the chunk at the start from what is left to what is done and advances the start |
| RagPipeline.ChunksFromStep | risk_score/rag_store/rag_pipeline.py:129-133 | helper: the chunks from a start are its chunk followed by the chunks from the next start |
| RagPipeline.ChunksOfText | risk_score/rag_store/rag_pipeline.py:123-134 | the chunks of a non-empty text are the stripped texts of its windows |
| RagPipeline.DigitSuffixLen | risk_score/rag_store/rag_pipeline.py:146 | the trailing digit run is no longer than the string |
| RagPipeline.DigitSuffixLenOf | risk_score/rag_store/rag_pipeline.py:146 | helper: after a non-digit the trailing digits are exactly the final run |
| RagPipeline.DigitSuffixSplit | risk_score/rag_store/rag_pipeline.py:146 | helper: a separator followed by digits splits a string one way only |
| RagPipeline.ChunkIdInjective | risk_score/rag_store/rag_pipeline.py:146 | a chunk id determines its document, page and position, even when the document id holds "_p" or "_c" |
| RagPipeline.ChunkId | risk_score/rag_store/rag_pipeline.py:146 | the id starts with the document id and ends with the chunk's position in decimal |
| RagPipeline.Named | risk_score/rag_store/rag_pipeline.py:143-149 | one record per chunk text, numbered from 0, with the document, id, text and image path |
| RagPipeline.AppendPageChunks | risk_score/rag_store/rag_pipeline.py:143-149 | the innermost loop appends exactly the page's records |
| RagPipeline.PagesChunksSnoc | risk_score/rag_store/rag_pipeline.py:140-149 | one more page adds its records at the end |
| RagPipeline.ChunkPage | risk_score/rag_store/rag_pipeline.py:141-149 | one page: a missing text counts as "", then its chunks become records |
| RagPipeline.ChunkDoc | risk_score/rag_store/rag_pipeline.py:139-149 | the loop over one document's pages gives the pages' records in order |
| RagPipeline.AllChunksSnoc | risk_score/rag_store/rag_pipeline.py:138-149 | one more document adds its records at the end |
| RagPipeline.AllChunks | risk_score/rag_store/rag_pipeline.py:136-150 | every chunk record carries the id of one of the documents |
| RagPipeline.BuildChunksFromPdfs | risk_score/rag_store/rag_pipeline.py:136-150 | the records of every document, pages in order, chunks in order |
| RagPipeline.PageChunkIdsDistinct | risk_score/rag_store/rag_pipeline.py:146 | within a page no two chunks share an id |
| RagPipeline.EmptyPageHasNoChunks | risk_score/rag_store/rag_pipeline.py:141-142 | a page without text contributes no chunk |
| EdaGenerator.FoldAppend | eda/eda_generator_agent.py:115 | looping over two pieces of a reply is looping over the first, then the second |
| EdaGenerator.FoldSingle | eda/eda_generator_agent.py:115 | looping over one line is one step |
| EdaGenerator.Lookup | eda/eda_generator_agent.py:123 | `path_map.get`: a found path is stored under the name; nothing is found iff no key is the name |
| EdaGenerator.FirstFuzzy | eda/eda_generator_agent.py:126-129 | the path of the first entry whose basename and the name hold each other; none iff no entry does |
| EdaGenerator.ResolveCases | eda/eda_generator_agent.py:123-129 | an exact basename gives its (first) full path; a name that is already a full path is kept; otherwise the first fuzzy match, or the name itself |
| EdaGenerator.Resolve | eda/eda_generator_agent.py:123-129 | the key an interpretation is stored under is the name itself or one of the full paths |
| EdaGenerator.Interpretations | eda/eda_generator_agent.py:111-136 | a reply without an `END_INTERPRETATION` line records nothing |
| EdaGenerator.LookupFirst | eda/eda_generator_agent.py:123 | `get` answers with the first entry holding the key |
| EdaGenerator.Step | eda/eda_generator_agent.py:116-134 | only an END_INTERPRETATION line with an open block records anything; an ordinary line is collected iff a block is open, and ignored otherwise |
| EdaGenerator.GetInterpretations | eda/eda_generator_agent.py:111-136 | the parsing loop returns what the line-by-line parser records |
| EdaGenerator.BodyCollected | eda/eda_generator_agent.py:133-134 | inside an open block ordinary lines are collected in order |
| EdaGenerator.HeaderPlain | eda/eda_generator_agent.py:116-117 | a header line is its own strip |
| EdaGenerator.OpenStep | eda/eda_generator_agent.py:117-119 | a header line opens an empty block for the plot it names |
| EdaGenerator.PrefixCut | eda/eda_generator_agent.py:118 | removing the prefix from a header leaves the plot name |
| EdaGenerator.CloseStep | eda/eda_generator_agent.py:120-132 | the end marker records the block's joined, stripped text under the resolved name and closes it |
| EdaGenerator.CloseRun | eda/eda_generator_agent.py:120-132 | the same, as a run over one line |
| EdaGenerator.EndMarkerPlain | eda/eda_generator_agent.py:117-120 | the end marker is its own strip and is not a header |
| EdaGenerator.BlockLines | eda/eda_generator_agent.py:116 | stripping a well-formed block leaves its header and end marker alone |
| EdaGenerator.OpenBlockLines | eda/eda_generator_agent.py:116 | stripping an unclosed block leaves its header alone |
| EdaGenerator.InterpretationBlock | eda/eda_generator_agent.py:111-136 | round trip: a block in the requested format is recorded under its resolved name with its stripped lines joined by newlines |
| EdaGenerator.BlockRun | eda/eda_generator_agent.py:117-134 | the same round trip on already-stripped lines |
| EdaGenerator.UnclosedBlockDropped | eda/eda_generator_agent.py:115-136 | a block that is never closed records nothing |
| EdaGenerator.OpenRun | eda/eda_generator_agent.py:117-134 | after the header and ordinary lines the block is open and holds those lines |
| EdaGenerator.NoEndNoEntries | eda/eda_generator_agent.py:120 | without an END_INTERPRETATION line nothing is recorded |
| EdaGenerator.StepLists | eda/eda_generator_agent.py:175-185 | headers switch the list; a bullet goes to the current list, or nowhere before any header; every other line changes nothing |
| EdaGenerator.GetInsightsAndRecommendations | eda/eda_generator_agent.py:170-187 | the parsing loop returns the two lists the line-by-line parser builds |
| EdaGenerator.SectionCollected | eda/eda_generator_agent.py:180-185 | under a header, bullets are appended to that header's list in order |
| EdaGenerator.BeforeHeaderIgnored | eda/eda_generator_agent.py:180-185 | bullets before the first header reach neither list |
| EdaGenerator.InsightsRoundTrip | eda/eda_generator_agent.py:157-187 | round trip: a reply in the requested format gives back the two bullet lists |
| EdaGenerator.BulletItem | eda/eda_generator_agent.py:181 | an item written as "- " and its text gives back the text |
| EdaGenerator.Bullet | eda/eda_generator_agent.py:181 | a bullet's content is no longer than its line and has no white space at either end |
| EdaGenerator.InsightsAndRecommendations | eda/eda_generator_agent.py:170-187 | a reply without either header line gives two empty lists |
| EdaClean.Occurrences | eda/eda.py:25 | a count is at most the length and positive iff the value occurs |
| EdaClean.Without | eda/eda.py:25 | removing one value removes all its copies and keeps every other count |
| EdaClean.Keys | eda/eda.py:22-25 | each valid value once, and only those |
| EdaClean.Normalize | eda/eda.py:10-13 | the normalised value is no longer than its rendering, has no ASCII capital and no white space at either end |
| EdaClean.Tally | eda/eda.py:22-25 | every tally row is a valid value of the column with its exact, positive count |
| EdaClean.Top | eda/eda.py:25 | at most top_n rows, each a row of the tally |
| EdaClean.CleanTopCategories | eda/eda.py:8-25 | at most top_n rows, each a valid category seen at least once and at most once per value |
| EdaClean.TallyEntries | eda/eda.py:22-25 | the tally holds exactly the valid values with their counts, each once |
| EdaClean.TopShape | eda/eda.py:25 | the result is distinct rows of the tally, non-increasing by count, at most top_n of them |
| EdaClean.TopCounts | eda/eda.py:16-25 | no result key is an "unknown" spelling; each count is the key's positive occurrence count; keys are distinct |
| EdaClean.TopDominates | eda/eda.py:25 | a valid value left out of the result occurs no more often than any value in it |
| EdaClean.TallyHas | eda/eda.py:25 | every valid value has its row in the tally |
| EdaClean.TopComplete | eda/eda.py:25 | when top_n covers every valid value, every one is in the result |
| EdaClean.DistinctCountsBounded | eda/eda.py:25 | distinct occurrence counts add up to at most the length |
| EdaClean.TopTotal | eda/eda.py:8-25 | the result's counts add up to at most the column's length |
| EdaClean.NormalizeMissing | eda/eda.py:10-13 | a missing value renders as "nan", an "unknown" spelling |
| EdaClean.NanLower | eda/eda.py:13 | helper: lowering "nan" changes nothing |
| EdaClean.MissingDropped | eda/eda.py:10-22 | missing values are never counted |
| EdaClean.ColumnCounts | eda/eda.py:8-25 | each result key is the normalised form of some value of the column, counted exactly |
| CleaningLlmClient.Unfenced | cleaning/llm_client.py:11-18 | the body of the first ```python fence (any letter case) if there is one, else of the first plain fence, else the text itself |
| CleaningLlmClient.CodeOf | cleaning/llm_client.py:6-30 | "" for a non-string; otherwise a result without white space at either end (no short comment line is stated by CodeHasNoShortCommentLine) |
| CleaningLlmClient.CodeHasNoShortCommentLine | cleaning/llm_client.py:23-30 | no line of the returned code, after the join and the final strip, is a short comment |
| CleaningLlmClient.Unquote | cleaning/llm_client.py:21 | the unquoted text is no longer than its input and has no white space at either end |
| CleaningLlmClient.KeepLines | cleaning/llm_client.py:24-29 | no kept line is a short comment, and every line that is not one is kept |
| CleaningLlmClient.DropCommentLines | cleaning/llm_client.py:24-29 | the filter loop keeps exactly the lines that are not short comments, verbatim and in order |
| CleaningLlmClient.ExtractPythonCode | cleaning/llm_client.py:6-30 | the step-by-step extraction gives the code of the reply |
| CleaningLlmClient.CommentsOnly | cleaning/llm_client.py:24-30 | a reply made only of short comment lines gives no code |
| CleaningLlmClient.KeepLinesExact | cleaning/llm_client.py:25-29 | no surviving line is a short comment, every other line survives, and text without such comments is kept whole |
| CleaningLlmClient.KeepLinesConcat | cleaning/llm_client.py:25-29 | the filter works on each block of lines independently |
| CleaningLlmClient.EnclosingOff | cleaning/llm_client.py:21 | `strip(q)` removes one enclosing pair of q from text that does not start or end with q |
| CleaningLlmClient.DoubleQuotesRemoved | cleaning/llm_client.py:21 | code wrapped in double quotes loses them |
| CleaningLlmClient.QuoteOrder | cleaning/llm_client.py:21 | double quotes are stripped before single ones, so double quotes inside single quotes survive |
| CleaningLlmClient.ParseChat | cleaning/llm_client.py:69-85 | the message content when `message` is a dict; else the `response` value; else, for a non-empty `choices` list, the first choice's `message.content` when it is a dict holding "message", otherwise its `text` (default ""); else `str(data)`, also for anything not a dict; raises only inside the `choices` branch |
| CleaningLlmClient.CodeFromAnswer | cleaning/llm_client.py:69-88 | only a "choices" reply can raise, and the returned code holds no short comment line |
| CleaningLlmClient.RetryOutcome | cleaning/llm_client.py:53-67 | the retry loop from a given attempt gives the empty value or the decoding of the answer some attempt between it and the budget got |
| CleaningLlmClient.ChatResult | cleaning/llm_client.py:40-90 | `chat` gives "" or the code of an answer some attempt 1..max_retries got, and never a short comment line |
| CleaningLlmClient.Chat | cleaning/llm_client.py:40-90 | the retry loop gives what the attempts dictate: "" when the budget is spent or an unexpected error occurs, otherwise the code of the first answer |
| CleaningLlmClient.RetriesReach | cleaning/llm_client.py:53-64 | after request errors on attempts from to k-1, the loop reaches attempt k |
| CleaningLlmClient.FirstOutcomeDecides | cleaning/llm_client.py:53-88 | the first attempt that is not a request error decides the result: an unexpected error gives "", an answer gives its code |
| CleaningLlmClient.NoAnswerEmpty | cleaning/llm_client.py:53-90 | when no attempt gets an answer the result is "" |
| CleaningLlmClient.OnlyBudgetUsed | cleaning/llm_client.py:53 | only attempts 1 to max_retries are consulted |
| CleaningLlmClient.ChatBudget | cleaning/llm_client.py:53-90 | with no answer in the budget chat gives "", and attempts past the budget never matter |
| CodeExecutor.WsRun | cleaning/code_executor.py:8 | the `\s*` run from a position: white space only, ending before a non-space or at the end |
| CodeExecutor.ImportPdEnd | cleaning/code_executor.py:8 | a match ends after it starts and within the code |
| CodeExecutor.SubStep | cleaning/code_executor.py:22 | a position with no match copies its character |
| CodeExecutor.SubUnmatched | cleaning/code_executor.py:22 | a stretch with no match is copied unchanged |
| CodeExecutor.SubPrepend | cleaning/code_executor.py:22 | helper: one unmatched character in front of an unmatched stretch |
| CodeExecutor.ConsSlice | cleaning/code_executor.py:22 | helper: the sequence step of SubPrepend |
| CodeExecutor.ImportFix | cleaning/code_executor.py:21-22 | without a match the code is left as it is, so the `search` guard changes nothing |
| CodeExecutor.FirstImportRewritten | cleaning/code_executor.py:21-22 | the first match becomes "import pandas as pd" and everything before it is kept |
| CodeExecutor.ImportPdMatches | cleaning/code_executor.py:8 | a whole-word "import pd" is a match nine characters long |
| CodeExecutor.ImportPdLower | cleaning/code_executor.py:8 | helper: both words of the pattern are already lower-case |
| CodeExecutor.PdAlternativeRedundant | cleaning/code_executor.py:7 | wherever the `pd.DataFrame(...)` alternative matches, the plain one matches three characters later |
| CodeExecutor.HasPlaceholder | cleaning/code_executor.py:7-24 | the placeholder search finds something exactly when some position starts a whole-word `DataFrame(...)` |
| CodeExecutor.PlaceholderIsDataFrameCall | cleaning/code_executor.py:7-24 | helper: the two-alternative search succeeds iff the single `DataFrame(...)` alternative does; `HasPlaceholder` states the same iff in its own contract |
| CodeExecutor.EmptyCallLiteral | cleaning/code_executor.py:7 | "(...)" without spaces is an empty call |
| CodeExecutor.LowerDataFrame | cleaning/code_executor.py:7 | helper: "DataFrame" lowers to "dataframe" |
| CodeExecutor.DataFrameCallCaught | cleaning/code_executor.py:7-24 | a whole-word `DataFrame(...)` is caught |
| CodeExecutor.Sanitize | cleaning/code_executor.py:16-27 | ok iff the rewritten code has no placeholder; then the rewritten code, otherwise the fixed message |
| CodeExecutor.Execute | cleaning/code_executor.py:29-47 | missing or blank code gives the fixed message; a result has a frame iff it has no error text |
| CodeExecutor.BlankRefused | cleaning/code_executor.py:30-31 | code of white space only is refused before anything else |
| CodeExecutor.PlaceholderRefused | cleaning/code_executor.py:33-35 | code with a placeholder is refused with the fixed message and never run |
| CodeExecutor.RunsFixedCode | cleaning/code_executor.py:33-47 | otherwise the rewritten code runs on the frame and its outcome decides the result: the traceback, the new frame, or the no-frame message |
| CleaningController.OneLossTolerated | cleaning/controller.py:47 | losing at most one column never costs points |
| CleaningController.QuarterRule | cleaning/controller.py:47 | from four original columns on, the penalty applies iff more than a quarter of them are lost |
| CleaningController.DupNote | cleaning/controller.py:51-57 | a duplicate note iff a mean cannot be computed or the cleaned mean exceeds the original's by more than 0.001; it is "increased" or "could not evaluate" |
| CleaningController.TrimNote | cleaning/controller.py:59-71 | a trim note always lists at least one issue |
| CleaningController.Clamp | cleaning/controller.py:73 | the score lies in 0..10 and a score already in range is kept |
| CleaningController.NotesText | cleaning/controller.py:74 | no notes give the passing message; when no note renders as that message, the text is the passing message exactly when there are no notes |
| CleaningController.NoteNotPassed | cleaning/controller.py:47-67 | every note message, starting with its fixed text, differs from "Basic checks passed." |
| CleaningController.JoinedNotesNotPassed | cleaning/controller.py:74 | helper: one note is its own message and two or more hold a newline, so neither joins to the passing message |
| CleaningController.TrimScan | cleaning/controller.py:61-66 | the loop collects (name, share) for exactly the candidate columns with a trim issue, in order |
| CleaningController.TrimCheck | cleaning/controller.py:59-71 | the guarded check: no issues iff there is no trim note, otherwise the note lists the issues |
| CleaningController.EvaluatorBasic | cleaning/controller.py:36-74 | the score and text built step by step are the verdict of the frame |
| CleaningController.VerdictOfParts | cleaning/controller.py:38-74 | the verdict is the clamped 10 minus the three checks' costs, with their notes in order |
| CleaningController.Verdict | cleaning/controller.py:36-74 | the score is within 0..10, and anything that is not a DataFrame scores 0 with its own message |
| CleaningController.TotalCostConcat | cleaning/controller.py:49-69 | costs add up over concatenated notes |
| CleaningController.NotesCost | cleaning/controller.py:47-69 | the notes cost 3 for column loss, 1 for duplicates, 1 for trim |
| CleaningController.ScoreRange | cleaning/controller.py:38-74 | a frame scores 5 to 10, and 10 exactly when no note was added; with the f-string messages the text is the passing message exactly when the score is 10 |
| CleaningController.NotAFrameScoresZero | cleaning/controller.py:41-42 | anything not a DataFrame scores 0 with its own message and fails the threshold |
| CleaningController.ColumnLossFails | cleaning/controller.py:47-49 | the column-loss penalty alone makes an attempt score at most 7 and fail the threshold |
| CleaningController.NoLossPasses | cleaning/controller.py:47-74 | without column loss a frame always passes, whatever the duplicate and trim notes |
| CleaningController.TrimShareRule | cleaning/controller.py:64-65 | a column has a trim issue iff it is not empty and more than 5% of its values start or end with a space |
| CleaningController.ShareAbove | cleaning/controller.py:65 | helper: a quotient by a positive number exceeds 0.05 iff twenty times the numerator exceeds the denominator |
| CleaningController.TrimFirstSixOnly | cleaning/controller.py:60-71 | only the first six object columns are looked at; repeated column names cost no trim point |
| CleaningController.PlaceholderGuard | cleaning/controller.py:118 | Python's precedence makes the guard fire iff the code holds both "DataFrame(...)" and "pd.DataFrame" |
| CleaningController.PlainCallPassesGuard | cleaning/controller.py:118 | a bare `DataFrame(...)` without "pd.DataFrame" slips past the guard |
| CleaningController.PlainCallRefused | cleaning/controller.py:118-129 | but the executor's own placeholder check refuses it |
| Base.SliceIndex | backend/main.py:444 | Python's normalisation of a slice bound: in range it is kept, past the end it is the length, a negative bound counts from the end and stops at 0 |
| Base.Slice | backend/main.py:444 | `s[a:b]` is the plain subsequence when the bounds are in order and in range, and never longer than `s` |
| Base.Take | backend/geospatial/hotspot_table.py:34 | `head(k)` is a prefix: k elements (or all) for k >= 0, all but the last -k for k < 0 |
| Base.FloorDiv | backend/main.py:443 | `//` rounds toward negative infinity |
| Sorting.SortDesc | backend/geospatial/hotspot_table.py:34 | the sort is a permutation of its input |
| Sorting.SortDescNonIncreasing | backend/geospatial/hotspot_table.py:34 | the output is ordered by key, largest first |
| Sorting.SortDescStable | backend/op_efficiency/risk_by_hour_location.py:150 | stability: elements with equal keys keep their input order |
| Sorting.SortDescMembers | backend/geospatial/hotspot_table.py:34 | sorting keeps exactly the elements it was given |
| Sorting.SortDescDistinct | backend/op_efficiency/op_efficiency_pipeline.py:326 | sorting a list without repeats gives a list without repeats |
| Sorting.SortDescSorted | backend/op_efficiency/op_efficiency_pipeline.py:326 | an input already in order comes out unchanged |
| PyText.Lower | backend/main.py:178 | `str.lower()` keeps the length and lowers each ASCII capital, nothing else |
| PyText.LowerIdempotent | backend/main.py:178 | lowering twice is lowering once |
| PyText.StripWhileSpec | cleaning/llm_client.py:21 | `strip(chars)` is a contiguous piece of its input, everything cut off is droppable, and its ends are not |
| PyText.StripWhileIdempotent | cleaning/llm_client.py:21 | stripping twice is stripping once |
| PyText.SplitLines | eda/eda_generator_agent.py:115 | no line holds a line break |
| PyText.IndexOf | cleaning/llm_client.py:12 | the first occurrence at or after a position, or none when there is none |
| PyText.ReplaceByEmptyShrinks | backend/main.py:255 | deleting a pattern never lengthens the text |
| PyText.NatToString | risk_score/rag_store/rag_pipeline.py:146 | `str(n)` is a non-empty run of digits without a leading zero, one digit iff n < 10 |
| PyText.NatToStringInjective | risk_score/rag_store/rag_pipeline.py:146 | distinct numbers render differently |

## Left out

- Machine-learning stages are not modelled: TF-IDF, KMeans, `train_test_split`, one-hot encoding, LightGBM, the classification report and the argmax over probabilities. Only the labelling and the column-name bookkeeping around them are. `sample_clusters` is modelled by its size bound only, since the sampling is random.
- HTTP posts, retries with backoff and `time.sleep` are not modelled. Each client's post result is a parameter, and `LLMClient.chat` takes what each attempt gave as a function of the attempt number. The prompt texts are left out, except for the mode of the backend system prompt.
- `str(data)` of a JSON value is left abstract: a `Rendered` reply, or a `render` function parameter. Python's rendering of dicts and lists is not modelled.
- Letter case is modelled for ASCII only. `str.lower()` on other letters, and `\w` and `\d` on non-ASCII characters, are outside the model.
- Means, quantiles, percentages, `safe_round`, `is_peak_delay`, `avg_response*` fields and the per-hour and per-city percentage fields are not modelled. Neither are the non-empty KPI values of `compute_kpis`, `compute_city_agg`, `compute_hourly_response`, `compute_time_trends`, `compute_distributions` or `compute_response_percentiles`. They are floating-point statistics.
- OpEfficiency.EmptyKpis: only the empty-frame case of `compute_kpis` is modelled; its non-empty values are floating-point statistics.
- OpEfficiency.ComputePeakDelayHours: `pct_of_total_delays` is not part of the result, since it is a rounded float.
- OpEfficiency.ComputePeakDelayHours: hours with equal delayed counts come smallest hour first, as a stable sort gives; `value_counts().sort_values(ascending=False)` uses pandas' default quicksort, which is not stable, so the source leaves that order unspecified.
- EdaClean.CleanTopCategories: tied counts keep first-occurrence order, and that order decides which tied category survives `head(top_n)`; pandas' `value_counts` leaves the order among ties unspecified.
- BackendMain.TopLimit: its own contract states only the default 10; the value of a found "top N" is stated by BackendMain.TopLimitRoundTrip.
- BackendMain.HowManySearchTerm: its own contract states only bounds; the term of a "how many" question is stated by BackendMain.HowManyOfTerm.
- OpEfficiency.DelayColumn: durations are exact reals. Timestamp parsing with `errors="coerce"` is reduced to a present or missing duration.
- RiskByHourLocation.ComputeRiskByHour, RiskByHourLocation.ComputePeakRiskHours: hours are taken to be integers 0..23 or missing, as `dt.hour` gives. The averages and percentages are left out.
- HotspotTable.GenerateHotspotTable: `avg_on_scene_time_min` is carried through unrounded. The order among cells with equal incident counts is that of a stable sort, where pandas leaves it unspecified.
- CleaningController.EvaluatorBasic: the mean of `duplicated()` for both frames is an input (a number or an exception), because pandas computes it. The order of the lost-column names in the note, `list(lost)[:8]`, is set order and is left to the `render` parameter.
- `exec` of generated code is a parameter of `CodeExecutor.Execute`, and so is how it ended. The `df.copy()` that protects the caller's frame is implicit, since values are not shared.
- `controller_loop`, the EDA controller and executor, and the generator agents are orchestration around the language model, file I/O and `exec`, and are not modelled. Only the placeholder guard of `controller_loop` is.
- The FastAPI endpoints other than `/chat`'s guard and `/dataset` are not modelled: file serving, module-level loading, and the pandas aggregates and `SequenceMatcher` fuzzy matching inside `handle_compute`. Only its "top N" limit and "how many" search term are.
- PDF text extraction, embeddings, FAISS and the JSON dataset summaries of the RAG pipeline are not modelled. `build_chunks_from_pdfs` takes its documents as values.
- RagPipeline.ChunkText requires `chunk_size > 0`, which every caller meets (the module constants 2000 and 400). For `chunk_size <= 0` on a non-empty text the source does three different things, none of them modelled: with `chunk_size == 0` and `overlap >= 0` `start` never moves and the loop does not end; with `chunk_size < 0` and `overlap >= chunk_size` `start` moves backwards and the loop does not end; with `overlap < chunk_size <= 0` `start` advances by `chunk_size - overlap` and the loop ends, so `chunk_text("ab", 0, -1)` returns `["", ""]`.
- H3, geopandas, folium, python-docx, UMAP/PCA and the service wrappers are thin library wrappers and are not modelled. So are `cleaning/cleaning.py`, `backend/risk_score/risk_by_location.py` and `backend/test_protocol_retrieval.py`.
- Python dicts built by the code are sequences of entries in insertion order, or Dafny `map`s where only lookup matters.
