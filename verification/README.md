# Verified models of Newsbuddy's scripts

This project models the algorithms and state machines behind the repository's operator scripts and
evaluation scripts, and proves what they promise. Check everything with

    dafny verify dfyconfig.toml --resource-limit 2000000

What is modelled, module by module:

- **JSON.** `JsonValues` is one datatype for JSON (objects are key-ordered association lists, as
  Python's dictionaries keep them), `JsonText` its printer and parser (string escapes as in section 7
  of RFC 8259, separators as `json.dumps` is called), `JsonRoundTrip` the proof that they are inverse;
  `AsciiText` and `ShortestText` say what other spellings are read and that none is shorter.
- **Schema rewrite.** `OpenApiShapes` is the recursive rewrite from OpenAPI 3.1 to 3.0 schemas;
  `SchemaMeaning` says which instances a schema accepts under either dialect; `SchemaRewrite` and
  `SchemaEquivalence` prove that the rewrite keeps them, and where it cannot; `SchemaLimits` and
  `SchemaSiblings` treat unions outside the convertible schemas; `DocumentPaths` says what becomes of
  every list, dictionary and path of the document around them.
- **Metadata repair.** `SanitizeText`: parse, strip control characters, print with sorted keys.
  `TextRepair`: that nothing else is lost.
- **Title clustering runner.** `ResponseText` (the brace scanner), `FencedText` (code fences),
  `ModelAnswer` and `AnswerShape` (normalising an answer, and what that makes of it), `Enrichment` (joining it with the batch rows), `BatchRunner`
  (the crash-safe loop over files, as a step relation and as the loop that takes those steps);
  `NewlineText` is what reading a text file back does to line ends, and why that does not matter.
- **News evaluation.** `NewsClusters` (greedy clustering), `PairScores` (pair sets, closed-form counts,
  precision, recall, F1), `NewsEval` (scoring one case).
- **Processing tasks.** `TaskTables` holds the task and content rows and the invariant every command
  keeps; `QueueControl`, `ContentReset`, `ErroredReset` and `ImageRepair` are the commands, each as a
  session method that changes the tables step by step; `CommandRuns` runs them in any order.
- **Smaller protocols.** `NotesPoller` (one worker process at a time), `TableCopy` (a chunked copy in
  foreign-key order), `HtmlText` (escaping and clipping).

Notable results about the code as it is:

- A bound that is stricter than an exclusive bound beside it is lost by the schema rewrite
  (`StricterMinimumIsLost`), and a nullable enumeration no longer accepts null
  (`NullableEnumLosesNull`). `LowerBoundExact`, `UpperBoundExact` and `NullableUnionExact` say exactly
  when one such step is faithful. Null among several arms (`ManyArmsExact`), and keywords, bounds and
  a second union beside a nullable one (`UnionBesideExact`, `OverwrittenBoundExact`,
  `OtherUnionExact`, and `SiblingsMerge` for any keywords) have their own exact conditions; `MeaningPreserved` holds for schemas whose every level meets that.
- An answer wrapped in a code fence is split at every line separator Python knows, so a U+2028 inside
  a JSON string turns into a newline (`FencedObject` gives the exact condition,
  `SeparatorObjectIsChanged` an instance). Text behind a leading fence that ends in a closing brace is
  returned with the object (`LeadingFenceExactly`).
- A saved response that is valid JSON of the wrong shape is neither quarantined nor replaced: every
  later run stops at its batch (`WedgedForever`, `OneReplyWedges`, and `FinishesExactly` for the exact
  condition).
- A row the model forgets is dropped from the enriched batch as soon as the model lists any other row
  of the batch as a singleton (`ForgottenRowIsDropped`; `EveryRowCoveredExactly` is the condition).
- Two feed items with the same id can overwrite each other's cluster. `ClusterFeedItems` returns the
  grouping exactly when no two representatives share an id, and loses items otherwise
  (`SharedIdLosesItem` is an instance). `NothingLostExactly` says for which ids, keys and order this
  cannot happen, whatever the texts, settings and scores are.
- If the notes poller dies between launching a child and writing its state file, a second child starts
  beside the first (`TwoChildrenAfterLostSpawn`); `OneChildAtATime` holds when the two are atomic, and
  `LostSpawnExactly` says when dying there does no harm.

## Model

| member | source | states |
|---|---|---|
| OpenApiShapes.NormalizeOpenapi30Shapes | scripts/export_agent_openapi_schema.py:43-87 | the imperative rewrite, loops over unions included, computes the recursive specification `Normalize` |
| OpenApiShapes.CollapseNullableUnion | scripts/export_agent_openapi_schema.py:63-85 | the loop over `anyOf` and `oneOf` collapses the first two-arm union with exactly one null arm, and only that one |
| OpenApiShapes.FiltersPickTheArms | scripts/export_agent_openapi_schema.py:67-78 | counting null and other options picks out the same concrete arm as looking at the two arms in either order |
| OpenApiShapes.NormalizeReachesNormalForm | scripts/export_agent_openapi_schema.py:43-87 | at no depth of the output is there a numeric exclusive bound or a two-arm union with one null arm, and keys stay distinct |
| OpenApiShapes.NormalFormIsFixed | scripts/export_agent_openapi_schema.py:43-87 | a value in normal form is returned unchanged, key order included |
| OpenApiShapes.NormalizeIdempotent | scripts/export_agent_openapi_schema.py:43-87 | rewriting twice is rewriting once, and the values left alone are exactly the normal forms |
| OpenApiShapes.MergedLookups | scripts/export_agent_openapi_schema.py:80-83 | in a merged union, `nullable` wins, then the parent's own keys, then the concrete arm's; the union keys come from the arm only |
| DocumentPaths.ListsKeepTheirElements | scripts/export_agent_openapi_schema.py:45-46 | whatever stands in a list, the rewrite keeps its length, and each element becomes the rewrite of the element in its place |
| DocumentPaths.DictionaryLookups | scripts/export_agent_openapi_schema.py:50-87 | what stands under any key of any rewritten dictionary, told from the dictionary before: flagged bounds, the rewritten entry, or the merge with the arm of the first nullable union |
| DocumentPaths.NullArmKept | scripts/export_agent_openapi_schema.py:67-78 | the rewrite of its arms never makes a value an arm that names the type `null`, nor stops it being one |
| DocumentPaths.UnshapedKeepsKeys | scripts/export_agent_openapi_schema.py:50-87 | a dictionary without a numeric exclusive bound and without a nullable union keeps exactly its keys, in order |
| DocumentPaths.PathKept | scripts/export_agent_openapi_schema.py:43-87 | along a path over lists and such dictionaries, the document holds the rewrite of what it held before, and nothing where it held nothing |
| DocumentPaths.ScalarAtPathKept | scripts/export_agent_openapi_schema.py:43-48 | so a scalar reached over them stands unchanged at the same path |
| SchemaEquivalence.MeaningPreserved | scripts/export_agent_openapi_schema.py:43-87 | for every convertible schema, at any nesting, the same instances are valid before (3.1 rules) and after (3.0 rules), whatever the uninterpreted keywords mean |
| SchemaEquivalence.NullableUnionExact | scripts/export_agent_openapi_schema.py:63-85 | collapsing a nullable union keeps its meaning if and only if null passes everything in the concrete arm but its type (and, for `oneOf`, the arm has a type); with an arm that is no object, if and only if it is `true` under `anyOf` |
| SchemaEquivalence.BareArmAcceptsAll | scripts/export_agent_openapi_schema.py:80-83 | null or an arm that is no object becomes a schema that accepts everything, even when that arm is `false` |
| SchemaEquivalence.LowerBoundExact | scripts/export_agent_openapi_schema.py:52-55 | a schema of `minimum` and numeric `exclusiveMinimum` keeps its meaning if and only if the exclusive bound is at least as large |
| SchemaEquivalence.UpperBoundExact | scripts/export_agent_openapi_schema.py:57-60 | the same for `maximum` and numeric `exclusiveMaximum` |
| SchemaEquivalence.StricterMinimumIsLost | scripts/export_agent_openapi_schema.py:52-55 | a concrete schema that refuses 4 before and accepts it afterwards |
| SchemaEquivalence.NullableEnumLosesNull | scripts/export_agent_openapi_schema.py:63-85 | a nullable enumeration accepts null before and refuses it afterwards |
| SchemaEquivalence.PropertiesKeepShape | scripts/export_agent_openapi_schema.py:50-50 | a `properties` dictionary is walked like a schema, but is not reshaped as one |
| SchemaLimits.ManyArmsExact | scripts/export_agent_openapi_schema.py:62-79 | a union of one arm or of three and more, one of them null, stays as it is; it keeps its meaning if and only if null is accepted without that arm, by one more arm of `anyOf` or two more of `oneOf` |
| SchemaSiblings.UnionBesideExact | scripts/export_agent_openapi_schema.py:62-85 | a nullable union beside asserting keywords the semantics leaves open keeps its meaning if and only if every instance but null that passes those and the rest of the arm passes what the arm says under the same keywords, and null, where they accept it, passes the rest of the arm |
| SchemaSiblings.UnionBesideApart | scripts/export_agent_openapi_schema.py:62-85 | when the arm has none of those keywords, null alone decides |
| SchemaSiblings.SiblingsBefore | scripts/export_agent_openapi_schema.py:62-85 | before the rewrite, a nullable union beside any keywords means the union and those keywords |
| SchemaSiblings.SiblingsMerge | scripts/export_agent_openapi_schema.py:80-83 | afterwards it means what the arm with the parent's entries laid over it means before, except that null is let through by the type |
| SchemaSiblings.OverwrittenBoundExact | scripts/export_agent_openapi_schema.py:80-82 | a parent's `minimum` or `maximum` that replaces the arm's does no harm if and only if it is as strict, for the numbers or the integers the arm is about |
| SchemaSiblings.OtherUnionExact | scripts/export_agent_openapi_schema.py:80-80 | dropping the other union beside a nullable one does no harm if and only if every instance but null that the arm accepts meets it, and null passes the rest of the arm exactly when it meets both unions |
| SchemaSiblings.OverwrittenMinimumIsLost | scripts/export_agent_openapi_schema.py:80-82 | an instance of such a bound: 3 is refused before and accepted afterwards |
| SchemaSiblings.OtherUnionIsDropped | scripts/export_agent_openapi_schema.py:80-80 | an instance of such a union: a string is refused before and accepted afterwards |
| JsonRoundTrip.ParsePrinted | admin/remote_ops.py:902-905 | reading a printed value in front of any text that does not continue a number gives the value and that text |
| JsonRoundTrip.LoadsPrinted | admin/remote_ops.py:902-905 | loading a dumped value gives the value |
| JsonRoundTrip.ParsedIsReadable | admin/remote_ops.py:903-903 | whatever is read has distinct keys and floats that print and read back, so it can be dumped and loaded again |
| AsciiText.SpelledStringReads | admin/remote_ops.py:903-903 | however each character of a string is written (plain, with a short escape, as `\uXXXX`, as a pair of surrogates, a solidus behind a backslash), the literal is read as the string |
| ShortestText.PrintIsShortest | admin/remote_ops.py:905-905 | no JSON text of a value without floats is shorter than its compact print: no white space, no avoidable escape |
| SanitizeText.SanitizedIsCanonical | admin/remote_ops.py:902-928 | a repaired text is the sorted, compact print of a value in which no key or string at any depth holds a disallowed control character (`TextRepair.RepairedTextHolds` says which value) |
| SanitizeText.SanitizeIdempotent | admin/remote_ops.py:902-928 | repairing a repaired text returns it unchanged |
| SanitizeText.UnchangedIffCanonical | admin/remote_ops.py:902-928 | a text is left unchanged if and only if it is the canonical print of a clean value |
| SanitizeText.CleanIsClean | admin/remote_ops.py:908-928 | the recursive cleaning leaves no disallowed control character anywhere and keeps keys distinct when cleaned keys collide |
| SanitizeText.SortingSorts | admin/remote_ops.py:905-905 | sorting makes keys ascend in every object at every depth and keeps a clean value clean |
| SanitizeText.LessExactly | admin/remote_ops.py:905-905 | the order of the keys is decided at the first character where two keys differ, a prefix coming first |
| TextRepair.StripKeepsMultiplicity | admin/remote_ops.py:923-928 | a character from 32 on, a tab, a newline or a carriage return stays as often as it stands in the text; any other goes |
| TextRepair.StripDistributes | admin/remote_ops.py:923-928 | stripping a text in two pieces gives the two stripped pieces, so what is kept keeps its order |
| TextRepair.CleanLookups | admin/remote_ops.py:910-913 | under each stripped key stands the cleaned value of the last entry that is stripped to it, and there are no other keys |
| TextRepair.SortedCleanRepairs | admin/remote_ops.py:905-920 | at every depth strings are stripped, lists keep their elements, dictionaries have exactly the stripped keys with the last values, and everything else is as it was |
| TextRepair.RepairedTextHolds | admin/remote_ops.py:902-905 | a text is repaired exactly when it loads, and the repaired text loads to that repair of its value |
| SanitizeText.SanitizeRows | admin/remote_ops.py:602-637 | each selected row reports `changed` exactly when its repaired text differs, and is updated only when applying; one unreadable text fails the whole transaction |
| ResponseText.ExtractFirstJsonObject | scripts/run_title_clustering_opus.py:427-457 | the loop over characters with depth, string and escape state computes the recursive scan from the first brace |
| ResponseText.ScanPassesValue | scripts/run_title_clustering_opus.py:437-455 | inside an object, the scanner passes over every value a JSON parser reads, whatever braces, quotes and escapes its strings hold, and is back at its depth |
| ResponseText.JsonObjectIsObjectText | scripts/run_title_clustering_opus.py:427-457 | every text a JSON parser reads as one object, in any layout, is scanned exactly to its end |
| ResponseText.FirstObjectFound | scripts/run_title_clustering_opus.py:427-457 | such an object is found between any text without an opening brace and any text at all |
| ResponseText.FirstObjectExactly | scripts/run_title_clustering_opus.py:427-457 | an object is found if and only if it is an object text behind text without an opening brace |
| ResponseText.PrintedObjectFound | scripts/run_title_clustering_opus.py:427-457 | in particular every printed object is found, exactly |
| FencedText.BareObject | scripts/run_title_clustering_opus.py:460-463 | a bare object is returned as it is |
| FencedText.UnfencedExactly | scripts/run_title_clustering_opus.py:460-472 | without a fence, an object between text without an opening brace and any other text comes back alone, unless nothing stands before it and the answer ends in a brace: then all comes back |
| FencedText.NoBraceNoObject | scripts/run_title_clustering_opus.py:433-436 | no object is found in a text without an opening brace |
| FencedText.FencedObject | scripts/run_title_clustering_opus.py:415-424 | a fenced object comes back with its line breaks turned into newlines: unchanged if and only if it had no other line break |
| FencedText.SeparatorObjectIsChanged | scripts/run_title_clustering_opus.py:415-424 | an object with a line separator in a string is such an object, and comes back changed |
| FencedText.EmbeddedObject | scripts/run_title_clustering_opus.py:460-472 | an object in the first JSON fence is found behind any prose, braces in it included, and before any trailing text |
| FencedText.LeadingFenceExactly | scripts/run_title_clustering_opus.py:460-472 | an answer that starts with the fence and has text behind it: object and text come back together if what stays of the text ends in a closing brace, else the first object from a further JSON fence on if that holds a brace, else the object; so exactly when the object itself comes back |
| FencedText.RemarkIsReturned | scripts/run_title_clustering_opus.py:460-463 | a closing remark `{}` behind the fence is such a text |
| FencedText.TrailingNewlineIgnored | scripts/run_title_clustering_opus.py:415-424 | the newline added when an answer is saved does not change what is extracted |
| ModelAnswer.NormalizeParsedResult | scripts/run_title_clustering_opus.py:369-397 | the loops with their lists and seen-sets compute the normalised answer, or fail on a value of the wrong shape |
| ModelAnswer.AppendUnseen | scripts/run_title_clustering_opus.py:380-383 | ids not seen before are appended once each, and the set stays the set of listed ids |
| ModelAnswer.NormalizedIsProper | scripts/run_title_clustering_opus.py:369-397 | clusters have at least two distinct ids, singletons are distinct, and exactly the ids of the answer remain |
| ModelAnswer.AddNewOrder | scripts/run_title_clustering_opus.py:376-383 | what is added to a list are the first occurrences of the elements it lacks, in their order |
| AnswerShape.IterationExactly | scripts/run_title_clustering_opus.py:375-376 | lists give their elements, strings their characters and dictionaries their keys; nothing else can be iterated |
| AnswerShape.NormalizedExactly | scripts/run_title_clustering_opus.py:369-397 | an answer is normalised if and only if it and its clusters are dictionaries and all its lists can be iterated and hold no lists or dictionaries |
| AnswerShape.NormalizedAnswerExactly | scripts/run_title_clustering_opus.py:369-397 | the clusters are those of at least two different ids, in order, each listing its ids once in order of first mention and otherwise unchanged; the singletons are the ids of the other clusters and then the listed ones, once each in order of first mention; the batch id is kept |
| ModelAnswer.NormalizeIdempotent | scripts/run_title_clustering_opus.py:369-397 | normalising a normalised answer, read back as JSON, returns it |
| ModelAnswer.SavedResponseParsesTheSame | scripts/run_title_clustering_opus.py:400-401 | the newline appended when a response is saved does not change its outcome |
| ModelAnswer.ReadBackParsesTheSame | scripts/run_title_clustering_opus.py:506-509 | neither does the translation of line ends when the file is read back |
| NewlineText.ExtractReads | scripts/run_title_clustering_opus.py:415-472 | translating line ends and extracting the object text commute |
| NewlineText.LineEndsRead | scripts/run_title_clustering_opus.py:506-509 | carriage return, newline and the two together are read as one newline |
| NewlineText.FirstObjectReads | scripts/run_title_clustering_opus.py:427-457 | translating line ends and scanning for the first object commute |
| NewlineText.LoadsReads | scripts/run_title_clustering_opus.py:400-401 | a JSON text is read as the same value, or refused, whatever its line ends |
| ModelAnswer.PrintedAnswerOutcome | scripts/run_title_clustering_opus.py:400-401 | a bare object has the wrong shape if and only if it cannot be normalised, and else gives its normalised answer |
| ModelAnswer.OutcomesExactly | scripts/run_title_clustering_opus.py:400-401 | a response is unparseable if and only if no object is found in it or the object does not load, and malformed if and only if the object loads and cannot be normalised |
| ModelAnswer.NoBraceIsUnparseable | scripts/run_title_clustering_opus.py:433-436 | a response without an opening brace is unparseable |
| ModelAnswer.BrokenObjectIsUnparseable | scripts/run_title_clustering_opus.py:400-401 | so is prose around an object text that does not load |
| ModelAnswer.NumberOfClustersIsMalformed | scripts/run_title_clustering_opus.py:369-401 | an answer whose clusters are a number is valid JSON of the wrong shape |
| Enrichment.EnrichBatchResult | scripts/run_title_clustering_opus.py:199-256 | the loops compute the enriched batch: known members in order, and the singletons with their fallback |
| Enrichment.ClusterExactly | scripts/run_title_clustering_opus.py:219-234 | the i-th cluster of the result has the row ids that the i-th cluster lists, in the listed order and as often, the last row of each as members, and that cluster's own id, label, confidence and reason or Null |
| Enrichment.CountIsExact | scripts/run_title_clustering_opus.py:225-225 | the reported count is the number of different ids in the clusters of the result |
| Enrichment.ListedSingletonsInOrder | scripts/run_title_clustering_opus.py:236-240 | listed singletons come in the listed order |
| Enrichment.UnlistedSingletonsInOrder | scripts/run_title_clustering_opus.py:241-246 | when no row is listed, the singletons come in the order in which their ids first appear in the batch |
| Enrichment.SingletonExactly | scripts/run_title_clustering_opus.py:236-248 | a row is among the singletons of the result if and only if the model lists it, or lists no row of the batch and no cluster of the result holds it |
| Enrichment.SingletonsAreRows | scripts/run_title_clustering_opus.py:236-248 | the singletons of the result are rows of the batch, the last of their ids, and no id comes twice |
| Enrichment.EveryRowCoveredExactly | scripts/run_title_clustering_opus.py:199-256 | every row id is in a cluster or among the singletons of the result if and only if the model lists no row as a singleton, or lists every row that is in no cluster of the result |
| Enrichment.NoRowCoveredTwiceExactly | scripts/run_title_clustering_opus.py:199-256 | no row id is in a cluster and among the singletons of the result if and only if the model lists no row that is in a cluster of the result |
| Enrichment.ForgottenRowIsDropped | scripts/run_title_clustering_opus.py:236-248 | a two-row batch in which one row disappears |
| BatchRunner.StepKeepsInv | scripts/run_title_clustering_opus.py:489-573 | every step of a run, and every kill, keeps the invariant on files, requests and program position |
| BatchRunner.FilesAlwaysAgree | scripts/run_title_clustering_opus.py:475-573 | over any sequence of killed and restarted runs, a parsed file is the parse of the saved response, an enriched file the enrichment of that, and every paid request is saved, in memory, rejected or lost |
| BatchRunner.FinishedRunIsComplete | scripts/run_title_clustering_opus.py:489-573 | a run that reaches the end of its loop leaves every batch parsed and enriched |
| BatchRunner.SettledForever | scripts/run_title_clustering_opus.py:490-540 | a batch with a parseable saved response is never sent again, and its files stay as they are |
| BatchRunner.RejectedIsAskedAgain | scripts/run_title_clustering_opus.py:506-524 | at an unparseable saved response one step makes it the invalid file, leaves no response file and goes on to ask again, and touches no other batch |
| BatchRunner.NoBraceIsAskedAgain | scripts/run_title_clustering_opus.py:506-524 | that happens to every saved response without an opening brace |
| BatchRunner.RejectedThenRecovered | scripts/run_title_clustering_opus.py:506-560 | with a parseable reply, six steps from there leave the new response, its parsed and its enriched file, one more request and one more rejection, and the program at the next batch |
| BatchRunner.OtherReplyStops | scripts/run_title_clustering_opus.py:527-560 | a reply that cannot be parsed is saved and stops the run |
| BatchRunner.WedgedForever | scripts/run_title_clustering_opus.py:506-524 | a saved response of the wrong shape is never replaced, and no run gets past it |
| BatchRunner.OneReplyWedges | scripts/run_title_clustering_opus.py:489-560 | one such reply to the first request of a fresh directory leads there |
| BatchRunner.UndisturbedRunFinishes | scripts/run_title_clustering_opus.py:489-573 | a run that is not killed, meets no such response and gets parseable replies reaches its end, with every batch parsed and enriched |
| BatchRunner.FinishesExactly | scripts/run_title_clustering_opus.py:489-573 | with parseable replies, a run finishes if and only if no saved response has the wrong shape |
| BatchRunner.OutputDir.RunBatches | scripts/run_title_clustering_opus.py:475-573 | the loop over batches, with its file tests and its k-th request answered by the k-th reply, leaves exactly the files of the uninterrupted run of the step relation, and finishes exactly when that does |
| BatchRunner.AloneIsARun | scripts/run_title_clustering_opus.py:489-573 | that uninterrupted run is a run of the step relation without kills |
| BatchRunner.OutputDir.WriteBoth | scripts/run_title_clustering_opus.py:558-559 | the parsed file holds the answer, the enriched file its enrichment, and no other file changes |
| NewsClusters.FindRelatedRepresentative | scripts/run_news_eval.py:168-224 | the single pass returns the first exact match, else the first eligible representative of maximal score, and none exactly when there is none |
| NewsClusters.GuardExactly | scripts/run_news_eval.py:144-165 | two items pass the guard if and only if enough of their title tokens are shared, or the shortcut is allowed and they have the same domain or source |
| NewsClusters.EligibleExactly | scripts/run_news_eval.py:200-223 | with the guard the lower threshold is enough; without it the first must be reached and the guard not be required; blocked conflicting keys exclude |
| NewsClusters.RelatedIsUnique | scripts/run_news_eval.py:168-224 | that specification determines the result |
| NewsClusters.CandidatesAreEligible | scripts/run_news_eval.py:198-223 | with thresholds above -1 the initial best score excludes no eligible representative |
| NewsClusters.ClusterFeedItems | scripts/run_news_eval.py:227-264 | fails exactly when an item has no id; otherwise the result is the dictionary by representative ids that the sorted items lead to, which is their greedy grouping if and only if no two representatives share an id, and has fewer items when two do |
| NewsClusters.GroupedIsUnique | scripts/run_news_eval.py:240-262 | the greedy grouping is determined by the order of the items |
| NewsClusters.TabledIsUnique | scripts/run_news_eval.py:240-262 | the dictionary, overwritten entries included, is determined by the order of the items |
| NewsClusters.GroupedIsWellGrouped | scripts/run_news_eval.py:240-262 | for every order, key and score function it partitions the items, representatives have distinct exact keys, groups are in order and every member is linked to its representative |
| NewsClusters.StepKeepsGroups | scripts/run_news_eval.py:242-262 | one more item keeps all of that |
| NewsClusters.RepresentativeIsEarliest | scripts/run_news_eval.py:238-238 | no member was ingested before its representative, and none at the same time has a smaller id; an item without a time comes first, with those of the earliest time there is |
| NewsClusters.LeaderIsEarliest | scripts/run_news_eval.py:227-262 | so in the grouping of any feed, in whatever order its items come |
| NewsClusters.SortedIsStable | scripts/run_news_eval.py:239-239 | items of the same time and id keep their order |
| NewsClusters.MemberKeysAgree | scripts/run_news_eval.py:200-206 | with conflicting keys blocked, no member's exact key differs from its representative's |
| NewsClusters.DistinctIdsLoseNothing | scripts/run_news_eval.py:257-264 | without shared ids among the items, no cluster is overwritten |
| NewsClusters.SharedIdLosesItem | scripts/run_news_eval.py:257-264 | two items with one id, the second not eligible for the first and without its key, lead to two representatives with one id |
| NewsClusters.NothingLostExactly | scripts/run_news_eval.py:227-264 | whatever the texts, settings and scores of unit vectors, no cluster is overwritten, if and only if no two items share an id that can both lead: the first item, and any later one without the key of the first, unless the two have one key |
| NewsClusters.NothingLostWithTexts | scripts/run_news_eval.py:227-264 | for given items with distinct texts, the same over all settings and scores of unit vectors |
| NewsClusters.SecondOfItsKeyCanLead | scripts/run_news_eval.py:182-224 | the second item of a key can lead, and lose an earlier one with its id, when the first of its key joined another representative on its score, with scores unit vectors can have |
| PairScores.PairwiseSets | scripts/run_news_eval.py:124-136 | for every list of ids the double loop over the sorted ids builds the set of equally labelled pairs, smaller id first, and pairs a labelled id with itself exactly when it occurs twice |
| PairScores.PairwisePositiveCount | scripts/run_news_eval.py:267-275 | the loop sums n(n-1)/2 over the clusters and counts the items |
| PairScores.PredictedLabels | scripts/run_news_eval.py:295-302 | the loops label every id with the number of the last cluster it is in |
| PairScores.LastLabelsAre | scripts/run_news_eval.py:295-302 | an id has a label exactly if it is in a cluster, and then that of the last one |
| PairScores.DisjointAreLabelled | scripts/run_news_eval.py:295-302 | in disjoint clusters every id has the number of its cluster |
| PairScores.ClosedFormCountsPairs | scripts/run_news_eval.py:267-275 | for disjoint clusters the closed form is the size of the predicted pair set |
| PairScores.PairsWithinCount | scripts/run_news_eval.py:267-275 | n distinct ids have n(n-1)/2 pairs |
| PairScores.ScoresAreProportions | scripts/run_news_eval.py:306-312 | precision, recall and over-merge rate lie in [0,1], F1 lies between precision and recall, and the over-merge rate is what precision leaves |
| PairScores.ScoresCountPairs | scripts/run_news_eval.py:306-312 | precision times the predicted pairs and recall times the gold pairs are the shared pairs, over-merge times the predicted pairs the others, and F1 times all gold and predicted pairs is twice the shared ones; a score with nothing to divide by is 1 |
| PairScores.PerfectExactly | scripts/run_title_clustering_eval.py:282-311 | F1 is 1 if and only if the case passes, that is the gold and predicted pair sets are equal |
| PairScores.SamePairsExactly | scripts/run_title_clustering_eval.py:214-219 | the pair sets of two full labelings are equal if and only if both put the same ids together |
| NewsEval.ScoreCase | scripts/run_news_eval.py:278-323 | fails exactly when an item has no id; otherwise the scores compare the pairs of the gold labels with those of the last-cluster labels, ids that occur twice included, and the counts are those of the clusters; without shared ids these are the greedy groups and the pairs within them |
| NewsEval.GroupsAreDisjoint | scripts/run_news_eval.py:295-302 | groups that partition items without shared ids are disjoint lists of distinct ids |
| TaskTables.ChangeKeepsInv | scripts/queue_control.py:280-291 | changing rows in place keeps ids, locks and dedupe keys lawful when the change activates nothing |
| TaskTables.InsertKeepsInv | scripts/reset_content_processing.py:171-186 | new tasks with fresh ids and no stray lock keep the invariant |
| QueueControl.Session.ClearTasks | scripts/queue_control.py:181-235 | deletes the cleared ids when forced, refuses without force, and changes nothing on a dry run |
| QueueControl.MatchesExactly | scripts/queue_control.py:152-178 | a task fails to match if and only if one of the filters that are set excludes it |
| QueueControl.OlderExactly | scripts/queue_control.py:171-173 | a task is dated by its start, else by its end, else by its creation |
| QueueControl.ClearedCount | scripts/queue_control.py:208-235 | as many rows are deleted as match, but no more than a limit that is not zero |
| QueueControl.ClearedExactly | scripts/queue_control.py:181-235 | without a limit, exactly the rows that pass all filters disappear |
| QueueControl.ClearedSmallestFirst | scripts/queue_control.py:208-212 | with a limit, the deleted rows match and have smaller ids than every matching row that is left |
| QueueControl.Session.RequeueStaleProcessing | scripts/queue_control.py:238-294 | the loop over stale rows leaves the requeued table, and the printed count is the number of stale rows |
| QueueControl.RequeuedFacts | scripts/queue_control.py:238-294 | no stale row is left, each hit is pending, available now, cleared of lock, lease, error and timestamps, and counts exactly one more retry, the number of rows and every other row stay |
| QueueControl.StaleExactly | scripts/queue_control.py:249-256 | stale are the processing tasks, of the queue and type asked for, dated by the cutoff or before |
| QueueControl.RequeueTwice | scripts/queue_control.py:238-294 | requeueing again with the same cutoff and filters changes nothing |
| QueueControl.Session.MoveMediaTasks | scripts/queue_control.py:297-329 | the loop moves exactly the misplaced media tasks with one of the statuses |
| QueueControl.MediaMovedFacts | scripts/queue_control.py:297-329 | afterwards every media task with one of the statuses is in the media queue; only queue names change, nothing changes if and only if no media task was misplaced, and moving again changes nothing |
| QueueControl.Session.MoveTasksBetweenQueues | scripts/queue_control.py:332-375 | refuses equal queues, and otherwise moves exactly the matching tasks |
| QueueControl.MovedFacts | scripts/queue_control.py:347-375 | the tasks of the source queue with one of the statuses, and of the type if one is given, are in the target queue; nothing else changes |
| QueueControl.MoveBackExactly | scripts/queue_control.py:332-375 | moving there and back restores the table if and only if no matching task was in the target queue before |
| ContentReset.Session.PerformReset | scripts/reset_content_processing.py:110-202 | the deletes, updates and inserts of one transaction leave the reset tables, and return the counts of what they did |
| ContentReset.Session.DeleteProcessingTasks | scripts/reset_content_processing.py:94-107 | no id list deletes every task, an empty one none, any other the tasks of its contents |
| ContentReset.Session.PreviewResetContent | admin/remote_ops.py:329-380 | the preview counts by its own queries |
| ContentReset.PreviewEqualsEffect | admin/remote_ops.py:329-380 | for every table and every option the preview's three counts are those the reset returns |
| ContentReset.ResetFacts | scripts/reset_content_processing.py:110-202 | after a reset each targeted content is new, with empty metadata and cleared of error, retries, checkout and processing time, and has exactly one task: pending, untried, unlocked, with its type, URL and source; every other content and its tasks are unchanged |
| ContentReset.TargetedExactly | scripts/reset_content_processing.py:76-91 | targeted are the contents of the type, if one is given, processed (else changed, else created) at the cutoff or later |
| ContentReset.CancelExactly | scripts/reset_content_processing.py:124-147 | cancelling only leaves contents alone and, of the tasks, exactly those of no targeted content, or none if nothing restricts the target |
| ContentReset.ReplacedFacts | scripts/reset_content_processing.py:133-186 | replacing the tasks of some contents leaves one new task for each, and the tasks of the others as they were |
| ContentReset.ResetKeepsInv | scripts/reset_content_processing.py:110-202 | a reset keeps ids and dedupe keys unique and locks on processing tasks only |
| ContentReset.ResetAgain | scripts/reset_content_processing.py:76-202 | resetting again with the same options, after a cutoff not in the future, targets the same contents, deletes exactly the tasks the first reset created, and counts as many of each |
| ErroredReset.Session.ResetErroredContent | scripts/reset_errored_content.py:122-303 | the loop over affected contents leaves the retried tables, reports how many, and a dry run changes nothing |
| ErroredReset.ErroredFacts | scripts/reset_errored_content.py:255-303 | each affected content is new, keeps its metadata and is cleared otherwise, and has exactly one pending, untried task that records its status and the first 500 characters of its error; every other content and its tasks are unchanged |
| ErroredReset.AffectedExactly | scripts/reset_errored_content.py:147-253 | which articles and podcasts are affected, status by status |
| ErroredReset.ErroredTwice | scripts/reset_errored_content.py:147-203 | repeating the reset changes nothing, whatever the filters |
| ErroredReset.ErroredKeepsInv | scripts/reset_errored_content.py:255-303 | the reset keeps the invariant |
| ImageRepair.Session.RegenerateOneContentImage | admin/remote_ops.py:776-857 | the three exits leave the tables and the report of the repair specification |
| ImageRepair.Session.RegenerateImages | admin/remote_ops.py:646-705 | candidates are chosen before the first attempt; the report of each is that of its repair on the tables the repairs before it left; the updated count is the number of candidates whose attempt generated an image |
| ImageRepair.RepairedFacts | admin/remote_ops.py:776-857 | on every exit one task is added, an unlocked image task completed without error or failed with that of the attempt, and reported so; no other task changes, and content metadata changes only on success |
| ImageRepair.MissingChangesNothing | admin/remote_ops.py:781-783 | a content that does not exist is reported missing and nothing changes |
| ImageRepair.CandidatesExactly | admin/remote_ops.py:646-705 | candidates are the selected contents that are eligible, have no image and no image task that is pending or processing |
| ImageRepair.RepairLeavesNothingActive | admin/remote_ops.py:646-705 | a whole repair leaves no active image task behind |
| CommandRuns.RunKeepsInv | scripts/queue_control.py:181-375 | over every sequence of clear, requeue, move, reset, errored-reset and image-repair commands task ids stay unique, a lock or lease implies processing, and active dedupe keys stay unique |
| NotesPoller.Poller.RunPollCycle | scripts/poll_notes_requests.py:126-168 | the cycle's tests and writes of the state file compute the step of the protocol |
| NotesPoller.LaunchExactly | scripts/poll_notes_requests.py:126-177 | a poll without a live child that is shown an approved or untouched note starts one process for it in the right mode, records it, marks the note and changes no other |
| NotesPoller.OtherPollsStartNothing | scripts/poll_notes_requests.py:126-168 | any other poll starts and marks nothing, and removes the state file unless its child is alive |
| NotesPoller.OneChildAtATime | scripts/poll_notes_requests.py:126-168 | over all interleavings of polls, exits and edits at most one child is alive, if launch and state write are atomic |
| NotesPoller.LostSpawnExactly | scripts/poll_notes_requests.py:126-168 | if the poller dies between launch and state write, every later run has at most one live child if and only if that cycle had nothing to launch: a live child, no note, or one that waits |
| NotesPoller.TwoChildrenAfterLostSpawn | scripts/poll_notes_requests.py:285-308 | without that atomicity two children can be alive |
| NotesPoller.LaunchesAreJustified | scripts/poll_notes_requests.py:145-177 | over every run, each launch was made at a poll that was shown its note: to implement a note approved at that poll, or to plan one then neither approved nor in progress |
| NotesPoller.MarkedNoteIsLeftAlone | scripts/poll_notes_requests.py:171-177 | an unapproved note is not launched again while its in-progress mark stays |
| NotesPoller.PlannedAtMostOnce | scripts/poll_notes_requests.py:152-177 | from the cycle that marks it, such a note is launched once, or not at all if the poller dies before the launch |
| TableCopy.PlanIsTopological | scripts/migrate_sqlite_to_postgres.py:157-170 | selecting tables from a dependency-sorted list keeps parents ahead of children |
| TableCopy.Target.CopyTableRows | scripts/migrate_sqlite_to_postgres.py:355-398 | for every chunk size the loop copies the table, or stops exactly when a row cannot be coerced; it passes through boundaries only, one per chunk; a dry run writes nothing |
| TableCopy.Target.CopyTables | scripts/migrate_sqlite_to_postgres.py:436-458 | the copy succeeds exactly when every row can be coerced, and otherwise is rolled back |
| TableCopy.Target.Migrate | scripts/migrate_sqlite_to_postgres.py:401-458 | the whole migration: it succeeds exactly when every planned row can be coerced and is rolled back otherwise; from a dependency-sorted table list and a plan closed under parents, every boundary and the end resolve; in the end the next id of each planned table exceeds every copied id |
| TableCopy.Target.ResetSequences | scripts/migrate_sqlite_to_postgres.py:296-325 | afterwards the next id of each given table exceeds every id in it, and other sequences are as they were |
| TableCopy.BoundaryResolves | scripts/migrate_sqlite_to_postgres.py:436-458 | with planned tables in topological order and closed under parents, every foreign key between distinct tables resolves at every boundary |
| TableCopy.FinishedCopy | scripts/migrate_sqlite_to_postgres.py:436-458 | in the end each planned table holds its old rows followed by the coerced source rows in order, and no other table changed |
| TableCopy.FinishedRows | scripts/migrate_sqlite_to_postgres.py:436-458 | row by row: the i-th source row stands, coerced, i places behind the old rows |
| TableCopy.CoercedRows | scripts/migrate_sqlite_to_postgres.py:380-392 | rows are coerced one by one and in place, all of them or none |
| TableCopy.ChunksSuffice | scripts/migrate_sqlite_to_postgres.py:367-395 | the chunks hold all rows, and all but the last are full |
| TableCopy.CoerceAppend | scripts/migrate_sqlite_to_postgres.py:380-392 | coercing chunk by chunk is coercing the whole table |
| TableCopy.ResetSequence | scripts/migrate_sqlite_to_postgres.py:314-325 | the next id exceeds every id of the table: it is the largest id plus one, or 2 for an empty table and for a largest id of 0 |
| HtmlText.ChainIsSubstitution | scripts/generate_eval_html_report.py:1664-1679 | the five replacements in a row are one substitution per character |
| HtmlText.StandardEntities | scripts/generate_eval_html_report.py:1664-1679 | the five characters become the entities that HTML names for them, and no other character changes |
| HtmlText.DecodeEscaped | scripts/generate_eval_html_report.py:1664-1679 | decoding entities undoes the escaping of every text |
| HtmlText.EscapeInjective | scripts/generate_eval_html_report.py:1664-1679 | different texts have different escaped forms |
| HtmlText.EscapedHasNoMarkup | scripts/generate_eval_html_report.py:1664-1679 | the escaped text holds no angle bracket and no quote |
| HtmlText.ClipKeepsBothEnds | scripts/generate_eval_html_report.py:334-354 | the clipped text never exceeds a non-negative limit; it is the text, a beginning of it, or a beginning and an end around the marker as long as the limit allows but for blanks beside the marker |

## Left out

- Input and output: SSH, HTTP, subprocesses, argument parsing, logging and printing, SQLAlchemy sessions and SQL text. Databases are row sequences, files optional contents, and replies of the model or of a service are arbitrary parameters.
- Clocks: cutoffs and the current time are parameters. The preview and the reset are compared at the same cutoff.
- Floats: scores and thresholds are exact reals, and reading a float token is a parameter of which only "what Python prints of a float it has read reads back as that float" is assumed (beyond range it prints `Infinity`, which the parser reads like `NaN`, as Python does). In schemas, such floats count as some real number. Digit limits and nesting limits of Python's parser are not modelled.
- Lone surrogate escapes in JSON strings: the parser refuses them; Python reads them, and fails later when it encodes the text.
- Python's equality of `1`, `1.0` and `True` as dictionary keys: ids of a model answer are compared as JSON values, and ids of batch rows are integers or absent.
- MeaningPreserved: the condition `Convertible` is exact for one step (see the `Exact` lemmas) and only sufficient for a whole schema, because an enclosing schema can hide what an inner one loses. Keywords the semantics does not interpret are an arbitrary predicate on keyword, value and instance, annotations being always true; type lists and unions nested as concrete arms of nullable unions are outside `Convertible`.
- PrintIsShortest: values with floats, for which the printed token is Python's choice.
- SiblingsMerge: an exclusive bound beside a nullable union, or in its arm under a plain bound beside it, where the rewrite mixes the flag of one with the value of the other; and entries that make the merged dictionary one that is not plain.
- `build_agent_openapi_schema`: how the surrounding document is assembled.
- EmbeddedObject: for objects whose only line breaks are newlines, as `FencedObject` shows what happens to others.
- Text of the stored JSON files: the runner's parsed and enriched files hold values; that a value survives being written and read is proved for the compact print only, not for the indented one.
- File writes that are cut in half, changed inputs between runs, and the `.invalid.txt` files of earlier rejections, of which the program keeps the last. `_write_run_summary` and `_prepare_batches` only reformat.
- NothingLostExactly: for given items whose texts coincide, whether some scores lose a cluster depends on titles, domains and sources as well; the condition is sufficient there (`LeadersApartLoseNothing`). The branch for an encoder without vectors is modelled, though the encoder always gives some for a text list that is not empty.
- ClusterFeedItems: when representatives share an id, the result is given as the dictionary the items lead to one by one, not as a condition on each item. Exact relation keys, embedded texts, title tokens, domains and sources of an item are data, and the similarity of two texts is an arbitrary function.
- ScoreCase: running time, and the aggregation over cases.
- PredictedLabels: clusters are labelled by number instead of by `pred:` and the number.
- The worker that claims, leases and finishes tasks (the queue service is not part of this model): rows can start in any state that satisfies the invariant.
- Database errors in the middle of a command, and which of several image-repair candidates are selected by default; eligibility, existing images and the merge of metadata are parameters.
- NotesPoller: a child that has ended is gone for the next poll, as with `--once`, where each poll is a process of its own; in loop mode the poller is the parent and never waits for it, so the ended child keeps its process entry and later polls go on saying that it runs. Process ids are not reused, one poller runs at a time (its lock file), and the prompts and the note helper are not modelled. An edit may set any status, so a note whose mark is removed may be planned again.
- TableCopy: `TRUNCATE`, per-type coercion (an arbitrary partial function that keeps keys), foreign keys of a table to itself, key collisions with rows already there, and tables without common columns.
- ResetSequence: keys are non-negative in practice; PostgreSQL refuses a negative start value, which is not modelled.
- Session migration between users, report rendering, usage totals, log parsing and configuration: they would only add easy members.
