# Elegy verification model

A Dafny model of the parts of Elegy that decide what an agent remembers and who may read it, with proofs of what those
parts promise. `dafny verify dfyconfig.toml` checks the whole project. Each module header names the source it models.

## What is modelled

* **Consolidation** (`Similarity`, `Candidates`, `SimpleStrategy`, `Clusters`, `ClusterFacts`, `Confluence`,
  `BoundedBatches`, `ConfluenceTheorem`, `SettledFront`, `Relisting`, `LlmStrategy`, `LlmFacts`, `LlmRuns`,
  `Fallback`, `ConsolidateCommand`, `ApplicableRuns`, `CosineRuns`, `LlmAnswers`, `LlmQuestions`). Both strategies'
  nested loops with their `consumed` vector, pair budget and early exit are methods proved against functional runs.
  The runs are shown to compute the unique first-fit clustering of the priority order; bounded batches applied to the
  store end where one unlimited run ends, even though promotions reorder the listing between them; the LLM strategy
  refines the simple one, and its fallback equals it under an exact condition; no action of a run is refused half-way.
  What is merged is also said in numbers and texts: which pairs reach which cosine similarity, what a finished command
  leaves, which pairs the provider is asked about and which of its answers a merged text comes from.
* **The governed artifact store** (`Artifacts`, `ArtifactRules`, `FileNames`, `Utf8`, `LocalStore`, `Catalog`,
  `Supersession`, `Writers`). The store is a class over a map from file name to record. Whole runs of it, and every
  interleaving of any number of writers at every file access, keep consistency, provenance, lifecycle order, successor
  links and catalog order; supersession links stay acyclic under an exact condition. Whatever a call answers is what
  the store then holds, and every refusal names a fact about the envelope, the record or the store.
* **Token validation and key refresh** (`Jwks`, `JwksRefresh`). Key-set validation, and the double-checked refresh as
  program counters over a shared key set, mutex, stamp and clock, with cancellation at every await.
* **Retrieval and the salience gate** (`Scopes`, `Ranking`, `Retrieval`, `SharedSearch`, `SearchIsolation`,
  `TopMerge`, `SearchMerge`, `SearchExactness`, `Gate`, `GateDecisions`, `Tokens`, `TechnologyFacts`, `NumericFacts`).
  Fast forms (pages per scope, over-fetch and filter, two truncated searches) against one simple global ranking; a
  search in a table that agents share against the same search on the visible rows alone; the gate's decision on the
  candidate and the store, down to the two texts it compares.
* **Scanners and graph building** (`Links`, `AuthorityPaths`, `Slugs`, `Intent`, `IntentGraph`).
* `Wrappers`, `Ordering` and `Text` hold what several modules share.

## Assumptions

* Scores and embeddings are exact reals: rounding, NaN and infinities (other than a threshold that is not finite) do not
  occur. The square root is any function that is a square root on non-negative reals.
* Language-model answers are an arbitrary sequence, embedding providers arbitrary functions that may fail, signature and
  claims checking an arbitrary function of token, key and time.
* The memory database is a sequence of rows with distinct ids. `list` filters rows in order of creation and truncates;
  a query of the vector index answers the nearest of all its vectors before any filter applies, vectors at the same
  distance in the order of ids; `find_similar` answers the most similar rows at or above a threshold,
  ordered by similarity, update time and id (plugins/memory/src/traits.rs:220-226).
* RFC 3339 normalisation (section 5.6 of RFC 3339) gives a short string without a bar that is its own normal form
  (`Artifacts.Clock.Sane`). Unicode character classes and lower-casing are parameters.
* Nothing but consolidation changes the memories between its batches, the clock does not run backwards at a promotion,
  and vectors that are compared have one positive dimension (the error for other vectors is modelled in the loops).
* File accesses succeed, except that writing the text of a new lock file may fail, and no process dies while it holds the
  lock: its lock file would stay as well.

## Where the code does not keep what it seems to promise

Each of these has a counterexample and, where the code is right on some inputs, the exact condition, listed below.

1. The search tool's option to include dormant memories has no effect: without a state the store searches active ones
   (`Retrieval.IncludeDormantHasNoEffect`).
2. An unwidened list truncates before it drops deleted rows and can fall short (`Retrieval.NarrowListExactly`). It is
   also in order of creation, where the comment at hosts/memory-mcp/src/memory_tools.rs:506 speaks of update time.
3. The search command orders merged results without the total score that the store used, so a truncated list may have
   lost the wrong row (`SearchExactness.OneListExactly`, `SearchExactness.TwoListsExactly`); and the two lists are scored
   against different bests (`SearchExactness.OneRankingExactly`).
4. Rows that a binding may not see take part in a search: they can push a row out of the pool of nearest vectors, rescale
   keyword ranks and fade refinements (`SearchIsolation.SearchIsIsolatedExactly`, `SearchIsolation.LostRowIsMissing`).
5. A key set passes validation although an unusable key hides a usable one of the same id (`Jwks.UsableKeyIsFound`).
6. The LLM strategy's fallback forms the simple strategy's groups but can rewrite the survivor's text, which the simple
   strategy never does (`Fallback.FallbackAgreesExactly`).
7. Slugs are cut by byte, which panics inside a character (`Slugs.SlugifyPanicsExactly`).
8. Supersession can form a cycle (`Supersession.SupersedeStaysAcyclicExactly`), a failed lock write leaves the store
   locked for good (`Writers.StuckExactly`), failed key fetches are not spaced (`JwksRefresh.FailedFetchesAreNotSpaced`;
   installs always are), a request that waits longer than thirty seconds can miss its key
   (`JwksRefresh.LongWaitCanMissTheKey`), and a text can contradict itself numerically
   (`NumericFacts.ContradictsItselfExactly`).

## Model

| member | source | states |
|---|---|---|
| Scopes.VisibleIsUpwardClosure | plugins/memory/src/types.rs:143-150 | The visible scopes of a scope are exactly those of rank at least its own, each once, in rank order. |
| Scopes.MaxIsJoin | plugins/memory/src/types.rs:152-167 | `max` is the join of the hierarchy, associative and commutative, and differs from its receiver exactly when the receiver can be promoted to the other scope. |
| Similarity.CosineSimilarity | plugins/memory/src/similarity.rs:4-32 | The fused loop computes dot product and both squared norms in one pass; both error cases and the near-zero case included. |
| Similarity.DotCommutes | plugins/memory/src/similarity.rs:18-31 | The dot product is symmetric in its arguments. |
| Similarity.CauchySchwarz | plugins/memory/src/similarity.rs:18-31 | For vectors of any length dot² is at most the product of the two squared norms. |
| Similarity.QuotientBounds | plugins/memory/src/similarity.rs:31 | Without rounding the quotient lies between -1 and 1, so the upper clamp never acts and the lower one acts exactly on a negative dot product. |
| Similarity.ReachesIsSymmetric | plugins/memory/src/similarity.rs:4-32 | Whether two vectors reach a threshold does not depend on which comes first. |
| Similarity.ReachesItself | plugins/memory/src/similarity.rs:26-31 | A vector of non-negligible norm reaches every threshold up to one against itself. |
| Similarity.ReachesMeansAtLeast | plugins/memory/src/similarity.rs:26-31 | The root-free comparison used by the clustering agrees with `similarity >= threshold` on the computed similarity, for every threshold. |
| Candidates.CosineRuleIsSymmetric | plugins/memory/src/consolidator.rs:369-378 | The clustering's comparison is symmetric for every threshold. |
| Candidates.PrioritizedCandidates | plugins/memory/src/consolidator.rs:410-436 | The order lists each active candidate with a usable embedding once, by importance descending and index ascending. |
| Candidates.PriorityOrderUnique | plugins/memory/src/consolidator.rs:410-436 | There is only one such order. |
| Candidates.SelectPriorityOrder | plugins/memory/src/consolidator.rs:410-436 | Visiting by the sorted indices is visiting the stable sort of the ready candidates. |
| SimpleStrategy.VisitSurvivor | plugins/memory/src/consolidator.rs:342-392 | One turn of the outer loop with its `consumed` vector, pair budget and early exit refines the functional scan of one survivor. |
| SimpleStrategy.ConsolidateSimple | plugins/memory/src/consolidator.rs:323-395 | The two nested loops, with the pair cap, compute exactly the specified run, its error case included. |
| Clusters.RunMergesPairs | plugins/memory/src/consolidator.rs:329-392 | A run with any budget merges exactly the pairs of the greedy clustering, in order, cut at the budget. |
| Clusters.LeadersAreFirstFit | plugins/memory/src/consolidator.rs:329-392 | The leaders are pairwise unlinked (below threshold or in different scopes), and every other candidate is linked to an earlier leader. |
| Clusters.FirstFitIsUnique | plugins/memory/src/consolidator.rs:329-392 | Any choice with that description is the run's: the declarative first-fit set is computed, no other. |
| ClusterFacts.LeadersAndSourcesPartition | plugins/memory/src/consolidator.rs:329-392 | Leaders' ids and sources' ids together are the candidates' ids, counted with multiplicity. |
| ClusterFacts.LeadersAreNotSources | plugins/memory/src/consolidator.rs:344-392 | No leader is ever a source and no memory is a source twice. |
| ClusterFacts.PairIffFirstLeader | plugins/memory/src/consolidator.rs:344-392 | A pair is merged if and only if the source is no leader and the survivor is the first leader it links to. |
| Confluence.RunSettles | plugins/memory/src/cli.rs:2146-2176 | Applying a run's actions to the store has exactly the effect of the pairs it merged: sources dormant, survivors in the joined scope. |
| BoundedBatches.RemainingPairs | plugins/memory/src/consolidator.rs:329-392 | Removing the sources of the first m pairs leaves a candidate order whose clustering has exactly the remaining pairs. |
| ConfluenceTheorem.BoundedBatchesAreConfluent | plugins/memory/src/cli.rs:2135-2176 | While the listing keeps its order, as it does unless a survivor is promoted: whatever the pair limit and the similarity test, batches with room for all pairs leave the very list of memories that one unlimited run leaves. `Relisting` has the case of promotions. |
| ConfluenceTheorem.BatchesAreConsecutiveSlices | plugins/memory/src/consolidator.rs:323-395 | In such a listing each batch merges the next consecutive slice of the unlimited pair list. |
| ConfluenceTheorem.ConsolidationIsIdempotent | plugins/memory/src/consolidator.rs:323-395 | After an unlimited run has been applied, no run with any limit yields an action. |
| SettledFront.FrontThenBack | plugins/memory/src/consolidator.rs:329-392 | What finished batches leave of the visiting order is a front of settled leaders followed by the rest. |
| SettledFront.SurvivorsAreInFront | plugins/memory/src/consolidator.rs:329-392 | Every survivor that they can have promoted stands in the front. |
| SettledFront.ReorderedFront | plugins/memory/src/consolidator.rs:329-392 | With a symmetric similarity the front may be permuted in any way: the clustering has the same pairs in the same order. |
| Relisting.PromotionsRelist | plugins/memory/src/storage/sqlite_store.rs:763-780 | Listing by update time, then id, after promoted memories have been stamped no earlier than before, keeps every active memory that was not promoted behind the active ones it was behind, whatever the stamps of sources made dormant. |
| Relisting.RelistedPairs | plugins/memory/src/storage/sqlite_store.rs:4073-4078 | Whatever such listing a batch is followed by, the next run has exactly the pairs that the batch left, in the same order. |
| Relisting.RelistedBatchesSettle | plugins/memory/src/cli.rs:2120-2176 | n batches, each on a fresh listing, leave the memories that the first pairs of the unlimited run make of the first store, and the other pairs. |
| Relisting.RelistedBatchesAreConfluent | plugins/memory/src/cli.rs:2120-2176 | Whatever the limit, and however promotions move memories in the listings, batches with room for all pairs end in the memories that one unlimited run leaves, and no further run finds an action. |
| Relisting.RelistedCapsEndAlike | plugins/memory/src/consolidator.rs:45-50 | Whatever pair cap is configured, zero (no cap) included, as many commands as there are pairs suffice. |
| Relisting.ListedRunRelists | plugins/memory/src/storage/sqlite_store.rs:763-780 | A run of commands, each on the listing by the update times that the last one left, is such a run of batches. |
| Relisting.CommandsEndAlike | plugins/memory/src/cli.rs:2119-2176 | So with the similarity test that the source builds, any cap and those listings, as many commands as there are pairs end in the memories that one unlimited run leaves, and no further command finds an action. |
| Relisting.RelistedBatchesAreSlices | plugins/memory/src/consolidator.rs:323-395 | Each of those batches merges the next consecutive slice of the unlimited pair list. |
| Relisting.CosineIsSymmetric | plugins/memory/src/consolidator.rs:369-378 | The similarity test that the source builds is symmetric, so this holds of it. |
| CosineRuns.CosineRuleMeans | plugins/memory/src/consolidator.rs:362-365 | The rule asks whether the computed cosine is at least the configured threshold, brought into [0, 1], or 0.85 for one that is not finite; and whether it is at least 0.95 for near-identical texts. |
| CosineRuns.CompareMeans | plugins/memory/src/consolidator.rs:352-365 | Where scopes allow a merge, comparing two candidates gives the error of the cosine computation or the answer of that comparison; otherwise there is no match. |
| CosineRuns.ConsumedExactly | plugins/memory/src/consolidator.rs:323-392 | A memory is merged away if and only if it takes part and an earlier one (more important, or as important and given first), not merged away itself, is similar to it. |
| CosineRuns.PairsExactly | plugins/memory/src/consolidator.rs:323-392 | Of several similar survivors the earliest takes it. |
| CosineRuns.ResultsExactly | plugins/memory/src/consolidator.rs:378-387 | Every action names given memories and changes no more of the survivor than its scope: the highest of its group where scopes are crossed, its own otherwise. |
| CosineRuns.CapBounds | plugins/memory/src/consolidator.rs:45-50 | A run under a cap merges the first pairs of the unlimited run, as many as the cap allows; zero and none are no cap. |
| CosineRuns.VisitedWithEmbeddings | plugins/memory/src/consolidator.rs:125-188 | A run that can ask for embeddings visits the active memories that have a stored vector or are answered one. |
| CosineRuns.RunFailsOnAPair | plugins/memory/src/consolidator.rs:362 | A run that fails has compared two of its candidates and found that error. |
| CosineRuns.SurvivorsCompareFalse | plugins/memory/src/consolidator.rs:323-392 | An unlimited run that succeeds has compared every two survivors without error or match, whatever the vectors. |
| CosineRuns.CommandsLeaveNothingSimilar | plugins/memory/src/cli.rs:2119-2176 | As many commands as there are pairs, whatever the cap and however promotions reorder the listings, leave no two active memories that may be merged and whose cosine reaches the threshold. |
| LlmStrategy.MergeKeepsOne | plugins/memory/src/consolidator.rs:438-460 | The fallback's content is one of the two contents, trimmed. |
| Text.JoinWordsExactly | plugins/memory/src/consolidator.rs:462-468 | Normalised for merging, a text is its words joined by one blank. |
| Text.JoinWordsSkips | plugins/memory/src/consolidator.rs:462-468 | White space in front is dropped. |
| LlmStrategy.VisitSurvivorLlm | plugins/memory/src/consolidator.rs:209-318 | One turn of the outer loop of the LLM strategy refines its functional scan, for every sequence of provider answers. |
| LlmStrategy.ConsolidateLlm | plugins/memory/src/consolidator.rs:190-321 | The whole LLM strategy computes its specified run: actions, contradictions, pairs asked about, errors. |
| LlmFacts.LlmRefinesSimple | plugins/memory/src/consolidator.rs:190-321 | If no verdict is a contradiction, the LLM strategy yields the groups and scopes of the simple one on the same embeddings, under any limit. |
| LlmFacts.LlmAccounting | plugins/memory/src/consolidator.rs:238-300 | Questions asked are exactly merges plus contradictions, and together they never exceed the limit. |
| LlmAnswers.AnswersDecide | plugins/memory/src/consolidator.rs:241-299 | The actions of every run are what the answers to its questions say: the merged pairs in order, the contradictions with their descriptions, and of each survivor the scope of its group and the text that the answers about it leave. |
| LlmAnswers.LastAnswerDecides | plugins/memory/src/consolidator.rs:248-281 | The text of a merge is the provider's if the last answer about the survivor gave one, and otherwise the fallback's merge of what the earlier answers left with the last source's text. |
| LlmQuestions.AskedExactly | plugins/memory/src/consolidator.rs:203-236 | An unlimited run asks about two candidates if and only if they match, the earlier one is not merged away, and no still earlier one has taken the other. |
| LlmQuestions.QuestionsAreInOrder | plugins/memory/src/consolidator.rs:203-236 | Questions come survivor by survivor, and for each of them in the visiting order. |
| LlmQuestions.LimitCutsQuestions | plugins/memory/src/consolidator.rs:230-237 | A pair limit cuts the list of questions and changes nothing before the cut. |
| LlmRuns.NoPairIsAskedTwice | plugins/memory/src/consolidator.rs:209-318 | No two questions of a run are about the same two memories, in either order. |
| LlmRuns.ContradictionWitnessIsNeverConsumed | plugins/memory/src/consolidator.rs:209-318 | The first memory of a reported contradiction is never the source of a merge in that run. |
| LlmRuns.FailingProviderWritesMembers | plugins/memory/src/consolidator.rs:248-300 | With a provider that always fails, every merged content is the trimmed content of a member of its group. |
| Fallback.FallbackAgreesExactly | plugins/memory/src/consolidator.rs:59 | With a provider that always fails, every run under every limit fails as the simple strategy does and forms the same groups; the actions are equal if and only if in every group the guards of the merge let the survivor keep its text. |
| Fallback.UntakenSourcesKeepText | plugins/memory/src/consolidator.rs:438-460 | The survivor keeps its text if its text is trimmed and the guard takes no source. |
| Fallback.LaterSourceCanRestore | plugins/memory/src/consolidator.rs:438-460 | That is not necessary: a later source with the survivor's text undoes an earlier change. |
| Fallback.FallbackCanRewrite | plugins/memory/src/consolidator.rs:248-300 | Two memories with the same vector and different texts: the run with a failing provider rewrites the survivor, the simple run does not. |
| ConsolidateCommand.MemoryTable.ApplyMerge | plugins/memory/src/cli.rs:2148-2176 | Applying one merge succeeds exactly when its ids are known, the scope does not fall and no source is deleted, and then changes exactly survivor and sources; otherwise it says why and leaves what was written up to the refusal. |
| ConsolidateCommand.MemoryTable.Execute | plugins/memory/src/cli.rs:2144-2196 | The apply loop changes nothing in a dry run; otherwise it succeeds exactly when every action is acceptable in its turn and leaves the memories, links and contradictions that the actions specify, and on an error the store stands at the first refused action. |
| ConsolidateCommand.MemoryTable.ApplyContradiction | plugins/memory/src/storage/sqlite_store.rs:2755-2778 | A contradiction is recorded exactly when it is described and between two different known memories. |
| ApplicableRuns.RunIsApplicable | plugins/memory/src/cli.rs:2135-2176 | The apply loop accepts every action of a simple run over memories it stores, under any limit: no action can fail half-way. |
| ApplicableRuns.LlmRunIsApplicable | plugins/memory/src/cli.rs:2144-2196 | So it does for an LLM run, contradictions included, whatever the provider answers. |
| ApplicableRuns.CommandsAreApplicable | plugins/memory/src/cli.rs:2119-2196 | A consolidation over whatever the store lists is applied to the end by either strategy. |
| Utf8.DecodeEncode | plugins/memory/src/local_store.rs:646-659 | UTF-8 (RFC 3629, section 3) decodes back every string of scalar values. |
| Utf8.EncodeCharShape | plugins/memory/src/local_store.rs:646-659 | Every character takes the shortest form of UTF-8 (RFC 3629, section 3). |
| Utf8.BytesLessMeans | plugins/memory/src/local_store.rs:574-599 | Strings are ordered by the first byte in which they differ, a beginning before what it begins. |
| FileNames.EncodeRecordId | plugins/memory/src/local_store.rs:646-659 | The encoding loop computes the byte-wise escaping of the id. |
| FileNames.DecodeEncodedName | plugins/memory/src/local_store.rs:646-667 | A decoder inverts the escaping on every byte string. |
| FileNames.EncodedNameIsSafe | plugins/memory/src/local_store.rs:646-667 | Encoded names use only ASCII letters and digits, `-`, `_`, `.` and `~`. |
| FileNames.EscapesExactly | plugins/memory/src/local_store.rs:646-667 | A safe byte stands for itself, any other is `~` and its two lower-case hexadecimal digits. |
| FileNames.ArtifactFileNameEnds | plugins/memory/src/local_store.rs:412-416 | The file name is the encoded id and the suffix of governed records. |
| FileNames.ArtifactFileNameInjective | plugins/memory/src/local_store.rs:412-416 | Two record ids never share an artifact file. |
| Artifacts.DerivedKeysFit | plugins/memory/src/artifacts.rs:539-592 | Ids of at most 128 characters give sort keys of at most 267 characters, within the limit of 280. |
| Artifacts.ImportSucceedsExactly | plugins/memory/src/artifacts.rs:640-676 | An import succeeds if and only if envelope and id are valid and the time stamps have a UTC form; never for a key length. |
| Artifacts.SupersedeSucceedsExactly | plugins/memory/src/artifacts.rs:464-482 | Superseding a valid record succeeds exactly when it is active and the successor id is bounded, and moves only the lifecycle and its keys. |
| Artifacts.BurySucceedsExactly | plugins/memory/src/artifacts.rs:484-502 | Burying a valid record succeeds exactly when it is not tombstoned, the time parses and the reason is bounded. |
| ArtifactRules.EnvelopeIsGood | plugins/memory/src/artifacts.rs:227-237 | An envelope passes validation if and only if kind, ids, time and every text and list are within their bounds and no raw transcript is kept. |
| ArtifactRules.ComplaintsAreTrue | plugins/memory/src/artifacts.rs:139-164 | A rejected envelope is told of a field that is as bad as the error says. |
| ArtifactRules.RecordIsGood | plugins/memory/src/artifacts.rs:678-694 | A record passes validation if and only if every field is within its bounds, its metadata fit its state, and its three keys are made of scope, UTC time, state and ids. |
| ArtifactRules.ImportMakes | plugins/memory/src/artifacts.rs:640-676 | An import makes an active record of the envelope's context and ids, stamped with the UTC form of the import time. |
| ArtifactRules.TransitionsStayGood | plugins/memory/src/artifacts.rs:732-760 | A transition rewrites the lifecycle and the keys made of it, and leaves a good record. |
| ArtifactRules.RecordComplaintsAreTrue | plugins/memory/src/artifacts.rs:678-694 | A rejected record is told of a field that is as bad as the error says, a wrong key included. |
| ArtifactRules.ImportRefuses | plugins/memory/src/artifacts.rs:640-676 | A refused import complains of the envelope, then of the id, of the import time and of the captured time. |
| Artifacts.SupersedeRefuses | plugins/memory/src/artifacts.rs:464-482 | A refused supersession complains of the state, then of the successor's id. |
| Artifacts.BuryRefuses | plugins/memory/src/artifacts.rs:484-502 | A refused burial complains of the time, then of the reason, then of the state. |
| Artifacts.ExportRoundTrip | plugins/memory/src/artifacts.rs:696-709 | Exporting after import and any sequence of transitions gives back the envelope; at most two transitions ever succeed. |
| LocalStore.LocalMemoryStore.Init | plugins/memory/src/local_store.rs:75-92 | Initialising fails exactly when the lock is held and changes no artifact. |
| LocalStore.LocalMemoryStore.ImportSummaryOnlyEnvelope | plugins/memory/src/local_store.rs:94-124 | Import answers and writes as specified: conflict, idempotent re-import, new record, every rejection; the lock is free again. |
| LocalStore.LocalMemoryStore.SupersedeRecord | plugins/memory/src/local_store.rs:205-241 | Supersede answers and writes as specified, the successor looked up first, self-supersede rejected before the lock. |
| LocalStore.LocalMemoryStore.TombstoneRecord | plugins/memory/src/local_store.rs:243-268 | Tombstone answers and writes as specified. |
| LocalStore.LocalMemoryStore.ShowRecord | plugins/memory/src/local_store.rs:147-173 | Lookup by encoded file name, with the lifecycle filter. |
| LocalStore.AnswerIsStored | plugins/memory/src/local_store.rs:94-268 | Whatever an operation answers Ok is what the store then holds. |
| LocalStore.ImportOverExisting | plugins/memory/src/local_store.rs:103-115 | Importing under an id that the store holds succeeds if and only if the record is the stored one; a different one is refused with that id, and the stored one stays. |
| LocalStore.SupersedeAnswers | plugins/memory/src/local_store.rs:217-240 | Superseding succeeds if and only if both records are there, the first is active and the successor's id is bounded; the error says which of these fails first. |
| LocalStore.TombstoneAnswers | plugins/memory/src/local_store.rs:249-268 | Burying succeeds if and only if the record is there without a tombstone, the time parses and the reason is bounded; the error says which fails first. |
| LocalStore.ShowAnswers | plugins/memory/src/local_store.rs:147-173 | Active records are shown, superseded and buried ones where asked for. |
| LocalStore.WriteSteps | plugins/memory/src/local_store.rs:205-268 | Whatever an operation writes is valid, lies under its own id's file name, and is the present record stepped forward, or a new active one. |
| LocalStore.RunKeepsEverything | plugins/memory/src/local_store.rs:94-268 | Over every run payload and provenance never change, lifecycles only move forward, and a set successor never changes, differs from the record and is in the store. |
| LocalStore.WritesAreBounded | plugins/memory/src/local_store.rs:385-391 | Over every run each artifact file is written at most three times, bounded by its lifecycle stage. |
| LocalStore.WriteCountSnoc | plugins/memory/src/local_store.rs:385-391 | Each further operation counts if it succeeds and is no import of what is there. |
| Catalog.CollectRecords | plugins/memory/src/local_store.rs:341-366 | Reading every artifact and sorting gives the catalog. |
| Catalog.KeyDeterminesParts | plugins/memory/src/artifacts.rs:539-564 | The key scope, bar, timestamp, bar, id determines its three parts, even when the id contains a bar. |
| Catalog.FirstKeyDecides | plugins/memory/src/local_store.rs:574-599 | Valid records with different ids differ in their first key, so the lifecycle key never decides. |
| Catalog.CatalogOrderIsTotal | plugins/memory/src/local_store.rs:574-599 | The comparison is a strict total order on the records of a store. |
| Catalog.CatalogIsSorted | plugins/memory/src/local_store.rs:341-366 | The catalog lists each record of the store once, strictly increasing. |
| Catalog.CatalogIgnoresListingOrder | plugins/memory/src/local_store.rs:341-366 | It is the same whatever order the directory is read in. |
| Catalog.FilteredListing | plugins/memory/src/local_store.rs:126-145 | Every filtered listing is a sorted subsequence of the full one. |
| Catalog.ListedExactly | plugins/memory/src/local_store.rs:126-145 | A listing holds the store's active records, and the superseded or buried ones where asked for. |
| Catalog.ShowAgreesWithList | plugins/memory/src/local_store.rs:126-173 | Showing an id succeeds if and only if the listing with the same options contains it, and answers the record carrying that id. |
| Catalog.RunKeepsOrder | plugins/memory/src/local_store.rs:574-599 | No lifecycle transition changes the relative position of two records. |
| Catalog.RunKeepsCatalogOrder | plugins/memory/src/local_store.rs:341-366 | After any run the earlier catalog's records stand in the same order in the later catalog. |
| Supersession.SupersedeStaysAcyclicExactly | plugins/memory/src/local_store.rs:217-235 | An operation on an acyclic store leaves it acyclic if and only if it is not a supersession whose successor already leads back to the superseded record. |
| Supersession.ActiveSuccessorIsSafe | plugins/memory/src/local_store.rs:217-235 | A successor that is another record and still active never closes a cycle. |
| Supersession.RunStaysAcyclicExactly | plugins/memory/src/local_store.rs:205-241 | A run from an acyclic store ends acyclic if and only if no call of it closes a cycle when its turn comes: a cycle never disappears. |
| Supersession.SupersedeCycle | plugins/memory/src/local_store.rs:217-235 | Two active records can supersede each other, one after the other. |
| Writers.StepKeepsInv | plugins/memory/src/local_store.rs:304-339 | Every step of every writer keeps the protocol invariant: the lock has one holder, and the holder's reads are the store's present content. |
| Writers.DecideDependsOnNeeded | plugins/memory/src/local_store.rs:205-268 | What an operation decides depends only on the files it has read under the lock. |
| Writers.RunsAreSerial | plugins/memory/src/local_store.rs:94-124 | In every interleaving at most one writer is inside the lock, each answer is that of a serial run, and the files are those of the successful calls run one after another in lock order. |
| Writers.AcknowledgedIsStored | plugins/memory/src/local_store.rs:94-268 | In every interleaving, what a served call was answered Ok the store held right after it. |
| Writers.RunTellsTruly | plugins/memory/src/local_store.rs:304-339 | Every writer that has returned was refused at the lock or as a self-supersede, or was told the answer of its own call. |
| Writers.FreeLockServes | plugins/memory/src/local_store.rs:304-339 | With the lock free a writer can go through, and is served as a store without other writers would serve it. |
| Writers.FilesAreSerialPrefix | plugins/memory/src/local_store.rs:304-339 | Even inside an operation the files are those of a serial run of all served calls but at most the last. |
| Writers.ConcurrentRunsKeepEverything | plugins/memory/src/local_store.rs:94-268 | The whole-run guarantees hold in every reachable state of any number of writers. |
| Writers.RejectedWriterChangesNothing | plugins/memory/src/local_store.rs:304-339 | A rejected call, a self-supersede and a failed lock write change no file and no other writer, and the caller is told which of them it was. |
| Writers.FailedLockWriteSticks | plugins/memory/src/local_store.rs:317-323 | A failing write of the lock text leaves a lock that nobody holds. |
| Writers.StuckForever | plugins/memory/src/local_store.rs:304-339 | From then on no run changes a file or serves a call. |
| Writers.StuckExactly | plugins/memory/src/local_store.rs:304-339 | In every run the store is stuck if and only if a write of the lock text failed before; until then the lock file exists exactly while some writer is inside. |
| Jwks.ValidateJwks | hosts/memory-mcp/src/resource_auth.rs:197-233 | The loop accepts a key set (RFC 7517, section 5) if and only if some key is usable and no two usable keys share a key id; otherwise it answers the empty-set error. |
| Jwks.FindIsFirst | hosts/memory-mcp/src/resource_auth.rs:101 | Lookup by key id (RFC 7517, section 4.5) answers the first key of that id. |
| Jwks.AcceptedMeans | hosts/memory-mcp/src/resource_auth.rs:94-127 | A token is accepted if and only if it names a key id, the first key of that id has its algorithm and can be decoded, the claims (RFC 7519, section 4.1) are accepted under it, and the required scopes are among its scopes. |
| Jwks.VerdictExactly | hosts/memory-mcp/src/resource_auth.rs:94-127 | The verdict is an unknown key if and only if no key of the set has the token's id, a missing scope if and only if the claims were decoded and lack one, and otherwise acceptance or invalid. |
| Jwks.UsableMeans | hosts/memory-mcp/src/resource_auth.rs:197-226 | A key counts in validation if and only if it is an elliptic-curve key for ES256 or an RSA key for RS256, may verify signatures, has an id and can be decoded. |
| Jwks.UsableKeyIsFound | hosts/memory-mcp/src/resource_auth.rs:101 | In an accepted set a usable key is the one found for its id if and only if no unusable key of that id precedes it. |
| Jwks.SignedTokenIsAccepted | hosts/memory-mcp/src/resource_auth.rs:94-127 | A token signed by a usable key of an accepted set is accepted under that condition. |
| Jwks.UnusableKeyShadowsUsable | hosts/memory-mcp/src/resource_auth.rs:197-233 | An accepted set can hold a signing key that an encryption key of the same id hides from every token. |
| JwksRefresh.StepKeepsInv | hosts/memory-mcp/src/resource_auth.rs:129-167 | Every step of the double-checked refresh keeps the invariant of mutex owner, key set, stamp and fetch history. |
| JwksRefresh.RefreshIsSafe | hosts/memory-mcp/src/resource_auth.rs:129-167 | In every interleaving, cancellations included, at most one fetch is in flight, the shared set is always one that validation accepts, and no fetch begins within thirty seconds of an install. |
| JwksRefresh.InstallRate | hosts/memory-mcp/src/resource_auth.rs:144-165 | n installs within a window take at least n - 1 spacings. |
| JwksRefresh.WaiterNeedsNoFetch | hosts/memory-mcp/src/resource_auth.rs:139-142 | A request that waits when a key set accepting its token has been installed ends with Ok and never fetches, within thirty seconds of the install: no other set can replace that one. |
| JwksRefresh.KeysStay | hosts/memory-mcp/src/resource_auth.rs:144-165 | For thirty seconds after an install the shared set stays as it is, in every interleaving. |
| JwksRefresh.AcceptedWaiterNeedsNoFetch | hosts/memory-mcp/src/resource_auth.rs:139-142 | At any distance from the install: as long as the shared set accepts its token, the waiting request needs no fetch. |
| JwksRefresh.LongWaitCanMissTheKey | hosts/memory-mcp/src/resource_auth.rs:139-165 | Thirty seconds are exact: a run in which the key came and went while the request waited, and the request is refused. |
| JwksRefresh.KeysCanComeAndGo | hosts/memory-mcp/src/resource_auth.rs:139-165 | Key sets for which that run happens exist. |
| JwksRefresh.OnlyUnknownKeysRefresh | hosts/memory-mcp/src/resource_auth.rs:133-139 | Only a request whose token named no key of the shared set at its own first check ever waits for the mutex or fetches. |
| JwksRefresh.AnswersHaveCauses | hosts/memory-mcp/src/resource_auth.rs:129-167 | Every answer is a verdict at one of the call's checks, a refresh refused within thirty seconds of an install, a failed fetch, or a fetched set that fails validation, each with its own error. |
| JwksRefresh.OkWasAVerdict | hosts/memory-mcp/src/resource_auth.rs:129-167 | Every Ok answer was the verdict of the shared key set at one of the call's own checks. |
| JwksRefresh.FailedFetchesAreNotSpaced | hosts/memory-mcp/src/resource_auth.rs:149-165 | Only installs are spaced: any number of failing fetches can begin at the same instant. |
| Ranking.ByRankIsTotal | plugins/memory/src/storage/sqlite_store.rs:5415-5425 | The ranking comparator is a strict total order on rows, whatever their scores. |
| Ranking.BestIsMaximum | plugins/memory/src/storage/sqlite_store.rs:5326-5327 | The reference similarity of the fade is reached by a candidate and exceeded by none. |
| SearchExactness.FadePoints | plugins/memory/src/storage/sqlite_store.rs:5384-5389 | All of a refinement counts at the best similarity, half of it half-way to the threshold, none from the threshold on. |
| Retrieval.VisibleExactly | hosts/memory-mcp/src/memory_tools.rs:521-538 | A memory is visible if and only if its rank is at least the read scope's, its owner is readable and it is not deleted. |
| Retrieval.WideningHidesNothing | hosts/memory-mcp/src/memory_tools.rs:1410-1428 | Lowering the read scope or including unowned rows hides nothing that was visible. |
| Retrieval.ListVisibleMemories | hosts/memory-mcp/src/memory_tools.rs:470-518 | For a widened binding the pages per scope, filtered, merged, sorted and truncated, are the first of one ranking of everything visible. |
| Retrieval.ListedExactly | hosts/memory-mcp/src/memory_tools.rs:470-538 | A widened list holds exactly the rows of visible rank, readable owner, state and type asked for, latest update first, then highest id. |
| Retrieval.NarrowListExactly | hosts/memory-mcp/src/memory_tools.rs:470-518 | For an unwidened binding the list is the first visible rows if and only if no deleted row is among the first matching ones or all later matching rows are deleted. |
| Retrieval.NarrowListCanFallShort | hosts/memory-mcp/src/memory_tools.rs:470-518 | A deleted row within the limit can hide a visible one beyond it. |
| Retrieval.OwnedSearchIsExact | hosts/memory-mcp/src/memory_tools.rs:108-159 | For the scores that the store gives, truncating before filtering loses nothing in a search of owned rows. |
| Retrieval.SearchForm | hosts/memory-mcp/src/memory_tools.rs:122-159 | Over-fetching, filtering and taking gives, for every binding and limit, the first of the visible candidates, ranked by the best similarity of all candidates. |
| SharedSearch.InPoolExactly | plugins/memory/src/storage/sqlite_store.rs:4991-5062 | A row with a vector is in the pool if and only if fewer rows of the whole index than the pool holds are nearer. |
| SharedSearch.OwnCrowdsLess | plugins/memory/src/storage/sqlite_store.rs:4991-5062 | A row crowded out among the visible rows alone is crowded out in the shared table. |
| SharedSearch.BlendExactly | plugins/memory/src/storage/sqlite_store.rs:5110-5123 | The vector similarity counts seven parts and the keyword score three; one channel alone counts in full. |
| SharedSearch.KeywordScoreExactly | plugins/memory/src/storage/sqlite_store.rs:4824-4843 | A match scores its share of the way from the worst rank to the best among all rows that match and pass the filters, in full when these are practically equal; nothing else has a keyword score. |
| SearchIsolation.SearchIsIsolatedExactly | hosts/memory-mcp/src/memory_tools.rs:108-159 | A search in the shared table answers, at every limit, what it would answer if the table held only the rows that the binding may see, if and only if the visible rows are reached alike and ordered alike. |
| SearchIsolation.ShownExactly | hosts/memory-mcp/src/memory_tools.rs:108-159 | A search shows exactly the visible active rows of the types asked for that text or embedding reach. |
| SearchIsolation.VectorScoresExactly | plugins/memory/src/storage/sqlite_store.rs:5195-5259 | A visible row keeps its vector score unless other rows push it out of the pool. |
| SearchIsolation.ReachedExactly | plugins/memory/src/storage/sqlite_store.rs:5195-5259 | It stays reached unless that happens and the text does not match it. |
| SearchIsolation.SearchIsIsolated | plugins/memory/src/storage/sqlite_store.rs:5195-5360 | It is enough that no visible row is pushed out, that hidden matches do not extend the range of the keyword ranks, and that scores do not fade or a visible row is as similar as any candidate. |
| SearchIsolation.OwnedSearchIsIsolated | hosts/memory-mcp/src/memory_tools.rs:122-141 | A search of owned rows is isolated unless one of its own rows is pushed out of the pool. |
| SearchIsolation.RoomyPoolLosesNothing | plugins/memory/src/storage/sqlite_store.rs:4861-4867 | Nothing is pushed out of a pool with room for every vector. |
| SearchIsolation.LostRowIsMissing | plugins/memory/src/storage/sqlite_store.rs:4991-5062 | A row that only its vector reaches is missing once it is pushed out, so the search is not isolated. |
| SearchIsolation.OthersCrowdOutOwnRow | plugins/memory/src/storage/sqlite_store.rs:4867 | A thousand rows of another agent push a row out of its owner's search, which reads only owned rows. |
| SearchIsolation.NearerRowReorders | plugins/memory/src/storage/sqlite_store.rs:5317-5359 | A nearer row of another agent, never shown, swaps the two rows that are. |
| SearchIsolation.BetterMatchReorders | plugins/memory/src/storage/sqlite_store.rs:4824-4841 | So does a row of another agent whose text matches better. |
| Retrieval.IncludeDormantHasNoEffect | hosts/memory-mcp/src/memory_tools.rs:714-720 | Asking the search for dormant memories changes nothing: every result is active. |
| TopMerge.MergeOfSortedParts | plugins/memory/src/cli.rs:3010-3031 | Lists already in the order of the merge lose nothing. |
| TopMerge.MergeExactWhen | plugins/memory/src/cli.rs:3010-3031 | Truncating two lists, concatenating, sorting and truncating gives the first k of the union if and only if each of these stands among the first k of its own list. |
| TopMerge.MergeExactAtEveryLimit | plugins/memory/src/cli.rs:3010-3031 | It does so at every limit if and only if no element stands later in its own list than in the union. |
| SearchMerge.BuildSearchResponse | plugins/memory/src/cli.rs:2990-3031 | A caller gets as many results as limit and candidates allow, all different, each a candidate with the score of its own search: the top of the ranking, or with dormant memories in the order of the results; a zero limit and an empty query are refused, in this order. |
| SearchMerge.ResultOrderIsTotal | plugins/memory/src/cli.rs:3203-3212 | The four-level comparator is a strict total order, so the first k are unique. |
| SearchExactness.OneListExactly | plugins/memory/src/cli.rs:3010-3031 | When dormant memories are asked for and there are none, the response is exact at every limit if and only if no two active rows tie in score and similarity while the total score prefers one and update time or id the other. |
| SearchExactness.TwoListsExactly | plugins/memory/src/cli.rs:3010-3031 | With dormant memories it is exact at every limit if and only if no result stands later in its own ranking than in the merged one. |
| SearchExactness.ResponseIsExact | plugins/memory/src/cli.rs:3010-3031 | It is enough that neither list holds such a misplaced tie. |
| SearchExactness.OneRankingExactly | plugins/memory/src/storage/sqlite_store.rs:5317-5359 | The rows shown are the first of one ranking of all memories at every limit if and only if the command's order and that ranking order every pair of memories alike. |
| SearchExactness.SameScaleIsOneRanking | plugins/memory/src/storage/sqlite_store.rs:5317-5359 | That is so when scores do not fade, a list is empty or both lists have the same best. |
| SearchExactness.HiddenTieShowsWrongRow | plugins/memory/src/storage/sqlite_store.rs:5402-5425 | A misplaced tie can make the command show a row that its own order ranks lower. |
| SearchExactness.SeparateBestsReorder | plugins/memory/src/storage/sqlite_store.rs:5317-5359 | Two searches that fade against different bests can begin with another row than one ranking of all memories. |
| Gate.ExcludingIsWithout | plugins/memory/src/gate.rs:235-353 | Evaluating with an excluded memory decides as evaluating against the store without it, for every store and candidate. |
| Gate.OneMatchIsNotEnough | plugins/memory/src/gate.rs:256-268 | Two matches are needed: with one, the excluded memory can hide the next. |
| Gate.BestMatchIsBest | plugins/memory/src/gate.rs:256-268 | The match looked at is the most similar memory, and there is none exactly when all are below the novelty floor. |
| Gate.AcceptNamesTheMatch | plugins/memory/src/gate.rs:331-352 | Between the floor and the merge threshold every match is a likely duplicate, and a salient candidate is accepted with it named. |
| Gate.MergesOnlyWithBest | plugins/memory/src/gate.rs:269-329 | The gate merges only into, and reports a contradiction only with, the most similar memory, at the merge threshold or above, in no broader scope, promoting to the join. |
| Gate.Evaluate | plugins/memory/src/gate.rs:245-353 | The gate computes the specified outcome, its failures included. |
| GateDecisions.FindsMatch | plugins/memory/src/gate.rs:256-268 | The match is the most similar memory at or above the floor, of equally similar ones the latest. |
| GateDecisions.FailsExactly | plugins/memory/src/gate.rs:252-268 | The gate fails if and only if the candidate is invalid or the store does not answer. |
| GateDecisions.RejectsExactly | plugins/memory/src/gate.rs:269-277 | It rejects if and only if the match is in a broader scope. |
| GateDecisions.ArchivesExactly | plugins/memory/src/gate.rs:339-348 | It archives exactly the insignificant candidates that are not compared or whose match, if any, is in no broader scope and below the merge threshold. |
| GateDecisions.AcceptsUnnamedExactly | plugins/memory/src/gate.rs:306-352 | It accepts without a named memory exactly the significant candidates without a match, and those that the model calls unrelated to a near match. |
| GateDecisions.AcceptsNamedExactly | plugins/memory/src/gate.rs:331-352 | It accepts with the match named exactly the significant candidates whose match is in no broader scope and below the merge threshold. |
| GateDecisions.NearMatchDecides | plugins/memory/src/gate.rs:279-329 | On a near match agreement merges, a contradiction of the model is reported as described, and without a verdict technologies, then numbers, then a merge decide. |
| Gate.TextsDecide | plugins/memory/src/gate.rs:161-167 | On a near match without a verdict of the model the two texts decide: a contradiction if and only if they state disjoint technologies for one subject and category or different values for one subject, a merge otherwise. |
| Gate.RepeatedTextIsMerged | plugins/memory/src/gate.rs:269-329 | A candidate that repeats its match word for word is merged, except exactly when that text states two values for one subject. |
| Tokens.HeuristicTokens | plugins/memory/src/gate.rs:643-660 | The buffer loop computes the tokens. |
| Tokens.TokensAreRuns | plugins/memory/src/gate.rs:643-660 | Tokens are the maximal runs of token characters, lower-cased. |
| Tokens.TokenCharExactly | plugins/memory/src/gate.rs:643-660 | Letters, digits and five signs make up tokens. |
| Tokens.TokensAreNotEmpty | plugins/memory/src/gate.rs:643-660 | No token is empty. |
| Tokens.SubjectIsLastThree | plugins/memory/src/gate.rs:662-682 | A subject is the last three words before the verb that are no fillers, in their order. |
| Tokens.FillersExactly | plugins/memory/src/gate.rs:684-708 | The words that say nothing about a subject, in English and French. |
| Tokens.JoinsByOneBlank | plugins/memory/src/gate.rs:662-682 | The words of a subject are joined by one blank. |
| Tokens.SplitCompoundSearchTerm | plugins/memory/src/gate.rs:477-514 | The parts concatenate to the term, are non-empty, and begin exactly at its boundaries; there are none exactly when it has no boundary. |
| Tokens.BoundaryExactly | plugins/memory/src/gate.rs:487-497 | A term is cut between a lower- and an upper-case letter, before the last capital of several, and between digit and letter. |
| TechnologyFacts.AddValueKeepsMeaning | plugins/memory/src/gate.rs:604-612 | The fact map keeps one entry per key, in key order, none empty. |
| TechnologyFacts.ExtractTechnologyFacts | plugins/memory/src/gate.rs:586-622 | The facts hold exactly the values that the text states within eight tokens of a stating verb. |
| TechnologyFacts.StatedWithinEight | plugins/memory/src/gate.rs:586-622 | A technology is stated at most eight tokens after a stating verb that has a subject. |
| TechnologyFacts.FactHoldsAll | plugins/memory/src/gate.rs:604-621 | A fact holds every value stated for its key. |
| TechnologyFacts.NamesOfTechnologies | plugins/memory/src/gate.rs:710-743 | Every technology is its own name in one category; three other words stand for one. |
| TechnologyFacts.DetectTechnologyContradiction | plugins/memory/src/gate.rs:529-564 | It fires if and only if some subject and category are stated in both texts with no value in common; it reports the least such subject with all values stated for it. |
| TechnologyFacts.ContradictionIsSymmetric | plugins/memory/src/gate.rs:529-564 | Firing is symmetric, and no text fires against itself. |
| NumericFacts.ExtractNumericFacts | plugins/memory/src/gate.rs:624-641 | The facts found are exactly those that some token of the text states. |
| NumericFacts.FactsAreStated | plugins/memory/src/gate.rs:624-641 | Skipping the unit of a value in two tokens loses no fact: from every index the loop finds what is stated there or later. |
| NumericFacts.ValueExactly | plugins/memory/src/gate.rs:745-784 | A value is digits and dots followed by letters or a percent sign, in one token or in two. |
| NumericFacts.SpacingDoesNotMatter | plugins/memory/src/gate.rs:745-784 | A number and its unit are the same value in one token or in two. |
| NumericFacts.DetectNumericContradiction | plugins/memory/src/gate.rs:566-584 | It fires if and only if the two texts state different values for some subject, and names such a pair. |
| NumericFacts.ContradictionIsSymmetric | plugins/memory/src/gate.rs:566-584 | Firing is symmetric. |
| NumericFacts.ContradictsItselfExactly | plugins/memory/src/gate.rs:566-584 | Unlike technology facts, a text fires against itself, exactly when two of its tokens state different values for one subject. |
| NumericFacts.TextCanContradictItself | plugins/memory/src/gate.rs:566-584 | Three words and a value, then the same words and another value, do so. |
| NumericFacts.SelfContradictingText | plugins/memory/src/gate.rs:566-584 | Such a text exists. |
| Links.FindLinkEnd | plugins/documentation/src/lib.rs:2610-2625 | It answers the first position where closings outnumber openings, or none exactly when there is none. |
| Links.BalanceCounts | plugins/documentation/src/lib.rs:2610-2625 | The balance of a stretch is the number of its opening parentheses less that of its closing ones. |
| Links.OpensExactly | plugins/documentation/src/lib.rs:2587-2596 | A link opens at a closing bracket followed by an opening parenthesis. |
| Links.EnclosedIsBalanced | plugins/documentation/src/lib.rs:2610-2625 | What a link encloses is balanced. |
| Links.ExtractMarkdownLinks | plugins/documentation/src/lib.rs:2587-2608 | The scanner's links are the trimmed, non-empty texts of a scan: disjoint ordered spans that cover every closable opening. |
| Links.TextsOfSpans | plugins/documentation/src/lib.rs:2596-2602 | The links are the texts of the spans that are not empty. |
| Links.ScanIsUnique | plugins/documentation/src/lib.rs:2587-2608 | There is only one scan of a byte string. |
| AuthorityPaths.ClassifyPath | plugins/documentation/src/lib.rs:2651-2675 | The class is that of the longest root holding the path, of equally long ones the first class in the order current, planning, research, generated; the default exactly when no root holds it. |
| AuthorityPaths.UnderExactly | plugins/documentation/src/lib.rs:2659-2669 | A root holds itself and what lies below it, and nothing else. |
| AuthorityPaths.TiesAreEqual | plugins/documentation/src/lib.rs:2659-2669 | Roots that tie are the same path, so only a root listed under two classes depends on their order. |
| AuthorityPaths.NormalizationIsIdempotent | plugins/documentation/src/lib.rs:2677-2682 | Normalised paths have no backslash, upper-case letter or outer slash, and stay as they are. |
| Slugs.SlugIsBounded | plugins/planning/src/intent.rs:247-259 | No slug is longer than allowed, or begins or ends with a dash, whatever the text. |
| Slugs.AsciiSlugs | plugins/planning/src/intent.rs:247-259 | On ASCII text slicing never panics and making a slug is idempotent. |
| Slugs.SlugifyPanicsExactly | plugins/planning/src/intent.rs:257 | Slicing by byte panics if and only if the slug is too long and no prefix of it has exactly the allowed number of bytes. |
| Slugs.NonAsciiCanPanic | plugins/planning/src/intent.rs:257 | At every length there is a text outside ASCII on which it does. |
| Slugs.NumberedInjective | plugins/planning/src/intent.rs:74 | The number after the last dash and the text before it are determined by the whole id. |
| Intent.ExpandIntent | plugins/planning/src/intent.rs:24-218 | The nested loops build the specified nodes and edges; an empty scope and a panicking slug are the only failures. |
| IntentGraph.NodeIdsDistinct | plugins/planning/src/intent.rs:37-152 | All node ids are distinct, whatever the slugs. |
| IntentGraph.EdgeIdsDistinct | plugins/planning/src/intent.rs:101-187 | All edge ids are distinct. |
| IntentGraph.NodesExactly | plugins/planning/src/intent.rs:37-182 | The nodes are the active goal, an acceptance node for each constraint and verification, and proposed work for each deliverable. |
| IntentGraph.EdgesExactly | plugins/planning/src/intent.rs:80-187 | The goal requires each constraint and decomposes into each deliverable; each deliverable requires each verification. |
| IntentGraph.ExpandedIntentIsWellFormed | plugins/planning/src/intent.rs:37-190 | Both ends of every edge are nodes, every edge rises a layer, and there are 1+C+D+V nodes and C+D+D·V edges. |
| IntentGraph.NoLongWalks | plugins/planning/src/intent.rs:37-190 | No walk has three edges, and none returns to its start. |

## Left out

* SQL, the file system, JSON and YAML: replaced by the maps, sequences and contracts above; how decay and access counts
  make up refinement and total score is a parameter.
* What the store's `search` does after ranking: it trims to a context budget, counts an access to each row that it
  returns and may promote it, so a search can change scope and update time of its results.
* Lock-free readers during a write (list, show, export): only writers are interleaved.
* Parsing of language-model answers and prompt texts: an answer is already a verdict.
* `merge_content` and the searchable-term comparison of the gate: the merged text is a parameter of the decision.
* Import counters, statistics, override rejection and the remaining command output: wide but shallow.
* Token refresh: a poisoned lock (a panic while holding it) is not modelled.
* `last_consolidation` marks, content versions and lowered reliabilities written by the apply loop: content, scope and
  state of the memories, links and contradictions are modelled.
* plugins/mcp/src/lib.rs: its name splitter repeats the gate's.
- Gate.ExcludingIsWithout: the store is the memories that `find_similar` can see (active, visible scopes); its contract at equal similarity is assumed, not derived from the vector index.
- Links.ExtractMarkdownLinks: decoding and trimming the bytes of a link is a parameter.
- AuthorityPaths.ClassifyPath: lengths count characters where the code counts bytes; roots that hold one path are prefixes of it, so both counts order them alike.
- Retrieval.ListVisibleMemories: rows created at the same instant are listed in any fixed order.
- ConsolidateCommand.MemoryTable.ApplyMerge: the store also trims the text it writes and refuses a blank one; both strategies answer texts that are trimmed already or are the survivor's own.
- Gate.Evaluate: a contradiction found by the heuristics is reported by which of them fired, not by its sentence; the detectors' own contracts name subjects and values.
- SearchIsolation.SearchIsIsolatedExactly: BM25 ranks count the words of all rows in the table; here a row's rank is given, and only its normalisation depends on other rows.
- Writers.StuckExactly: a process that dies while it holds the lock also leaves the lock file; processes do not die in this model.
