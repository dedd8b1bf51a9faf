# Context Relay Protocol: verified models

This project models the hardest components of the Context Relay Protocol code base in Dafny and
proves what their code, documentation and tests promise. Each module follows one source file (the
text helpers and base64url have modules of their own, `ProtectedSpans` is the first half of `Chunker`,
`CheckpointLaws` and `ConfigLaws` hold laws of `Checkpoint` and `Config`, and `Common` what several modules share).
Code that works by changing things step by step is a method or a class here, proved against a
specification function; the laws are lemmas about those functions.

| module | source | main results |
|---|---|---|
| `EditDistance` | crp/advanced/cross_window.py | the one-row dynamic program computes the Levenshtein distance, which is the least cost of an edit script and a metric; exactly when the normalised value is 1 and when it keeps the triangle inequality |
| `CosineSimilarity` | crp/advanced/cross_window.py, crp/advanced/auto_ingest.py | the law of cosines fixes every value; the range, and exactly when it is 1, -1 and 0 |
| `Hierarchy` | crp/advanced/hierarchical.py | the planner's level count is one more than the number of reduce rounds; the loop ends exactly when it should |
| `ProtectedSpans`, `Chunker`, `Reconcile`, `Text` | crp/advanced/auto_ingest.py | chunks lose nothing exactly for positive sizes; which place is cut, by kind and position; exactly when a chunk ends in a protected span; the fate of every fact, by numbers; every fact is accounted for once, and exactly when words get lost |
| `AuditChain` | crp_shared/audit.py | the payload is decodable, the chain tip commits to the history, every recorded history verifies; the exact verdict for every overwritten, deleted, moved or truncated row |
| `Checkpoint`, `CheckpointLaws` | crp_mcp/checkpoint_service.py | over all interleavings: what resolved every checkpoint, quorum, finality, exact signature validity, no timeout lost; when a quorum is as many people |
| `StickyMode` | crp/activation/mode.py | exactly when a change fires, for any clock; a run lasts a minute for every promotion and five for every demotion |
| `Config`, `ConfigLaws` | crp/config.py, crp/config_schema.py | merging adds no validation error; exactly which errors are reported, in which order, and when validation raises; laws of reading and writing by path |
| `Base64Url`, `SessionToken` | crp_shared/session_token.py | the encoding round trip; exactly which texts are accepted; an issued token verifies exactly until it expires; its signature binds every field, but has several spellings |
| `SourceGrounding` | crp/advanced/source_grounding.py | the index equals a scan of the history; packing is maximal, within budget and drawn from the history |
| `PolicyCompiler` | crp_mcp/checkpoint_policy.py | the whitelist covers the whole tree and is enough; risk words compare by rank; for every tree, eager and short-circuit evaluation agree, and exactly when only the eager one raises |

## Assumptions, and where they appear

- The keyed MAC and SHA-256 are arbitrary functions into 64 hex digits. No such function is injective
  on all strings, so a result that needs it assumes that no two of the payloads or data texts it is
  about collide, and nothing more (`AuditChain.NoCollision`, `AuditChain.TellsPredecessors`, the
  premises of `AuditChain.EditNeverFits`, `CheckpointLaws.SignatureExact` and
  `SessionToken.SignatureBinds`).
- JSON is an abstract codec. `SessionToken` assumes that decoding inverts encoding for the header and
  payload at hand. `AuditChain` works on the canonical JSON text of the event data.
- Numbers that are floating point in the source are exact reals or integers. A square root enters
  through its defining equation.
- Clocks, fresh identifiers, token counts, embeddings, lower-casing, model answers, Python's mixed
  arithmetic and its conversions of unusual JSON values are parameters.
- `Checkpoint` treats what lies between two awaits as one step. Its runs create checkpoints under
  fresh ids. Rules may carry any `on_timeout` except the waiting status itself;
  `CheckpointLaws.TimeoutResolvesIff` shows that this condition is exact.
- `StickyMode.FiresExact` and the bounds on changes hold for any clock, or any that does not run
  backwards. `StickyMode.FiresIffPersisted` and `StickyMode.PersistentTargetWins` also need that it
  never shows 0.0, because a stored 0.0 counts as missing (crp/activation/mode.py line 114).
- `Hierarchy.ReducePhase` needs a fan-in of at least 2 or at most one synthesis;
  `Hierarchy.ReduceEndsIff` shows that otherwise the loop never ends.
- `AuditChain` takes events whose type is upper case with underscores and whose timestamp is in ISO
  form. Window ids without a colon are assumed only where needed; `AuditChain.PayloadAmbiguity` says
  exactly which ambiguity they exclude.

## Where the code differs from its documentation

- crp_mcp/checkpoint_policy.py promises dotted paths, but a dotted path parses to an attribute node,
  which is not on the whitelist, so no condition with one anywhere compiles
  (`PolicyCompiler.DottedPathsRejected`, `PolicyCompiler.RiskLevelRejected`).
- The same file promises the literals true, false and null; the code looks these words up as context
  variables. Conditions mean what the documentation says in exactly the contexts that bind true and
  false to themselves and null to null or not at all (`PolicyCompiler.LiteralsNeedBinding`); in the
  empty context `true` is false (`PolicyCompiler.TrueIsFalse`).
- `and`, `or` and chained comparisons evaluate all their operands. A condition whose value is settled
  still raises exactly when its evaluation, at any depth, passes by something that raises: an operand
  behind the first one that decides, or a comparator behind the first pair that fails
  (`PolicyCompiler.SettledRaisesIff`). `False and 1 / 0`, `1 < 0 < 1 / 0` and
  `(False and 1 / 0) or True` do (`PolicyCompiler.EagerRaises`, `PolicyCompiler.ChainRaises`,
  `PolicyCompiler.NestedRaises`).
- crp/advanced/cross_window.py says that 1.0 means completely different; "ab" and "ba" share both
  characters and score 1.0 (`EditDistance.SharedButOne`). `EditDistance.NormalizedOneIff` has the
  exact condition on the positions of equal characters.
- The normalised distance is not a metric. `EditDistance.NormalizedTriangleIff` says for which lengths
  the triangle inequality holds for all strings.
- crp/advanced/auto_ingest.py protects code blocks and tables from being split, but when the best
  place for a cut is the chunk's own start, the chunk is cut at its full size, even inside a protected
  span and although a later free place exists (`Chunker.ProtectedEndIff`, `Chunker.FreePlaceUnused`).
  An overlap may start inside a span as well, but the span is then whole in an earlier chunk, unless a
  chunk ends inside it (`Chunker.NextStartProtectedIff`, `Chunker.SpanKeptWhole`).
- With 500 or fewer tokens available the chunk size is zero or negative (crp/advanced/auto_ingest.py
  lines 339-346), and then text is lost (`Chunker.LosslessIff`, `Chunker.NoRoomLoses`).
- A fact that is dropped as a duplicate may hold words that no other fact has: without embeddings,
  the score of a text that contains all words of another one is 1
  (`Reconcile.LongerFactIsLost`, `Reconcile.WordLost`).
- A waiting checkpoint with at least one approval carries its creation signature and fails
  verification until it is resolved (`CheckpointLaws.SignatureExact`, `CheckpointLaws.WaitingUnverified`).
- `required_approvers` counts approvals: one reviewer can approve several times
  (`CheckpointLaws.QuorumOfPeople`, `CheckpointLaws.OnePersonTwice`).
- `validate_config` returns a list of messages, except that a text where a bounded number is expected
  raises (`Config.RaisesIff`, `Config.TextThresholdRaises`).
- A mode candidate first seen at time 0.0 never fires (`StickyMode.FiresExact`,
  `StickyMode.ZeroStartNeverFires`).
- `verify_chain` is documented as verifying the full chain of a session; it sees the first 1000
  events, and it cannot notice that the last ones are gone (`AuditChain.TamperReported`,
  `AuditChain.TruncationUnseen`). The MAC does not cover the index of a row, so a changed index is
  noticed only when it moves the row (`AuditChain.IndexChangeReported`).
- A session token compares decoded signatures, and the decoder ignores the last bits of a final group
  that is not whole, so an issued token has other spellings that are accepted
  (`Base64Url.SpellingUniqueIff`, `SessionToken.OtherTextAccepted`).

## Model

| member | source | states |
|---|---|---|
| `EditDistance.LevIsLeastCost` | crp/advanced/cross_window.py:158-170 | the recursion is the least cost of any insert, delete and substitute script turning one sequence into the other, and no other number is |
| `EditDistance.LevBelowScript` | crp/advanced/cross_window.py:163-169 | no edit script is cheaper than the recursion |
| `EditDistance.BestScriptIsBest` | crp/advanced/cross_window.py:163-169 | tracing the recursion back gives a script of exactly that cost |
| `EditDistance.ComposeTurns` | crp/advanced/cross_window.py:163-169 | two scripts can be run as one at no greater cost |
| `EditDistance.LevSymmetric` | crp/advanced/cross_window.py:143-170 | the distance is symmetric |
| `EditDistance.LevZeroIffEqual` | crp/advanced/cross_window.py:150-152 | the distance is zero exactly on equal strings |
| `EditDistance.LevTriangle` | crp/advanced/cross_window.py:143-170 | the distance obeys the triangle inequality |
| `EditDistance.LevBounds` | crp/advanced/cross_window.py:144-151 | the distance is at most the longer length and at least the difference of the lengths |
| `EditDistance.FillRow` | crp/advanced/cross_window.py:161-169 | one pass of the inner loop turns row i - 1 of the table into row i in place |
| `EditDistance.NormalizedEditDistance` | crp/advanced/cross_window.py:143-170 | the program returns the Levenshtein distance over the longer length, and 0 for two empty strings |
| `EditDistance.NormalizedRange` | crp/advanced/cross_window.py:144-170 | the result lies in [0, 1], is symmetric, and is 0 exactly for identical strings |
| `EditDistance.LevIsLeastGaps` | crp/advanced/cross_window.py:163-169 | the distance is the least cost of the gaps between rising positions with equal characters |
| `EditDistance.NormalizedOneIff` | crp/advanced/cross_window.py:150-170 | the result is 1 exactly when no chain of rising equal positions has more matches than its offsets fall |
| `EditDistance.NothingShared` | crp/advanced/cross_window.py:150-152 | strings without a common character score 1 |
| `EditDistance.MatchInReach` | crp/advanced/cross_window.py:150-170 | one equal pair whose offset lies between 0 and the difference of the lengths is enough for less than 1 |
| `EditDistance.SharedButOne` | crp/advanced/cross_window.py:150-152 | "ab" and "ba" score 1 although they share both characters |
| `EditDistance.NormalizedTriangleIff` | crp/advanced/cross_window.py:170 | for all strings of three given lengths the triangle inequality holds exactly when the middle one is no longer than the longer of the others or at least as long as both together |
| `EditDistance.TriangleFails` | crp/advanced/cross_window.py:170 | for every other choice of lengths x^p y^k z^q breaks it between its own end and its own beginning |
| `CosineSimilarity.CauchySchwarz` | crp/advanced/cross_window.py:619-621 | the squared dot product is at most the product of the squared norms |
| `CosineSimilarity.CosineRange` | crp/advanced/cross_window.py:607-622 | the similarity lies in [-1, 1] and is 0 for invalid input |
| `CosineSimilarity.CosineSymmetric` | crp/advanced/auto_ingest.py:230-237 | the order of the vectors does not matter |
| `CosineSimilarity.CosineOneIff` | crp/advanced/cross_window.py:619-622 | non-zero vectors score 1 exactly when they point in the same direction |
| `CosineSimilarity.LawOfCosines` | crp/advanced/cross_window.py:619-622 | for non-zero vectors the similarity is the one number c for which the squared distance is normA^2 + normB^2 - 2 normA normB c |
| `CosineSimilarity.CosineMinusOneIff` | crp/advanced/cross_window.py:619-622 | non-zero vectors score -1 exactly when they point in opposite directions |
| `CosineSimilarity.CosineZeroIff` | crp/advanced/cross_window.py:617-622 | the score is 0 exactly for invalid input, when a vector is zero, and when the vectors are orthogonal, that is when Pythagoras holds |
| `Hierarchy.CeilDivAtMost` | crp/advanced/hierarchical.py:111 | the rounded-up quotient is the least one that suffices |
| `Hierarchy.NestedCeil` | crp/advanced/hierarchical.py:163-180 | rounding up twice equals rounding up once by the product |
| `Hierarchy.Levels` | crp/advanced/hierarchical.py:112 | the level count is the least L >= 1 with fan_in^L at least the segment count |
| `Hierarchy.MakePlan` | crp/advanced/hierarchical.py:103-127 | a plan has the least positive number of segments that holds all tokens |
| `Hierarchy.PlanLevels` | crp/advanced/hierarchical.py:111-112 | the guards inside the logarithms do not change the level count, and a single segment has one level |
| `Hierarchy.PlanSettings` | crp/advanced/hierarchical.py:103-127 | what a plan takes from its settings and what the defaults are: 100 context windows, a fan-in of 50, three percent per level, several levels beyond 1000 context windows |
| `Hierarchy.DegradationOfOne` | crp/advanced/hierarchical.py:66-71 | no level degrades nothing, and one level by the given share |
| `Hierarchy.DegradationCompounds` | crp/advanced/hierarchical.py:66-71 | what two stretches of levels leave is the product of what each of them leaves |
| `Hierarchy.DegradationGrows` | crp/advanced/hierarchical.py:66-71 | degradation is a share and grows with the levels |
| `Hierarchy.BatchesPartition` | crp/advanced/hierarchical.py:164-166 | a round cuts its items into ceil(n / k) non-empty batches of at most k, in order and without loss |
| `Hierarchy.RoundAt` | crp/advanced/hierarchical.py:164-179 | result i of a round is the answer on the number and the joined text of items i k to (i + 1) k; without a model, the first 1000 characters of that text |
| `Hierarchy.RoundsKeepText` | crp/advanced/hierarchical.py:162-180 | if every synthesis keeps its text, any number of rounds leaves the joined text as it was |
| `Hierarchy.RoundsLength` | crp/advanced/hierarchical.py:162-180 | r rounds leave ceil(N / k^r) items |
| `Hierarchy.SmallEnoughIff` | crp/advanced/hierarchical.py:163 | after r rounds the loop guard is false exactly when k^(r+1) covers the input |
| `Hierarchy.PlannedRounds` | crp/advanced/hierarchical.py:112-180 | the first round count that ends the loop is the planned level count minus one, and only that |
| `Hierarchy.ReduceEndsIff` | crp/advanced/hierarchical.py:161-181 | the loop ends exactly when the fan-in is at least 2 or at most one synthesis is given |
| `Hierarchy.MakeBatches` | crp/advanced/hierarchical.py:164-166 | the slicing loop produces the batches |
| `Hierarchy.RunRound` | crp/advanced/hierarchical.py:164-180 | one pass of the loop body is one round |
| `Hierarchy.ReducePhase` | crp/advanced/hierarchical.py:155-181 | wherever the loop ends at all, it ends after the first sufficient number of rounds, which is levels - 1, with at most fan_in items |
| `Hierarchy.Segment` | crp/advanced/hierarchical.py:196-202 | the input is cut into exactly the planned number of equal segments, the last taking the remainder, without loss |
| `Hierarchy.HierarchicalDispatch` | crp/advanced/hierarchical.py:183-211 | the pipeline maps every segment once, reduces to between 1 and fan_in items, and its plan's degradation is that of rounds + 1 levels |
| `ProtectedSpans.MergeOverlappingSpans` | crp/advanced/auto_ingest.py:118-131 | the loop changes the first span object of each group in place and no other, shared objects included; distinct ones then hold the merge of the spans sorted by start |
| `ProtectedSpans.SortKeeps` | crp/advanced/auto_ingest.py:122 | sorting by start orders the spans and keeps them all |
| `ProtectedSpans.SortStable` | crp/advanced/auto_ingest.py:122 | the sort is stable: spans with the same start keep their order |
| `ProtectedSpans.MergedSpansJoin` | crp/advanced/auto_ingest.py:123-131 | the sorted spans fall into groups, and each merged span has the start of its group, its farthest end, and all its kinds joined by plus signs |
| `ProtectedSpans.MergeSpansKeepsPositions` | crp/advanced/auto_ingest.py:118-131 | merged spans are ordered, strictly separated and cover exactly the same positions |
| `Chunker.FindFreeCut` | crp/advanced/auto_ingest.py:149-152 | a priority's loop finds its first match outside all protected spans |
| `Chunker.FindSplitPoint` | crp/advanced/auto_ingest.py:143-178 | the six priorities are tried in order |
| `Chunker.SplitPointMeaning` | crp/advanced/auto_ingest.py:143-178 | for every region, on the characters of the text and the ends of the spans: the split point is the first place of the first of the six kinds that has a usable one, and the end of the region exactly when none has |
| `Chunker.SplitPointIsFree` | crp/advanced/auto_ingest.py:143-178 | the split point lies in the region and, unless it is its end, in no protected span |
| `Chunker.FirstFreeIsFree` | crp/advanced/auto_ingest.py:149-177 | a priority yields a free candidate exactly when it has one |
| `Chunker.HeadingPreferred` | crp/advanced/auto_ingest.py:148-152 | if the region has an unprotected heading break, the cut is at the first one |
| `Chunker.PySliceMeaning` | crp/advanced/auto_ingest.py:147 | a slice with its end inside, behind, before the start, or counted from the end of the text |
| `Chunker.FirstGapIsFree` | crp/advanced/auto_ingest.py:158-162 | the end of a span that has a successor is not protected |
| `Chunker.SplitAtBoundaries` | crp/advanced/auto_ingest.py:181-212 | for every chunk size and overlap, negative ones too, the loop ends and appends exactly the chunks that the split points and the overlap give |
| `Chunker.LosslessIff` | crp/advanced/auto_ingest.py:193-210 | every text survives exactly when the chunk size is positive and the overlap not negative |
| `Chunker.NoRoomLoses` | crp/advanced/auto_ingest.py:193-210 | with a chunk size of zero or less every non-empty text loses characters |
| `Chunker.ChunksTile` | crp/advanced/auto_ingest.py:193-210 | chunks are non-empty slices of at most chunk_size, starts rise from 0 and never pass the previous end, the last end is the end of the text |
| `Chunker.ChunkEndMeaning` | crp/advanced/auto_ingest.py:193-200 | a chunk ends at the end of the text when that is in reach, else at the best place behind its start, else where it is full |
| `Chunker.ChunksOverlap` | crp/advanced/auto_ingest.py:202-210 | chunks are numbered from 0, and neighbours share exactly overlap characters, or all but one of the earlier chunk |
| `Chunker.ChunksReassemble` | crp/advanced/auto_ingest.py:181-212 | the chunks up to each next start give back the text |
| `Chunker.ChunkEndsAreFree` | crp/advanced/auto_ingest.py:193-200 | a chunk that ends before the text ends outside every protected span or is full |
| `Chunker.ProtectedEndIff` | crp/advanced/auto_ingest.py:195-198 | a chunk ends inside a protected span exactly when the full chunk would and the winning place is the chunk's own start or there is none |
| `Chunker.FreePlaceUnused` | crp/advanced/auto_ingest.py:148-198 | a text whose code block is cut at 8 although the free blank at 4 precedes it |
| `Chunker.NextStartProtectedIff` | crp/advanced/auto_ingest.py:195-210 | after a free end the next chunk starts inside a protected span exactly when a span that reaches back over that start ends within the chunk; without overlap never |
| `Chunker.SpanKeptWhole` | crp/advanced/auto_ingest.py:193-210 | a non-empty span is whole in some chunk unless a chunk ends strictly inside it |
| `Chunker.ChunkText` | crp/advanced/auto_ingest.py:337-349 | for every chunk size: merging and cutting lose nothing exactly when the size is positive or the text empty, and then, unless a chunk is full or last, cut no detected span |
| `Text.SplitAppend` | crp/advanced/auto_ingest.py:289-294 | splitting into words distributes over a separating space |
| `Text.SplitJoin` | crp/advanced/auto_ingest.py:290-294 | splitting undoes joining words with spaces |
| `Text.SeparatorsExact` | crp/advanced/auto_ingest.py:222-223 | exactly the 29 white-space characters separate words |
| `Reconcile.OverlapRatioRange` | crp/advanced/auto_ingest.py:220-227 | the overlap ratio is symmetric, in [0, 1], and 1 exactly when one non-empty word set contains the other |
| `Reconcile.MergeTextsCovers` | crp/advanced/auto_ingest.py:287-295 | a merged text continues the first text and misses no word of the second, up to case |
| `Reconcile.MergeTextsExact` | crp/advanced/auto_ingest.py:287-295 | a merged text has the words of the first text, followed by exactly those words of the second that the first does not have, in order |
| `Reconcile.OverlapThresholds` | crp/advanced/auto_ingest.py:220-227 | the three thresholds on the ratio are inequalities between the numbers of shared words and of words of the smaller set, whatever their sizes |
| `Reconcile.JudgeMeaning` | crp/advanced/auto_ingest.py:259-282 | the first existing fact that is a duplicate or a complement decides: drop, merge into it, or append when there is none |
| `Reconcile.FateByEmbedding` | crp/advanced/auto_ingest.py:259-282 | with embeddings: the first fact decides that is closer than 0.95, or closer than 0.75 with more than three tenths of the smaller word set in common; the first kind drops, the second merges, none appends |
| `Reconcile.FateByWords` | crp/advanced/auto_ingest.py:264-282 | without embeddings: the first fact decides that shares more than three quarters of the smaller word set; more than nineteen twentieths drop, else it merges, and none appends |
| `Reconcile.LogIsFate` | crp/advanced/auto_ingest.py:252-257 | every later fact is judged against the results as they are when its turn comes |
| `Reconcile.RunAccounts` | crp/advanced/auto_ingest.py:252-284 | the result is the first chunk followed by the appended facts in order, each grown by exactly the facts merged into it |
| `Reconcile.RunTargets` | crp/advanced/auto_ingest.py:268-282 | every merge names an existing result |
| `Reconcile.GrowKeeps` | crp/advanced/auto_ingest.py:278-280 | a grown fact keeps its text as a prefix, has every word of every merged fact and the greatest confidence involved |
| `Reconcile.WordsSurvive` | crp/advanced/auto_ingest.py:252-284 | every word of the first chunk and of every later fact that is not dropped is in some result |
| `Reconcile.WordLostIff` | crp/advanced/auto_ingest.py:267-277 | a step loses a word of its fact exactly when the first existing fact that decides is a duplicate and no existing fact has the word |
| `Reconcile.DuplicateOfFew` | crp/advanced/auto_ingest.py:220-268 | without embeddings and up to 20 distinct words, a duplicate is a text whose word set contains the other's or is contained in it |
| `Reconcile.LongerFactIsLost` | crp/advanced/auto_ingest.py:252-284 | then a later fact loses words to a single existing one exactly when its words properly include the existing ones |
| `Reconcile.WordLost` | crp/advanced/auto_ingest.py:267-277 | "a b" after "a" is dropped and "b" is gone |
| `Reconcile.Decide` | crp/advanced/auto_ingest.py:256-274 | the inner loop finds the verdict |
| `Reconcile.Settle` | crp/advanced/auto_ingest.py:276-282 | one later fact, even one that is already a result, changes the text and confidence of its merge target, or is appended, or nothing happens |
| `Reconcile.RunFactsDistinct` | crp/advanced/auto_ingest.py:250-284 | on distinct fact objects the run on objects is the run on values |
| `Reconcile.ReconcileChunkBoundaries` | crp/advanced/auto_ingest.py:240-284 | the loops give every fact object the contents and the result the order that the run on objects gives, whichever objects are listed repeatedly; distinct objects give the run on values |
| `AuditChain.PayloadEqual` | crp_shared/audit.py:168-174 | two payloads are equal exactly when type, timestamp, data hash and the rest agree |
| `AuditChain.PayloadAmbiguity` | crp_shared/audit.py:168-174 | the only ambiguity is a first event whose window id ends in another event's previous HMAC |
| `AuditChain.PayloadDecodable` | crp_shared/audit.py:105-176 | with colon-free window ids the payload determines every field, for an empty and a full previous HMAC |
| `AuditChain.EqualHmacs` | crp_shared/audit.py:162-176 | equal HMACs mean equal covered fields and predecessors |
| `AuditChain.TipCommits` | crp_shared/audit.py:162-176 | two valid chains with the same tip have the same length and agree event by event |
| `AuditChain.HmacsDistinct` | crp_shared/audit.py:162-176 | no HMAC occurs twice in a valid chain |
| `AuditChain.NumberedQueries` | crp_shared/audit.py:208-224 | on rows numbered in order, the queries return the last HMAC, the next index and the rows as they are |
| `AuditChain.QueriesSort` | crp_shared/audit.py:208-224 | on any rows: the listing has every row once, by index; the last HMAC is that of a row with the greatest index, and the next index is one more |
| `AuditChain.PageOfNumbered` | crp_shared/audit.py:283-314 | a page has the rows with the indices from its offset on, as many as the limit allows |
| `AuditChain.PagesJoin` | crp_shared/audit.py:283-314 | two successive pages are one longer page |
| `AuditChain.SealFits` | crp_shared/audit.py:207-227 | the recorded row extends the numbering and the chain of its session |
| `AuditChain.RecordKeeps` | crp_shared/audit.py:198-249 | recording keeps every session numbered and chained |
| `AuditChain.HistoryVerifies` | crp_shared/audit.py:198-374 | any recorded history keeps each session's events in order from index 0, VALID from 0 and PARTIAL from any later index |
| `AuditChain.ReportsUnique` | crp_shared/audit.py:346-374 | a list of events has only one right verdict |
| `AuditChain.TamperReported` | crp_shared/audit.py:286-374 | for any row put in the place of a row of the same session and index: BROKEN there exactly when it lacks the MAC of itself after its predecessor; else BROKEN at the next shown row if its HMAC is new; else VALID; other sessions are untouched |
| `AuditChain.EditNeverFits` | crp_shared/audit.py:162-176 | a row changed in a covered field or in its HMAC alone lacks that MAC |
| `AuditChain.CopyNeverFits` | crp_shared/audit.py:162-176 | so does another row of the chain copied over it together with its HMAC |
| `AuditChain.DeletionReported` | crp_shared/audit.py:286-374 | deleting a row is BROKEN at the row that followed, if there is one and the deleted row was among the first 1000; deleting the last row goes unnoticed |
| `AuditChain.TruncationUnseen` | crp_shared/audit.py:346-374 | whatever number of last rows is gone, the rest verifies |
| `AuditChain.RearrangedReport` | crp_shared/audit.py:346-374 | whatever rows of a chain are listed, in whatever order, with gaps or repetitions: BROKEN at the first one that is not the chain's own row there |
| `AuditChain.OrderMoved` | crp_shared/audit.py:290-300 | sorting after one index change moves that one row, to the position its new index gives |
| `AuditChain.IndexChangeReported` | crp_shared/audit.py:286-374 | changing only the index of a row is unseen when the row keeps its place or all happens behind the first 1000; else BROKEN at the row when it moved to the front and at its old successor when it moved to the back |
| `AuditChain.AuditTrail.RecordEvent` | crp_shared/audit.py:198-249 | the method appends the sealed row and keeps the table well kept |
| `AuditChain.AuditTrail.VerifyChain` | crp_shared/audit.py:346-374 | the loop reports the first broken link from the given index, or PARTIAL, VALID or UNVERIFIED |
| `Checkpoint.StepKeepsInvariant` | crp_mcp/checkpoint_service.py:250-409 | every create, schedule, approve, reject and timeout step keeps every record good |
| `Checkpoint.RunInvariant` | crp_mcp/checkpoint_service.py:250-409 | the invariant holds after every interleaving |
| `CheckpointLaws.ApprovalsCounted` | crp_mcp/checkpoint_service.py:380-409 | waiting: only approvals, fewer than required; approved: exactly the required ones or by the system; rejected: one rejection after approvals; every outcome carries the reviewer and note of the decision or the checkpoint's own rule that caused it |
| `CheckpointLaws.ResolutionExplained` | crp_mcp/checkpoint_service.py:250-409 | every resolved checkpoint was resolved by one step of the run: the approval that filled its quorum, a rejection, or one of its own timeout rules, with the status, reviewer, note and time that this step gives; "reject" and "approve" stand for the outcomes, any other text for itself |
| `CheckpointLaws.TermsOfCreation` | crp_mcp/checkpoint_service.py:305-338 | in every reachable state a record carries what its creator asked for, with the default message and at least one approver |
| `CheckpointLaws.TasksAccounted` | crp_mcp/checkpoint_service.py:276-283 | in every reachable state the pending and fired tasks of a scheduled checkpoint are together exactly its rules that can do something |
| `CheckpointLaws.TimeoutStillPending` | crp_mcp/checkpoint_service.py:250-283 | a checkpoint that still waits after scheduling has a pending task for every deciding rule, and firing it resolves the checkpoint |
| `CheckpointLaws.DecimalGrows` | crp_mcp/checkpoint_service.py:262 | the seconds in a timeout note are in decimal: a further digit goes behind the others, a minus sign in front |
| `CheckpointLaws.SignatureExact` | crp_mcp/checkpoint_service.py:95-141 | a record verifies exactly when it is resolved or has no decision yet |
| `CheckpointLaws.WaitingUnverified` | crp_mcp/checkpoint_service.py:364-389 | after any run, the first approval of a new checkpoint that needs two or more leaves a waiting record that fails verification |
| `CheckpointLaws.QuorumOfPeople` | crp_mcp/checkpoint_service.py:380-389 | an approved checkpoint has as many different approvers as it requires exactly when nobody approved twice while it waited |
| `CheckpointLaws.OnePersonTwice` | crp_mcp/checkpoint_service.py:380-389 | after any run, one reviewer can fill the quorum of a new checkpoint that needs two |
| `CheckpointLaws.DecisionsRecorded` | crp_mcp/checkpoint_service.py:364-409 | the record holds exactly the decisions made while the checkpoint waited, each with its kind, reviewer, note and time, in order |
| `CheckpointLaws.ResolvedIsFrozen` | crp_mcp/checkpoint_service.py:255-257 | a resolved record never changes again |
| `CheckpointLaws.ResolvesAtMostOnce` | crp_mcp/checkpoint_service.py:289-299 | at most one step of a run resolves a checkpoint |
| `CheckpointLaws.RecordsExtend` | crp_mcp/checkpoint_service.py:322-404 | decisions are only appended and the terms of a checkpoint never change |
| `CheckpointLaws.TimeoutResolvesIff` | crp_mcp/checkpoint_service.py:259-265 | a deciding timeout resolves a waiting checkpoint exactly when its decision is not the waiting status |
| `Checkpoint.CheckpointService.CreateCheckpoint` | crp_mcp/checkpoint_service.py:305-361 | creation stores a signed waiting record that verifies |
| `Checkpoint.CheckpointService.ScheduleEscalation` | crp_mcp/checkpoint_service.py:276-283 | one task is scheduled per rule that can do something |
| `Checkpoint.CheckpointService.ApproveCheckpoint` | crp_mcp/checkpoint_service.py:364-389 | the new state and the reply of an approval, with both error replies |
| `Checkpoint.CheckpointService.RejectCheckpoint` | crp_mcp/checkpoint_service.py:392-409 | the new state and the reply of a rejection, with both error replies |
| `Checkpoint.CheckpointService.Escalate` | crp_mcp/checkpoint_service.py:250-273 | a firing task resolves its checkpoint if it still waits, and otherwise changes no record |
| `StickyMode.ModeState.Update` | crp/activation/mode.py:84-121 | the update computes the next state and reports a transition exactly when the mode changed |
| `StickyMode.AlwaysTracked` | crp/activation/mode.py:99-109 | the candidate fields always stand for the whole unbroken stretch of updates that saw the candidate |
| `StickyMode.FiresExact` | crp/activation/mode.py:84-121 | for any clock: an update changes the mode exactly when the whole unbroken stretch of its target lasted the required time and did not begin at 0.0 |
| `StickyMode.FiresIffPersisted` | crp/activation/mode.py:84-121 | without the time 0.0: exactly when its target was seen without interruption for the required time |
| `StickyMode.ChangeWasStable` | crp/activation/mode.py:24-26 | a promotion follows at least 60 unbroken seconds of its target, a demotion at least 300 |
| `StickyMode.DetectMeaning` | crp/activation/mode.py:47-64 | no facts, 1000 facts in three communities, and anything in between: exactly one mode is called for |
| `StickyMode.ChangeWasCalledFor` | crp/activation/mode.py:47-121 | every mode change was called for, in numbers of facts and communities, by all measurements of an unbroken minute, or five for a change to a poorer mode |
| `StickyMode.PersistentTargetWins` | crp/activation/mode.py:111-119 | a target seen by every update over the required time is the mode afterwards |
| `StickyMode.ChangesTakeTime` | crp/activation/mode.py:111-115 | every change uses up its own waiting time: the stretches behind two changes do not overlap |
| `StickyMode.ChangesBounded` | crp/activation/mode.py:84-121 | a run lasts at least 60 seconds for every promotion plus 300 for every demotion, so it has at most floor(duration / 60) changes |
| `StickyMode.ZeroStartNeverFires` | crp/activation/mode.py:114 | a candidate first seen at time 0.0 never fires |
| `Config.MergeInto` | crp/config.py:272-287 | the loop over the override's items computes the deep merge |
| `Config.OverrideWins` | crp/config.py:282-287 | a non-dict, non-null override value is what the merge has there |
| `Config.BaseSurvives` | crp/config.py:282-287 | a base value on which the override is silent survives |
| `Config.SetThenGet` | crp/config.py:173-205 | what is written, and everything below it, is read back |
| `Config.SetElsewhere` | crp/config.py:173-205 | unrelated paths read as before |
| `Config.SetFailsIff` | crp/config.py:192-205 | writing raises exactly when a proper prefix of the path holds a non-dict |
| `Config.SetCommutes` | crp/config.py:192-205 | writes at unrelated paths commute |
| `Config.OverridesReadBack` | crp/config.py:211-223 | after overriding unrelated paths each reads back and everything unrelated is as it was |
| `Config.MergeAddsNoErrors` | crp/config_schema.py:200-230 | wherever the merged tree is faulty, one of the two layers was faulty at the same path |
| `Config.ValidityClosed` | crp/config.py:272-287 | if two trees validate under a schema, so does their merge |
| `Config.CRPConfig.Read` | crp/config.py:173-190 | reading walks the dotted path and falls back to the default |
| `Config.CRPConfig.Write` | crp/config.py:192-205 | writing updates the tree at the path, or raises and changes nothing |
| `Config.CRPConfig.LayerOverride` | crp/config.py:211-223 | a fresh copy carries the overrides |
| `Config.RaisesIff` | crp/config_schema.py:200-223 | validation raises exactly when it comes to a non-null non-number under a string, integer or number schema with a bound |
| `Config.TextThresholdRaises` | crp/config_schema.py:41-52 | any text as grounding threshold raises, whatever else the settings and their schema hold |
| `Config.LeafListIsLeaf` | crp/config_schema.py:183-223 | the messages about one value are the specified errors, each once |
| `ConfigLaws.ErrorsExact` | crp/config_schema.py:183-223 | for every schema, wherever validation does not raise: exactly those errors are reported that name a value on a path through known properties and items, and what is wrong with it: its Python type, no equal value in the enumeration, or a number beyond a bound |
| `ConfigLaws.LeafInOrder` | crp/config_schema.py:211-223 | the messages about one value come in the order type, enumeration, minimum, maximum |
| `ConfigLaws.MessagesInTurn` | crp/config_schema.py:200-210 | the messages about a dict or list are those about its known keys or its items, one after the other, up to the first that raises |
| `Config.Validator.Leaf` | crp/config_schema.py:183-223 | type, enumeration and range checks append exactly their messages, in order, or raise on comparing a non-number |
| `Config.MessagesMean` | crp/config_schema.py:200-223 | in any order of the keys, the appended messages are exactly the errors of the specification, each once, or the exception is raised |
| `Config.Validator.Check` | crp/config_schema.py:200-223 | the recursive validator appends exactly the messages, in the order of the dicts and lists, up to the exception if there is one |
| `Text.SplitDotsHead` | crp_shared/session_token.py:158-161 | splitting at dots takes off a dot-free first part |
| `Base64Url.DecodePaddedInverts` | crp_shared/session_token.py:203-212 | padded decoding inverts padded encoding |
| `Base64Url.DecodeInverts` | crp_shared/session_token.py:203-212 | unpadded decoding inverts unpadded encoding for all byte strings |
| `Base64Url.EncodeShape` | crp_shared/session_token.py:203-212 | an encoding has no dot, no padding, and never length 1 modulo 4 |
| `Base64Url.EncodeIsStandard` | crp_shared/session_token.py:203-205 | character k is the letter of the alphabet for bits 6k to 6k + 5, and n bytes take (4 n + 2) / 3 characters, as section 4 of RFC 4648 says |
| `Base64Url.SpellingUniqueIff` | crp_shared/session_token.py:207-212 | bytes have only one spelling without padding exactly when their number is a multiple of three |
| `SessionToken.ClaimsRoundTrip` | crp_shared/session_token.py:68-105 | a token is restored from its own dict, whatever values its text fields hold |
| `SessionToken.FromDict` | crp_shared/session_token.py:88-105 | assigning the fields one by one restores the token that the dict describes, or fails exactly when a number cannot be converted |
| `SessionToken.ReadsFields` | crp_shared/session_token.py:88-105 | each field comes from its own key, or has its own default; reading fails exactly when one of the five numbers cannot be converted |
| `SessionToken.VerifySerialized` | crp_shared/session_token.py:156-196 | a serialized token is rejected for its version, then for expiry, and is otherwise returned unchanged |
| `SessionToken.AcceptedIff` | crp_shared/session_token.py:156-196 | for any text: it is accepted exactly when its header names HS256, its payload makes the returned token, of version 4 and not expired, and its third part is the MAC of the other two under the key of that session |
| `SessionToken.RejectedEarly` | crp_shared/session_token.py:158-170 | a text without three parts is reported first, and a foreign algorithm before anything about the token |
| `SessionToken.SerializedSays` | crp_shared/session_token.py:187-201 | what a serialized token says to anyone who decodes it |
| `SessionToken.IssuedVerifies` | crp_shared/session_token.py:121-185 | an issued token is accepted unchanged up to and including its expiry, and reported expired afterwards |
| `SessionToken.SignatureBinds` | crp_shared/session_token.py:177-201 | a text accepted with an issued token's session and signature bytes, however spelled, yields that token |
| `SessionToken.OtherTextAccepted` | crp_shared/session_token.py:165-185 | unless the length of the signature is a multiple of three, a second text is accepted for the same token |
| `SourceGrounding.IndexIsScan` | crp/advanced/source_grounding.py:148-151 | the index lists exactly the ids a scan of the accepted passages finds, in store order |
| `SourceGrounding.StoredIsLatest` | crp/advanced/source_grounding.py:149 | under an id the last accepted passage is stored |
| `SourceGrounding.LookupIsRenewedScan` | crp/advanced/source_grounding.py:132-165 | for any history a lookup is the scan with each passage replaced by the newest under its id |
| `SourceGrounding.LookupIsScan` | crp/advanced/source_grounding.py:132-165 | with distinct ids a lookup is the scan |
| `SourceGrounding.ShareIsFloor` | crp/advanced/source_grounding.py:185-187 | a share of a non-negative budget is its percentage rounded down |
| `SourceGrounding.SharesFit` | crp/advanced/source_grounding.py:27-33 | the fact and source shares together fit the budget |
| `SourceGrounding.TierTable` | crp/advanced/source_grounding.py:27-33 | what each tier grants to sources, and the rest of the hundred percent to facts |
| `SourceGrounding.TokensAddUp` | crp/advanced/source_grounding.py:190-213 | tokens add up over facts and passages |
| `SourceGrounding.PackedIsLongest` | crp/advanced/source_grounding.py:190-197 | the packed facts are the longest prefix that fits |
| `SourceGrounding.FitPrefixIsLongest` | crp/advanced/source_grounding.py:209-213 | a fact takes the longest prefix of its passages that fits |
| `SourceGrounding.IncludeKeeps` | crp/advanced/source_grounding.py:200-213 | included passages fit the source share and belong to packed facts scoring at least 0.7 |
| `SourceGrounding.IncludeTakesAll` | crp/advanced/source_grounding.py:203-213 | fact by fact: nothing below a score of 0.7, and else as many of its passages as fit into what the earlier ones left, and not one more |
| `SourceGrounding.SourceGroundingEngine.StorePassage` | crp/advanced/source_grounding.py:132-152 | storing sets the token count of the caller's passage object, keeps that object, extends the history and keeps the store equal to the replay of its history |
| `SourceGrounding.SourceGroundingEngine.GetPassagesForFact` | crp/advanced/source_grounding.py:154-165 | the objects found hold the renewed scan of the history |
| `SourceGrounding.SourceGroundingEngine.BuildSourceGroundedEnvelope` | crp/advanced/source_grounding.py:167-215 | the envelope packs maximally, stays within the budget in total, and includes only the newest accepted passages of relevant packed facts |
| `PolicyCompiler.CheckTree` | crp_mcp/checkpoint_policy.py:193-198 | the walk accepts exactly the trees whose every node and operator is on the whitelist |
| `PolicyCompiler.AllowedEvaluatesCleanly` | crp_mcp/checkpoint_policy.py:124-183 | evaluating an accepted tree never meets a disallowed node or unsupported operator |
| `PolicyCompiler.EagerAgreesWithShort` | crp_mcp/checkpoint_policy.py:124-183 | whenever eager evaluation succeeds, short-circuit evaluation gives the same value |
| `PolicyCompiler.ChainIsConjunction` | crp_mcp/checkpoint_policy.py:174-181 | a chained comparison is true exactly when all adjacent pairs compare true |
| `PolicyCompiler.ComparisonMeaning` | crp_mcp/checkpoint_policy.py:83-121 | two risk words compare as their places in LOW, MEDIUM, HIGH, CRITICAL, and one with a number as its place; as soon as one side is neither, both are compared as they are |
| `PolicyCompiler.RiskOrder` | crp_mcp/checkpoint_policy.py:83-121 | all six comparisons of two risk words, in any case, are those of their places |
| `PolicyCompiler.RiskThreshold` | crp_mcp/checkpoint_policy.py:10-121 | a risk word meets `risk >= HIGH` exactly when it is HIGH or CRITICAL in upper case; other text is compared as text |
| `PolicyCompiler.Connectives` | crp_mcp/checkpoint_policy.py:141-152 | when no part fails, and, or are conjunction and disjunction of the compiled parts |
| `PolicyCompiler.ConnectiveFails` | crp_mcp/checkpoint_policy.py:141-209 | and, or fail exactly when a part fails |
| `PolicyCompiler.Negation` | crp_mcp/checkpoint_policy.py:149-152 | not fails with its operand and is otherwise its negation |
| `PolicyCompiler.LeafMeaning` | crp_mcp/checkpoint_policy.py:131-139 | which constants are false, and what a name stands for |
| `PolicyCompiler.ArithmeticMeaning` | crp_mcp/checkpoint_policy.py:153-172 | signs and arithmetic apply the operation to the operands in order |
| `PolicyCompiler.OffTheListFails` | crp_mcp/checkpoint_policy.py:111-183 | nodes and operators off the list are refused by the evaluator as well |
| `PolicyCompiler.EvaluateIsShort` | crp_mcp/checkpoint_policy.py:186-209 | a compiled condition has the truth value of the short-circuit semantics and fails only by a Python exception |
| `PolicyCompiler.ResolveRoute` | crp_mcp/checkpoint_policy.py:229-275 | routing returns the first rule that evaluates to true, else the default |
| `PolicyCompiler.RuleApplies` | crp_mcp/checkpoint_policy.py:259-273 | a rule applies exactly when it has a condition that compiles, passes by nothing that raises, and has a true value in the short-circuit semantics |
| `PolicyCompiler.AllowedIffInside` | crp_mcp/checkpoint_policy.py:193-198 | a tree is accepted exactly when every node anywhere inside it is on the whitelist |
| `PolicyCompiler.DottedPathsRejected` | crp_mcp/checkpoint_policy.py:24-66 | a condition with an attribute node at any depth never compiles |
| `PolicyCompiler.RiskLevelRejected` | crp_mcp/checkpoint_policy.py:24-25 | nor does the documented `risk.level`, as in `risk.level >= HIGH` |
| `PolicyCompiler.LiteralWord` | crp_mcp/checkpoint_policy.py:134-139 | true, false or null has its documented value exactly when the context says so, or it is an absent null |
| `PolicyCompiler.LiteralsNeedBinding` | crp_mcp/checkpoint_policy.py:13-17 | all conditions have their documented meaning exactly in the contexts that bind the three words so |
| `PolicyCompiler.TrueIsFalse` | crp_mcp/checkpoint_policy.py:134-139 | in the empty context the condition true is false |
| `PolicyCompiler.EvalRaisesIff` | crp_mcp/checkpoint_policy.py:124-183 | for every tree: evaluation raises exactly when short-circuit evaluation does or, at any depth, passes by something that raises |
| `PolicyCompiler.SettledRaisesIff` | crp_mcp/checkpoint_policy.py:141-181 | a settled tree raises exactly when it passes by something that raises, and otherwise both semantics agree |
| `PolicyCompiler.EvaluateFailsIff` | crp_mcp/checkpoint_policy.py:186-209 | the same for accepted conditions and policy errors |
| `PolicyCompiler.EagerRaisesIff` | crp_mcp/checkpoint_policy.py:141-147 | the special case of one and or or on whose operands both semantics agree: exactly when the first raising operand comes after the first deciding one |
| `PolicyCompiler.EagerRaises` | crp_mcp/checkpoint_policy.py:141-147 | `False and 1 / 0` compiles, is settled, and raises |
| `PolicyCompiler.ChainRaises` | crp_mcp/checkpoint_policy.py:174-181 | `1 < 0 < 1 / 0` compiles, is settled, and raises |
| `PolicyCompiler.NestedRaises` | crp_mcp/checkpoint_policy.py:141-147 | `(False and 1 / 0) or True` does too, with the raising operand in front of the deciding one |

## Left out

- Text: Python's case mapping is a parameter; the white-space characters are listed as `str.isspace` has them.
- Chunker: the computation of the chunk size from the token budget; the regular expressions that detect code blocks, tables, JSON and lists; detection hands over any list of spans.
- Hierarchy.ReducePhase: fan-ins on which the loop never ends (see `Hierarchy.ReduceEndsIff`), or of zero or below, passed to the reduce phase directly; the rounding of the floating-point logarithm.
- AuditChain: the order of rows with equal indices, which the query leaves open, is taken to be that of insertion.
- AuditChain: window HMACs, exports, streaming and purging; a session's calls are atomic.
- AuditChain: the codec between the stored JSON and the event data; data that two JSON texts describe differently counts as different.
- Checkpoint: notification, persistence and the audit log, which change no record; the parsing of escalation rules.
- StickyMode: headers, coverage and tier caps.
- Config.CRPConfig.Write: nested dicts are values, so that a written dict stays shared with its writer is not captured.
- Config: the order in which a dict lists its keys is a parameter of the validator.
- Config: file loading, hashing and printing; dict keys are strings; error messages are reduced to path and kind.
- Base64Url: Python's decoder skips foreign characters and misplaced padding; here they are errors, which only matters for texts that no encoder produced.
- SessionToken: what Python's `str` and `int` make of values of another type is a parameter; keys of JSON objects are distinct.
- SourceGrounding: changes of a stored passage from outside; its id, text and links are constant.
- SourceGrounding: floating-point rounding of the shares; formatting and serialization.
- PolicyCompiler: parsing; non-string conditions; the values of Python's mixed arithmetic and ordering; attribute lookup on non-dict values, which no accepted name reaches.
- Level-based context estimates, parallel processing, permissions, billing and the other services of the repository: they would only add easy members.
