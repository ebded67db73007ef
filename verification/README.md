# Verification of loong-memory-core

A Dafny model of the memory store of `loong-memory-core`: the term scanner and hash embedder, the three SQLite tables
and the operations on them, vector maintenance, hybrid recall, and the engine that guards and audits every call.

## What is modelled

- **Text and vectors.** `Text`, `Tokenizer` and `FtsQuery` follow `tokenize.rs` and the query builder; `Embedder`
  counts hashed tokens with every `f32` addition rounded and proves the rounding never acts, then normalises over
  exact reals and in f32. `Floats`, `Codec` and `Similarity` hold `f32` bit patterns and arithmetic, the blob codec and
  the cosine, over exact reals and with every operation rounded.
- **The store.** `Tables` holds the tables as a value `Db` and the outcome of put and delete, each built on a plain map
  of records. `Store.SqliteStore` is a class whose methods run the statements one by one, with a rollback at each place
  where SQLite can report an error; every method is proved equal to its outcome on `Db`. `Outcomes` says what these
  outcomes are and what one call answers after another, `Refinement` what runs keep, `Isolation` what namespaces see,
  `Interleaving` and `ConcurrentRecall` what concurrent writers can do to a repair and to a recall.
- **Vector maintenance.** `Cells` classifies a stored cell for health, repair, migration and recall separately, as the
  source does, and proves how the four fit together; `Scans` lifts this to tables, and `Maintenance` says on the cells
  alone what is healthy, repaired, migrated, read and counted.
- **Recall.** `Recall` reads candidates, `Ranking` merges, sorts and truncates them. `RecallTheorems` says how many hits
  come out and in which order, `HitScores` which records become candidates and what their three scores are.
- **The engine.** `Protocol` is one call as a step on values (validate, decide, log, store call, log); `Engine` is the
  class proved against it, over an audit sink (`Audit`) that may fail at any call; `EngineTheorems` covers runs.
  `Calls` says when a request is accepted (`AcceptsKey`, `AcceptsPut`, `AcceptsRecall`, `AcceptsNamespace`), when a call
  succeeds and what its error is otherwise (`CallSucceedsIff`, `RejectionErrors`, `AllowedErrors`), and what it logs
  (`SuccessLogs`, `DenialLogs`).

Inputs the code cannot compute are parameters: SHA-256, lower casing, the UTF-8 and JSON parsers, square root, rounding,
FTS5 matching and bm25, fresh ids, the clock, and which statement or sink call fails. What is assumed of them is written
as predicates (`Embedder.WellBehaved`, `Similarity.Ieee`, `Tokenizer.KeepsInk`, `Refinement.FixedEmbedder`,
`RecallTheorems.ScorableEmbedder`). Rounding to nearest with ties to even is proved to meet the first two
(`Nearest.NearestIsRounding`, `Embedder.IeeePlatform`), and the hash embedder to meet the last two.
`ORDER BY updated_at DESC` leaves rows of one instant in any order, and FTS5 leaves equal ranks in any order, so a method
that scans takes SQLite's answer as an argument and demands that it is a legal one; `Scans.ScanExists`,
`RecallTheorems.AnswersExist` and `Audit.ListExists` show that there always is one. Claims that compare two scans use the
same answer for both.

## Where the code differs from what one might expect

- `docs/architecture.md:60-61` says invalid legacy rows are skipped safely when a database is opened. A text cell that is
  not UTF-8 is not skipped: migration v2 fails and the store cannot be opened, so repair cannot be called on it either.
  `Store.SqliteStore.ApplySchemaMigrationV2` states the exact condition.
- A put re-reads its record after the commit; when that read fails it reports an error although the record is stored
  (`Refinement.FailedPut`).
- Repair reads its rows before its transaction, so with concurrent writers it can store the vector of overwritten content
  (`Interleaving.StaleRepair`); `Interleaving.LateRepairIsSerialIff` and
  `Interleaving.LateRepairKeepsExactIff` say exactly when it does not.
- FTS5 orders by rank with the smallest first, and the score is `1 / (1 + |rank|)`: a better match scores higher only if
  the two ranks add up to more than zero, so never among non-positive ranks (`RecallTheorems.LexicalScoreAgainstRank`).
- A query the engine accepts can make recall fail: one of punctuation and U+0000, say, becomes a term as it stands, and
  FTS5 reads the MATCH string only up to the U+0000 (`FtsQuery.MatchFailsIff`).
- Recall can lose a row whose embedding has finite entries: when a squared norm overflows while the other underflows to
  zero, or the dot product is infinite (`Similarity.CosineFiniteIff`, `RecallTheorems.LosingEmbedder`). With the hash
  embedder that never happens.
- The lower clamp of the scan window to 32 never acts (`RecallTheorems.ScanWindow`).
- `README.md:222` says all actions emit events. A call that validation rejects, and an allowed audit read whose listing
  fails, emit none (`EngineTheorems.SilentIff`).
- Weights are only checked by the engine. The store's own recall can meet NaN scores (`Ranking.HybridNaNIff`); its hits
  are strictly ordered all the same (`Ranking.HitsAreComparable`).

## Model

| member | source | states |
|---|---|---|
| Tokenizer.TokenizeTerms | crates/loong-memory-core/src/tokenize.rs:3-44 | the one-pass scanner returns exactly the first `maxTerms` distinct tokens of the declarative form |
| Tokenizer.ScanChars | crates/loong-memory-core/src/tokenize.rs:12-30 | the character loop yields the pieces of the text in order and its CJK characters |
| Tokenizer.Windows | crates/loong-memory-core/src/tokenize.rs:32-34 | adjacent pairs of the CJK subsequence |
| Tokenizer.BigramsArePairs | crates/loong-memory-core/src/tokenize.rs:32-34 | one bigram for each adjacent pair, in order |
| Tokenizer.DedupePreserveOrder | crates/loong-memory-core/src/tokenize.rs:46-61 | the first distinct tokens, in order, up to the bound |
| Tokenizer.SpansAreTheTerms | crates/loong-memory-core/src/tokenize.rs:12-30 | the scan meets every maximal word run and every CJK character, nothing else, each once and in text order |
| Tokenizer.PiecesAreTexts | crates/loong-memory-core/src/tokenize.rs:12-30 | the pieces are the lowered texts at those positions |
| Tokenizer.DistinctIsExact | crates/loong-memory-core/src/tokenize.rs:46-61 | dropping duplicates loses no token, invents none and repeats none |
| Tokenizer.DistinctGrows | crates/loong-memory-core/src/tokenize.rs:46-61 | the distinct tokens of a prefix are a prefix of the distinct tokens: first occurrences keep their order |
| Tokenizer.TermsPrefixMonotone | crates/loong-memory-core/src/tokenize.rs:46-61 | a smaller bound gives a prefix of the longer term list |
| Tokenizer.TermsEmptyIff | crates/loong-memory-core/src/tokenize.rs:36-43 | with room for a term, the list is empty exactly when the text trims to nothing |
| Tokenizer.TermsAreListed | crates/loong-memory-core/src/tokenize.rs:3-61 | the terms of a text over its positions: among the lowered texts at the term positions, in text order, followed by the pairs of neighbouring CJK characters, in text order, the first `max` that have not stood before; without positions the trimmed lower-case text, unless empty |
| Tokenizer.TermIff | crates/loong-memory-core/src/tokenize.rs:3-44 | with room for another term, a text is a term exactly when it is the lowered text of a term position, a pair of neighbouring CJK characters, or the trimmed lower-case text when there is no position |
| Text.TrimCuts | crates/loong-memory-core/src/tokenize.rs:37 | trimming cuts white space at both ends, and all of it |
| Text.LowerWordChars | crates/loong-memory-core/src/tokenize.rs:14 | lowering a word changes its ASCII capitals and nothing else |
| Text.Utf8LenAdds | crates/loong-memory-core/src/engine.rs:361 | byte lengths add up, count an ASCII character once and no character more than four times |
| FtsQuery.BuildFtsQuery | crates/loong-memory-core/src/store.rs:588-599 | None without terms, otherwise the quoted terms joined by OR |
| FtsQuery.LiteralRoundTrip | crates/loong-memory-core/src/store.rs:591-592 | a quoted literal with doubled quotes reads back as the token exactly when the token does not hold U+0000 |
| FtsQuery.QueryRoundTrip | crates/loong-memory-core/src/store.rs:588-599 | there is a MATCH string for every query that does not trim to nothing; reading it gives back exactly the first 24 terms, or fails when one of them holds U+0000 |
| FtsQuery.MatchFailsIff | crates/loong-memory-core/src/store.rs:588-599 | FTS5 rejects exactly the queries without a word or CJK character whose trimmed lower-case form holds U+0000 |
| Codec.EncodeVectorBlob | crates/loong-memory-core/src/store.rs:838-844 | little-endian bytes of the vector |
| Codec.DecodeVectorBlob | crates/loong-memory-core/src/store.rs:846-858 | None when the size is no multiple of four, otherwise the words |
| Codec.LittleEndian | crates/loong-memory-core/src/store.rs:838-844 | a blob has four bytes for each entry and nothing else, and its entry i is bytes 4i to 4i + 3 with the low byte first |
| Codec.DecodeEncode | crates/loong-memory-core/src/store.rs:838-858 | every vector, non-finite patterns included, comes back from its blob |
| Codec.EncodeDecode | crates/loong-memory-core/src/store.rs:838-858 | re-encoding what a blob decodes to gives the identical bytes |
| Nearest.NearestIsClosest | crates/loong-memory-core/src/store.rs:1072-1086 | below the overflow, no f32 value is nearer to an exact result than the one that roundTiesToEven picks |
| Nearest.TiesToEven | crates/loong-memory-core/src/store.rs:1072-1086 | the result is a number of 24 bits whose last bit is zero when the exact result lies midway between two neighbours; a negative result is rounded as its mirror image |
| Nearest.NearestIsRounding | crates/loong-memory-core/src/store.rs:1072-1086 | roundTiesToEven to f32, as the machine does it, has every property the model assumes of rounding |
| Embedder.IeeePlatform | crates/loong-memory-core/src/embed.rs:33-55 | a platform with this rounding and the patterns of its results meets the assumptions of the embedder theorems |
| Similarity.CosineSimilarity | crates/loong-memory-core/src/store.rs:1068-1087 | the loop in f32: every product, sum, root and quotient rounded, with overflow to infinity, underflow to zero and NaN |
| Similarity.CosineOverReals | crates/loong-memory-core/src/store.rs:1068-1087 | without rounding the loop computes the cosine over exact reals |
| Similarity.LinearDot | crates/loong-memory-core/src/store.rs:1074-1080 | over exact reals the dot product is linear |
| Similarity.UnitDot | crates/loong-memory-core/src/store.rs:1074-1080 | the dot product with a unit vector is the entry it points at |
| Similarity.CosineMeans | crates/loong-memory-core/src/store.rs:1081-1086 | over exact reals the cosine is 0 when the norms multiply to at most EPSILON; otherwise its square times both squared norms is the squared dot product, and it has the sign of the dot product |
| Similarity.CosineFiniteIff | crates/loong-memory-core/src/store.rs:649-652 | for all entries, the f32 cosine is a number exactly when both f32 squared norms are finite, or neither is zero or NaN and the dot product is finite; in the second case it is 0 |
| Similarity.FloatCosineSymmetric | crates/loong-memory-core/src/store.rs:1068-1087 | the f32 cosine is symmetric bit for bit |
| Similarity.NonNegativeCosine | crates/loong-memory-core/src/store.rs:1081-1086 | vectors without negative entries and with finite f32 norms have an f32 cosine in [0, 1] |
| Similarity.SelfScoreNearOne | crates/loong-memory-core/src/store.rs:649-654 | in f32 a vector of moderate norm scores at least 1 - 2^-21 against itself |
| Similarity.CauchySchwarz | crates/loong-memory-core/src/store.rs:1072-1085 | over exact reals, the squared dot product never exceeds the product of the squared norms |
| Similarity.CosineNeedsNoClamp | crates/loong-memory-core/src/store.rs:1081-1086 | over exact reals the clamp to [-1, 1] never acts |
| Similarity.ScoreSymmetric | crates/loong-memory-core/src/store.rs:649-654 | over exact reals the score is symmetric and in [0, 1] |
| Similarity.NonNegativeScore | crates/loong-memory-core/src/store.rs:649-654 | over exact reals, vectors without negative entries score at least one half |
| Similarity.SelfScore | crates/loong-memory-core/src/store.rs:1081-1086 | over exact reals a vector scores 1 against itself exactly when its squared norm exceeds EPSILON, otherwise one half |
| Embedder.CountTokens | crates/loong-memory-core/src/embed.rs:34-47 | with every addition rounded to f32, each entry is exactly the number of hits of its bucket |
| Embedder.CountsAreHits | crates/loong-memory-core/src/embed.rs:35-46 | entry j counts the pairs of a term and one of the eight little-endian words of its digest that are j modulo the dimension |
| Embedder.SquaredNorm | crates/loong-memory-core/src/embed.rs:48 | with every product and sum rounded to f32, the sum of squares is exact |
| Embedder.Embed | crates/loong-memory-core/src/embed.rs:33-55 | counts divided by the norm when it is positive, the root and every quotient rounded to f32 |
| Embedder.PartialSumBound | crates/loong-memory-core/src/embed.rs:48 | every partial sum of squares is at most 2^22 |
| Embedder.CountsTotal | crates/loong-memory-core/src/embed.rs:34-48 | entries add up to eight hits a token (at most 2048); the squared norm is positive exactly when there is a token |
| Embedder.EmbeddingNorm | crates/loong-memory-core/src/embed.rs:48-53 | squared norm 1, or the zero vector when the text trims to nothing; entries lie in [0, 1] |
| Embedder.EmbeddingDirection | crates/loong-memory-core/src/embed.rs:48-53 | the square of an entry times the squared norm of the counts is the square of the count |
| Embedder.StrangersScoreHalf | crates/loong-memory-core/src/store.rs:649-654 | two texts of which no digest words share a residue have cosine 0 and score one half, over exact reals and in f32 |
| Embedder.EmbeddingScore | crates/loong-memory-core/src/embed.rs:33-55 | two embedded texts score in [0.5, 1], equal ones with a term exactly 1, over exact reals |
| Embedder.StoredEntry | crates/loong-memory-core/src/embed.rs:48-53 | each stored pattern stands for the entry over exact reals up to three roundings, and for zero exactly in a bucket without hits |
| Embedder.StoredNorm | crates/loong-memory-core/src/embed.rs:48-54 | the stored patterns are finite and not negative, and their squared norm in f32 is 0 for a text that trims to nothing, otherwise between 1/8 and 8192 |
| Embedder.StoredSelfScore | crates/loong-memory-core/src/store.rs:649-654 | in f32 a stored embedding of a text with a term scores at least 1 - 2^-21 against itself |
| Embedder.BagOfTerms | crates/loong-memory-core/src/embed.rs:35-47 | two texts with the same set of at most 256 terms have the same embedding |
| Timestamps.FractionOrder | crates/loong-memory-core/src/store.rs:1117 | fractions of 0, 3, 6 or 9 digits followed by the offset compare as text as they do as numbers |
| Timestamps.TextOrderIsTimeOrder | crates/loong-memory-core/src/store.rs:1117 | text order of the stored timestamps is their order in time, and equal texts are equal instants |
| Cells.ApplyVectorHealthRow | crates/loong-memory-core/src/store.rs:980-1049 | one row updates the counters and samples of the report |
| Cells.ReportHealth | crates/loong-memory-core/src/store.rs:291-296 | the loop counts valid, invalid, blob and text rows and keeps the first invalid samples |
| Cells.ClassifyForRepair | crates/loong-memory-core/src/store.rs:343-411 | rejected, repairable or unchanged, for the first reason that applies |
| Cells.PlanRepair | crates/loong-memory-core/src/store.rs:342-412 | the loop counts the verdicts, keeps the first issues and plans one entry for each repairable row |
| Cells.HealthyIffRecallable | crates/loong-memory-core/src/store.rs:633-648 | a row is healthy exactly when a query of some dimension could score it |
| Cells.RepairThenHealth | crates/loong-memory-core/src/store.rs:343-411 | a repaired row is unhealthy exactly when repair rejected it; repair never harms a healthy row |
| Cells.RepairIdempotent | crates/loong-memory-core/src/store.rs:395-411 | a second repair changes nothing and finds nothing repairable |
| Cells.RepairedIsCompact | crates/loong-memory-core/src/store.rs:395-411 | a row that repair accepts ends as a blob of the same vector under its true dimension |
| Cells.MigrationConverts | crates/loong-memory-core/src/store.rs:235-247 | migration rewrites exactly the text cells that parse to a non-empty finite vector, and keeps the vector |
| Cells.MigrationRepairCommute | crates/loong-memory-core/src/store.rs:235-247 | migrating and repairing a row commute |
| Cells.MaintenanceKeepsVector | crates/loong-memory-core/src/store.rs:630-648 | recall reads the same vector from a row before and after repair or migration |
| Cells.RepairKeepsBlobBytes | crates/loong-memory-core/src/store.rs:396-408 | repair of a blob with a wrong dimension leaves its bytes as they are |
| Maintenance.DecodeReasons | crates/loong-memory-core/src/store.rs:915-944 | a cell holds at most one vector, and each reason for holding none is given exactly for its kind of cell |
| Maintenance.HealthyExactly | crates/loong-memory-core/src/store.rs:980-1049 | a row is healthy exactly when its cell holds a finite vector of the stored dimension, which is positive |
| Maintenance.RecallReadsExactly | crates/loong-memory-core/src/store.rs:627-648 | recall reads a vector exactly when the cell holds it, it is finite, and query, column and vector agree on the dimension |
| Maintenance.RepairsExactly | crates/loong-memory-core/src/store.rs:343-411 | repair rewrites a row exactly when its dimension is positive and its cell holds a non-empty finite vector as text or under a wrong dimension, and then to the blob of that vector under its dimension; it is content exactly with such a blob |
| Scans.SqlScanIsScan | crates/loong-memory-core/src/store.rs:610-618 | ORDER BY updated_at DESC on the stored text gives the chronological scans, and only those |
| Scans.ScanExists | crates/loong-memory-core/src/store.rs:610-618 | such a scan always exists |
| Scans.EntriesOfScan | crates/loong-memory-core/src/store.rs:414-426 | one UPDATE for each planned entry leaves exactly the table with every scanned row repaired |
| Maintenance.HealthCounts | crates/loong-memory-core/src/store.rs:291-321 | the report counts the scanned and the unhealthy rows, and samples the first unhealthy rows of the scan, never more than 2000, each with its problem |
| Maintenance.HealthTypes | crates/loong-memory-core/src/store.rs:986-992 | blob and text rows are counted among all scanned rows, valid or not |
| Maintenance.RepairCounts | crates/loong-memory-core/src/store.rs:329-436 | without a fault, dry or applied, every scanned row is counted under its verdict, the issues are the first rejected rows of the scan, never more than 2000, rows count as repaired only when applied, and a dry run changes nothing |
| Maintenance.RepairFailsIff | crates/loong-memory-core/src/store.rs:414-429 | repair fails exactly when its scan fails, or it is applied, has something to write, and meets a failing statement; it then changes nothing |
| Scans.RepairThenReport | crates/loong-memory-core/src/store.rs:259-436 | after `RepairDb` with apply, of a namespace or of all, `HealthDb` agrees with the repair report in counts and in sampled ids and their order; a second repair changes nothing and finds 0 repairable rows and the rest unchanged |
| Scans.MaintenanceAlgebra | crates/loong-memory-core/src/store.rs:196-436 | on every database, migration v2 and global repair commute and are each idempotent, and neither changes whether the other succeeds |
| Scans.MigrationLeavesOnlyDimensions | crates/loong-memory-core/src/store.rs:235-247 | what repair still finds after migration are blobs with a wrong positive dimension |
| Tables.PutKeepsIndex | crates/loong-memory-core/src/store.rs:1113-1189 | put keeps the index invariant, whichever statement fails |
| Tables.DeleteKeepsIndex | crates/loong-memory-core/src/store.rs:1208-1258 | delete keeps the index invariant, whichever statement fails |
| Store.SqliteStore.LookupExternal | crates/loong-memory-core/src/store.rs:1124-1142 | the one record with this external id in the namespace, or none |
| Store.SqliteStore.UpdateAuxIndexes | crates/loong-memory-core/src/store.rs:554-586 | replaces the FTS row and upserts the vector row |
| Store.SqliteStore.Put | crates/loong-memory-core/src/store.rs:1090-1193 | validation, embedding and the statement sequence with rollback have the outcome `PutDb` for every failing step |
| Store.SqliteStore.Get | crates/loong-memory-core/src/store.rs:1195-1206 | the record the selector names in its namespace, or the error, a failing read included |
| Store.SqliteStore.Delete | crates/loong-memory-core/src/store.rs:1208-1258 | the statement sequence with rollback has the outcome `DeleteDb` for every failing statement |
| Store.SqliteStore.VectorHealthReport | crates/loong-memory-core/src/store.rs:259-321 | the report over the scanned rows, or the error of a failing scan |
| Store.SqliteStore.VectorRepair | crates/loong-memory-core/src/store.rs:323-436 | scan, plan, transaction and report have the outcome `RepairDb` for every failing statement |
| Store.SqliteStore.ApplyRepair | crates/loong-memory-core/src/store.rs:414-429 | all entries are applied, or none when a statement fails |
| Store.SqliteStore.ApplySchemaMigrationV2 | crates/loong-memory-core/src/store.rs:182-257 | once applied, no change and an error exactly when the query of the version fails; otherwise every row is migrated and the version recorded exactly when all text cells are UTF-8 and no statement fails, and nothing changes and opening fails when not |
| Store.SqliteStore.RecallHits | crates/loong-memory-core/src/store.rs:1260-1330 | validation error, the error of the embedder or of a failing read, an error when FTS5 cannot read the query, or the top of the candidate set |
| Refinement.RunRefinesMap | crates/loong-memory-core/src/store.rs:1113-1258 | over every serial run with any failing statements, the memory table is that of a plain map of records, each record has exactly one current FTS row and one vector row, and no index row is an orphan |
| Refinement.IndexedPlansNothing | crates/loong-memory-core/src/store.rs:395-411 | repair plans nothing on rows written by put |
| Refinement.SelectOutcome | crates/loong-memory-core/src/store.rs:529-552 | a selector is invalid exactly when malformed, and finds exactly the record of its namespace that it names |
| Outcomes.GetMeans | crates/loong-memory-core/src/store.rs:1195-1206 | get returns exactly the record that a well-formed request names, NotFound exactly when it names none, a storage error exactly when its read fails, a validation error exactly when it is malformed |
| Outcomes.PutSucceedsIff | crates/loong-memory-core/src/store.rs:1090-1193 | put succeeds exactly when its request is valid, no statement of its fails, and the id it draws for a new record is free; otherwise with which error |
| Outcomes.StoredPutThenGet | crates/loong-memory-core/src/store.rs:1144-1206 | what a put on the tables answered, get answers afterwards, by id and by external id |
| Outcomes.DeleteMeans | crates/loong-memory-core/src/store.rs:1208-1258 | delete succeeds exactly when no statement fails and the request names a record; it removes that record and no other |
| Outcomes.StoredDeleteThenGet | crates/loong-memory-core/src/store.rs:1195-1258 | after a delete the request finds nothing, and every get of another record answers as before |
| Refinement.FailuresLeaveNoTrace | crates/loong-memory-core/src/store.rs:1113-1258 | a run ends in the tables of the same run without its failed calls; of those only a committed put that could not be read back left something, and it is kept |
| Refinement.PutThenGet | crates/loong-memory-core/src/store.rs:1144-1206 | get returns what put stored, under both selectors; id and creation time survive an overwrite; other records are untouched |
| Refinement.DeleteThenGet | crates/loong-memory-core/src/store.rs:1208-1258 | a deleted record is not found under its selector, every other record stays |
| Refinement.InsertThenDelete | crates/loong-memory-core/src/store.rs:1208-1258 | deleting an inserted record restores all three tables |
| Recall.ReadVectorCandidates | crates/loong-memory-core/src/store.rs:601-657 | ids and f32 scores of the rows in the scan window that recall can score; rows whose cosine is not finite are skipped |
| Recall.ReadLexicalCandidates | crates/loong-memory-core/src/store.rs:659-704 | scores of the FTS answer, the fallback when it is empty, or an error when FTS5 cannot read the query |
| Recall.ReadLexicalFallbackCandidates | crates/loong-memory-core/src/store.rs:706-758 | ids and overlap scores of the scanned rows that share a term |
| Recall.AheadIsStrictTotal | crates/loong-memory-core/src/store.rs:1321-1327 | the comparator is a strict total order on comparable hits, NaN scores included |
| Ranking.MergeHits | crates/loong-memory-core/src/store.rs:1282-1319 | one hit for each candidate that is a record of the namespace, for every iteration order |
| Ranking.TopOfSorted | crates/loong-memory-core/src/store.rs:1321-1328 | sorting and truncating gives the best hits: no dropped candidate ranks before a returned one |
| Ranking.TopUnique | crates/loong-memory-core/src/store.rs:1321-1328 | there is only one such list |
| Ranking.HybridNaNIff | crates/loong-memory-core/src/store.rs:1312 | for all weights, the hybrid score is NaN exactly when a weight is NaN, an infinite weight meets a zero score, or the weights are opposite infinities |
| Ranking.HitsAreComparable | crates/loong-memory-core/src/store.rs:1302-1319 | for all weights the candidates of a recall are comparable; with the weights the engine accepts no hit has a NaN score |
| RecallTheorems.AnswersExist | crates/loong-memory-core/src/store.rs:601-757 | SQLite has a legal answer to each scan of a recall, and to its MATCH query when FTS5 can read that |
| RecallTheorems.IndexedRowScore | crates/loong-memory-core/src/store.rs:621-656 | on an indexed store recall scores the embedding of the content, and skips a row exactly when the f32 cosine is lost in an overflow |
| RecallTheorems.LostCosines | crates/loong-memory-core/src/store.rs:649-652 | 2^100 and 2^-100, finite, non-zero and with dot product 1, have no f32 cosine, as one square overflows and the other underflows; nor has 2^100 with itself |
| RecallTheorems.LosingEmbedder | crates/loong-memory-core/src/store.rs:649-652 | with an embedder of these two vectors recall skips every row of an indexed store |
| RecallTheorems.CandidateCount | crates/loong-memory-core/src/store.rs:1277-1284 | on an indexed store, with norms that are finite in f32, between the scanned rows and all records of the namespace become candidates |
| RecallTheorems.RecallCount | crates/loong-memory-core/src/store.rs:1260-1330 | on an indexed store recall fails exactly when FTS5 cannot read the query; otherwise exactly min(limit, records) hits for limits up to 512, and at least min(512, records) beyond |
| RecallTheorems.RecallIsRanked | crates/loong-memory-core/src/store.rs:1302-1329 | for all weights, hits are distinct records of the namespace, the top of the candidates and best first: scores never increase, equal scores come newest first and then by id, and no dropped candidate deserves a place |
| RecallTheorems.RecallAfterRun | crates/loong-memory-core/src/store.rs:1260-1330 | after every serial run from the empty store, a valid recall of up to 512 hits fails exactly when FTS5 cannot read the query, and otherwise returns exactly min(limit, records of the namespace) distinct records |
| RecallTheorems.RecallIsDeterministic | crates/loong-memory-core/src/store.rs:1282-1329 | for all weights, the same answers from SQLite give the same list of hits |
| RecallTheorems.HashEmbedderIsFixed | crates/loong-memory-core/src/embed.rs:16-55 | the hash embedder of any requested dimension meets what the recall theorems assume: one dimension, finite entries, norms finite in f32 |
| RecallTheorems.HashScoresAtLeastHalf | crates/loong-memory-core/src/store.rs:621-656 | in f32, with the hash embedder every scanned row of an indexed store scores in [0.5, 1], and a row that stores the query itself at least 1 - 2^-21 |
| RecallTheorems.MaintenanceKeepsCandidates | crates/loong-memory-core/src/store.rs:601-657 | repair and migration keep every id and score of the vector candidates; only rewritten rows can be added |
| RecallTheorems.MaintenanceKeepsHits | crates/loong-memory-core/src/store.rs:1302-1319 | every candidate of a recall survives repair with apply and migration v2 with its record and scores; only a rewritten row without a vector score can change score |
| RecallTheorems.LexicalScoreAgainstRank | crates/loong-memory-core/src/store.rs:694-695 | in f32 a better rank never scores higher when the two ranks add up to at most zero, so never among non-positive ranks, and never lower when they add up to at least zero; without rounding it scores higher exactly when they add up to more than zero |
| RecallTheorems.FallbackScoresIffOverlap | crates/loong-memory-core/src/store.rs:744-754 | a row scores, in (0, 1] in f32, exactly when its first 128 terms meet the first 32 of the query |
| RecallTheorems.FallbackSelfScore | crates/loong-memory-core/src/store.rs:744-754 | a row whose content is the query scores exactly 1 |
| HitScores.MatchKeys | crates/loong-memory-core/src/store.rs:687-699 | every row of the FTS answer becomes a scored id, and nothing else does |
| HitScores.MatchScoreOfRow | crates/loong-memory-core/src/store.rs:687-697 | with one FTS row an id, each id scores by the rank of its own row |
| HitScores.LexicalScoreNear | crates/loong-memory-core/src/store.rs:694-695 | in f32 a match scores 1 / (1 + |rank|) up to four roundings, for ranks of a magnitude below 2^24 |
| HitScores.VectorScoreMeans | crates/loong-memory-core/src/store.rs:649-654 | without rounding two finite vectors score (1 + cosine) / 2 |
| HitScores.RowScoreMeans | crates/loong-memory-core/src/store.rs:627-656 | a row scores exactly when its cell holds a finite vector of the stored dimension, that is the query's, and the cosine is a number; it then scores that vector |
| HitScores.FallbackScoreMeans | crates/loong-memory-core/src/store.rs:744-754 | a row scores the share of the first 32 terms of the query that are among the first 128 of its content: exactly without rounding, up to one rounding in f32 |
| HitScores.CandidateExplained | crates/loong-memory-core/src/store.rs:1302-1312 | a candidate is a record of the namespace, its lexical score is that of its own FTS row, or of the fallback when FTS5 has no answer, and its vector score that of its own row in the scan window; 0 without |
| HitScores.CandidateSum | crates/loong-memory-core/src/store.rs:1312 | its hybrid score is lexical weight times lexical score plus vector weight times vector score, each operation rounded |
| HitScores.MatchIsCandidate | crates/loong-memory-core/src/store.rs:1282-1319 | every row of the FTS answer becomes a candidate with the score of its own rank |
| HitScores.ExactMatch | crates/loong-memory-core/src/store.rs:687-697 | without rounding that score is 1 / (1 + |rank|) |
| HitScores.ScannedIsCandidate | crates/loong-memory-core/src/store.rs:1282-1319 | so does every scanned row that recall can score and, without an FTS answer, every scanned record that shares a term with the query |
| HitScores.CandidateIsScored | crates/loong-memory-core/src/store.rs:1282-1319 | and nothing else becomes a candidate |
| HitScores.RecallExplained | crates/loong-memory-core/src/store.rs:1260-1330 | every returned hit has the scores of its own rows |
| HitScores.ExactRecall | crates/loong-memory-core/src/store.rs:1312-1328 | without rounding and with finite weights, hits come by falling weighted sum of their two scores, and no dropped candidate has a higher one |
| HitScores.RecallScores | crates/loong-memory-core/src/store.rs:1312-1328 | in f32, with vector weight 0 no hit stands before one whose weighted lexical score is larger, and the mirror; with weights the engine accepts none stands before one at least as good in both scores, unless they tie |
| Isolation.PutFrame | crates/loong-memory-core/src/store.rs:1149-1186 | put leaves every other namespace alone |
| Isolation.DeleteFrame | crates/loong-memory-core/src/store.rs:1238-1249 | delete leaves every other namespace alone |
| Isolation.RepairFrame | crates/loong-memory-core/src/store.rs:414-426 | a namespaced repair leaves every other namespace alone, whatever the vector cells hold |
| Isolation.RunFrame | crates/loong-memory-core/src/store.rs:554-586 | a run in other namespaces leaves the rows, vectors and FTS rows of a namespace exactly as they are |
| Isolation.GetIsLocal | crates/loong-memory-core/src/store.rs:485-527 | get depends on the slice of its namespace alone |
| Isolation.ReadsAreLocal | crates/loong-memory-core/src/store.rs:607-619 | legal scans, health, repair plans, and the vector candidates and fallback scores in the window of a recall depend on the slice of their namespace alone |
| Interleaving.RepairUnderInterleaving | crates/loong-memory-core/src/store.rs:329-428 | whatever others put and delete after the snapshot, repair adds and removes no row, changes only planned rows and leaves those healthy |
| Interleaving.CleanSnapshotIsHarmless | crates/loong-memory-core/src/store.rs:329-428 | a repair planned on an indexed store is harmless under any interleaving |
| Interleaving.RunIgnoresCells | crates/loong-memory-core/src/store.rs:1113-1258 | puts and deletes do not look at vector cells: from tables that differ in cells alone they leave equal rows where they stored a record and the given rows elsewhere |
| Interleaving.LateRepairIsSerialIff | crates/loong-memory-core/src/store.rs:329-428 | a repair that commits after the puts and deletes of others equals one that ran before them if and only if every planned row that they stored and left in place already holds what the repair writes; legacy rows included |
| Interleaving.StaleIffChanged | crates/loong-memory-core/src/store.rs:414-428 | the same condition as a compare before the commit: every planned row still there is as the snapshot saw it or already the planned row |
| Interleaving.LateRepairHarmsStaleRows | crates/loong-memory-core/src/store.rs:414-428 | the rows from which a late commit takes vector equals embedding are exactly the stale ones |
| Interleaving.LateRepairKeepsExactIff | crates/loong-memory-core/src/store.rs:414-428 | a late commit keeps vector equals embedding in every row that has it if and only if nothing is stale |
| Interleaving.StaleRepair | crates/loong-memory-core/src/store.rs:329-428 | a concrete interleaving in which repair writes the vector of overwritten content |
| ConcurrentRecall.InterleavedHits | crates/loong-memory-core/src/store.rs:659-758 | a recall between whose statements, the MATCH query, the fallback scan, the vector scan and each fetch, others put and delete still returns distinct hits, best first, each a record of the namespace as it was at its own fetch |
| ConcurrentRecall.InterleavedCount | crates/loong-memory-core/src/store.rs:1276-1329 | it returns exactly min(limit, candidates found at their fetch), and fewer than min(limit, window, records at the vector read) only by as many as are gone at their fetch |
| ConcurrentRecall.NothingGoneWithoutDeletes | crates/loong-memory-core/src/store.rs:1302-1309 | puts alone make no candidate disappear before its fetch |
| Audit.AuditSink.Record | crates/loong-memory-core/src/audit.rs:146-171 | appends one event, or fails and appends nothing |
| Audit.AuditSink.List | crates/loong-memory-core/src/audit.rs:225-278 | the selected rows in order |
| Audit.SelectMembers | crates/loong-memory-core/src/audit.rs:225-278 | a listing holds only logged events, at the selected positions |
| Audit.ListSize | crates/loong-memory-core/src/audit.rs:225-278 | a listing has as many events as its namespace has in the log, but room for at least one and at most 2000, and leaves out none that is newer than a listed one |
| Audit.ListExists | crates/loong-memory-core/src/audit.rs:225-278 | SQLite has a legal answer to every audit listing |
| Engine.MemoryEngine.Enforce | crates/loong-memory-core/src/engine.rs:254-286 | the decision is logged, and the error says whether it was a denial, a lost denial or a lost permission |
| Engine.MemoryEngine.Put | crates/loong-memory-core/src/engine.rs:80-96 | state and error are those of the protocol step, a failing serialisation in the validation included; the result is that of the store |
| Engine.MemoryEngine.Get | crates/loong-memory-core/src/engine.rs:98-114 | the same for get; the result is that of the store |
| Engine.MemoryEngine.Delete | crates/loong-memory-core/src/engine.rs:116-132 | the same for delete |
| Engine.MemoryEngine.RecallHits | crates/loong-memory-core/src/engine.rs:134-150 | the same for recall |
| Engine.MemoryEngine.VectorHealth | crates/loong-memory-core/src/engine.rs:152-174 | the same for vector health |
| Engine.MemoryEngine.VectorRepair | crates/loong-memory-core/src/engine.rs:223-252 | the same for vector repair |
| Engine.MemoryEngine.AuditEvents | crates/loong-memory-core/src/engine.rs:176-221 | the same for audit reads; the answer is selected from the log as it was before the call |
| EngineTheorems.CallAppends | crates/loong-memory-core/src/engine.rs:254-286 | a call appends nothing, its decision, or its decision and its operation event, for its own principal and namespace |
| EngineTheorems.RunCountsEvents | crates/loong-memory-core/src/engine.rs:80-286 | over every run, the log grows by one decision event for each call that is accepted, not lost in a failing listing and not lost by the sink, and by one operation event for each call that succeeds |
| EngineTheorems.ChangeIsAllowedAndLogged | crates/loong-memory-core/src/engine.rs:85-94 | the tables change only under an Allow decision whose Allowed event is already in the log |
| EngineTheorems.RunCountsLosses | crates/loong-memory-core/src/engine.rs:80-252 | over every run, the completed store operations are exactly those reported as a success and those whose operation event the sink lost |
| EngineTheorems.RunKeepsLog | crates/loong-memory-core/src/engine.rs:80-286 | over every run, with the sink failing at any call, the log only grows and stays (Denied, Allowed, or Allowed then its operation)*, and decision events say what the policy says |
| EngineTheorems.RunIsSerial | crates/loong-memory-core/src/engine.rs:80-252 | the tables after a run of the engine are those of a serial run of the puts, deletes and repairs that were accepted, allowed and had their Allowed event logged |
| EngineTheorems.RunKeepsIndex | crates/loong-memory-core/src/engine.rs:80-252 | over every run of the engine the store refines the plain map of records after the operations that were let through, and the indexes agree with it |
| EngineTheorems.RecallAfterEngineRun | crates/loong-memory-core/src/engine.rs:134-150 | after every run of the engine, a recall it accepts fails exactly when FTS5 cannot read the query, and otherwise returns exactly min(limit, records of the namespace) distinct records |
| EngineTheorems.RunIsolation | crates/loong-memory-core/src/engine.rs:80-252 | over every run of the engine, requests for other namespaces leave a namespace exactly as it is |
| EngineTheorems.DeniedRunChangesNothing | crates/loong-memory-core/src/engine.rs:254-286 | a run of denied requests leaves the tables alone |
| Calls.StoreSucceedsIff | crates/loong-memory-core/src/engine.rs:98-252 | when that operation succeeds: a get or delete when the request names a record and nothing fails, a recall when nothing fails and FTS5 can read the query, a report when its scan does not fail |
| Calls.PutThenGetCalls | crates/loong-memory-core/src/engine.rs:80-114 | a put that the engine lets through, without a failing statement and with an unused id, and then a get that the policy allows both end without an error, and the get answers what was put, by id and by external id; its acceptance follows from that of the put |
| Calls.DeleteThenGetCalls | crates/loong-memory-core/src/engine.rs:98-132 | after a delete that goes through, a get of the same key is accepted and finds nothing |
| Calls.AnswerSurvives | crates/loong-memory-core/src/engine.rs:80-252 | whatever a get answers, it answers after every run of requests for other namespaces |

## Left out

- SQLite itself: WAL, pragmas, busy timeout, connections. Transactions are atomic, the unique index, the foreign key with
  its cascade and the primary keys are enforced. An error may occur in the embedder, at each statement of put, delete,
  repair and migration v2, and at the reads of get, health and recall; an error in the middle of several reads is one such
  error.
- Recall.ReadLexicalCandidates: matching and bm25 are uninterpreted over the whole FTS table, so nothing is claimed about
  lexical scores of a namespace being independent of other namespaces.
- Similarity.CosineSimilarity: rounding is any function with the properties in `Floats.Rounding`, and the two zeros of
  `f32` are one number.
- Embedder.EmbeddingScore: over exact reals, like Similarity.SelfScore and Similarity.NonNegativeScore; the f32 scores are
  covered by `Embedder.StoredSelfScore` and `RecallTheorems.HashScoresAtLeastHalf`.
- Timestamps.TextOrderIsTimeOrder: years of four digits and no leap second; parsing a timestamp back is not modelled.
- Embedder.BagOfTerms: nothing is claimed for texts with more than 256 distinct terms, where the cut depends on order.
- Audit.AuditSink.Record: event ids are not modelled; a duplicate id is one of the ways a sink call may fail. Storing and
  parsing the JSON detail is left out, and so is the in-memory sink, whose listing is not implemented.
- Error message texts; reasons of health and repair issues are kept as data.
- `StaticPolicy`: the policy is any fixed function of principal, namespace and action.
- The HTTP daemon and the command line (`crates/loong-memoryd`, `crates/loong-memory-cli`): plumbing.
