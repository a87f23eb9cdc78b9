# NedoTokenizer: a verified model

NedoTokenizer splits Turkish text and source code into units that cover the input byte for byte,
analyses the words, chooses an analysis for every word of a sentence, and stores the result in
several binary forms. This project models that logic in Dafny and proves what it promises.

**Choosing analyses.** `FeatureTable` and `Trigram` give the score of three neighbouring words as
a sum over a table of counted features. `ScoreCache` and `Scoring` add the transition rows, inline
entries, overflow table and prepared features, with the theorem that none of them changes a score.
`Lattice`, `Hypotheses` and `Workspace` hold what the decoders share. `DenseDecoder` and
`HashDecoder` are the two Viterbi decoders with their in-place tables (`ActiveTable`), `CausalDecoder`
the greedy one, `ContextScores` the conditional scores, `Disambiguator` and `Entry` the calls that
put them together. `TrigramMeaning` writes the score out over the three words. `Probing` has the facts about linear probing that every hashed table uses, `Sorting` those about sorted lists.

**Conditions.** `Conditions` are the named conditions of a bundle, `ConditionCode` their postfix
bytecode as trees, `ConditionCompiler` and `ConditionValidator` the two programs. `ConditionMeaning`
is an evaluator for the bytes and shows that compiling keeps the meaning; `ConditionLimits` says which
operands are accepted.

**From bytes to documents.** `Utf8`, `LexicalClasses`, `Scanner` and `ScannerLoops` are the scanner;
`Text`, `CodeSpans`, `Splitting` and `Splitters` find code and cut units; `Alignment`, `Pipeline`,
`PipelineRun`, `PipelineUnique`, `ControlParts`, `CausalPipeline`, `InnerGroups` and `Document` are the document pipeline. Its stages are specified so
closely that they determine the document (`PipelineUnique.ProducedUnique`). What the stages come to is
told from bytes and characters in `KindTable`, `UnitEnds`, `CodeMeaning`, `CutMeaning`, `AlignmentMeaning`,
`Sentences`, `UnitMeaning`, `GroupMeaning` and `DocumentMeaning`.

**Binary forms.** `Bytes` and `Codecs` hold what all of them share; `Varint` and the four `Sidecar`
modules are the sidecar, `LosslessFormat` the lossless form, the three `Tokenized` modules the
document codec, `CompiledTable`, `CompiledFormat`, `CompiledReader` and `CompiledCodec` the
precompiled table. Each decoder is proved to accept exactly the encodings of valid values; `Layouts` and
`DocumentLayouts` write the forms out byte by byte.

**Sharing and batches.** `Interner` numbers the identities on which scores depend, and `Coherence` shows
that its codes serve the decoders; `InternerRuns` is about whole runs of coding. `BatchProtocol`,
`BatchFailures` and `BatchChunks` are the parallel batch, as a state machine over claims and completions.

Objects that the program updates in place are classes here and loops are loops, each proved against
a function or predicate about which the theorems are then proved. Scores are integers. Hash
functions, digests, Unicode tables and the morphology are arbitrary functions.

Where the code does less than one might expect, the model says so:

- A valid condition with more than 65535 children cannot be compiled (`ConditionCompiler.LongConjunctionRefused`, and `CompilesIff` for the exact condition).
- The sidecar encoder takes more than 256 candidates for a unit; the decoder refuses exactly those sidecars (`SidecarDecoder.AcceptedIffFew`, with the witness `CrowdedIsRefused`).
- The document codec writes the group number 2^32 - 1 as no group (`TokenizedDocuments.WrittenIsCodable` gives the exact condition for the round trip, `LargestGroupIsLost` a document that fails it).
- Long control units are cut byte by byte, so their parts need not be text (`ControlParts.ControlPartsMayBreakScalars`, and `ControlPartsAreTextIff` for the exact condition).
- Without a base, the interner refuses a word it holds exactly if one of its two combined tables is full (`Interner.AmbiguityScoringInterner.Code`, with a run that gets there in `InternerRuns.KnownWordMayBeRefused`).
- The hypothesis index 2^32 - 1 equals the marker of an empty slot and of a missing parent. The model reports an overflow there. The code stores the index: the hash decoder then goes on without that hypothesis and may return a path that is not best, or stops with a panic if it pushes another one; the dense decoder takes the slot for free and may fail later. The results about both decoders are for fewer than 2^32 hypotheses.
- Which error a failed batch returns depends on the interleaving (`BatchFailures.ErrorMayDiffer`; `FailedBatch` and `OneErrorForAll` say what can be relied on).

## Model

| member | source | states |
|---|---|---|
| Entry.DisambiguateIndicesScored | crates/nedo-morph-bundle/src/disambiguation.rs:572-586 | Whatever the score cache retained from earlier sentences, the result is a reading of maximal score among all candidate sequences; it fails only on malformed candidate lists or when the hypothesis indices are used up. |
| Entry.DisambiguateIndicesScoredCausal | crates/nedo-morph-bundle/src/disambiguation.rs:614-628 | Succeeds exactly on well-formed candidate lists, and then with the causal reading, whatever the cache retained. |
| DenseDecoder.DecodeDense | crates/nedo-morph-bundle/src/disambiguation.rs:1155-1311 | A selected path is the unique maximiser of trigram sum plus end factor over all candidate sequences; every fallback reason is true (a real tie, a real duplicate identity, a real state-space excess), and a failure means the indices are used up. |
| DenseDecoder.DenseLayer | crates/nedo-morph-bundle/src/disambiguation.rs:1199-1272 | One layer of in-place slot filling turns a complete layer of strictly best paths into the next one, or reports a real tie. |
| DenseDecoder.LayerStep | crates/nedo-morph-bundle/src/disambiguation.rs:1199-1272 | If every extension of the old layer was offered, every path of the new length is beaten by an active hypothesis of the new layer. |
| DenseDecoder.PlaceDense | crates/nedo-morph-bundle/src/disambiguation.rs:1213-1269 | Placing a candidate takes it in, replaces a weaker hypothesis in its slot or leaves a stronger one; a reported tie leaves paths and layer as they were and is matched by an equally good path. |
| DenseDecoder.BestIsUnique | crates/nedo-morph-bundle/src/disambiguation.rs:1275-1311 | The strictly best terminal hypothesis stands for the unique best choice of the whole lattice. |
| Hypotheses.ReconstructSelected | crates/nedo-morph-bundle/src/disambiguation.rs:1313-1338 | Following backpointers returns exactly the choices of the path the hypothesis stands for. |
| HashDecoder.DecodeHash | crates/nedo-morph-bundle/src/disambiguation.rs:1080-1153 | The active-list decoder always ends, and with a path of maximal score, although it overwrites hypotheses and rehashes under the old mask; it fails only when the indices are used up. |
| HashDecoder.HashLayer | crates/nedo-morph-bundle/src/disambiguation.rs:1095-1130 | One layer keeps every path of the new length dominated by an active hypothesis of the same state. |
| HashDecoder.LayerStep | crates/nedo-morph-bundle/src/disambiguation.rs:1095-1130 | Domination of all paths is carried from one layer to the next once every extension was offered. |
| HashDecoder.PlaceHash | crates/nedo-morph-bundle/src/disambiguation.rs:2387-2456 | Offering a candidate keeps every earlier path dominated and dominates the new one. |
| ActiveTable.CompactActiveHypotheses.AddCandidate | crates/nedo-morph-bundle/src/disambiguation.rs:2387-2456 | Adds, replaces or keeps exactly according to the state key and the score, and the set of active hypotheses changes accordingly. |
| ActiveTable.CompactActiveHypotheses.Expand | crates/nedo-morph-bundle/src/disambiguation.rs:2487-2518 | Doubling the table and placing entries under the old mask loses and invents no active hypothesis and leaves room for every probe. |
| ActiveTable.CompactActiveHypotheses.Locate | crates/nedo-morph-bundle/src/disambiguation.rs:2458-2485 | Every probe ends, at the first slot that is free or names an active hypothesis with the key. |
| ActiveTable.CompactActiveHypotheses.Best | crates/nedo-morph-bundle/src/disambiguation.rs:2528-2537 | The first active hypothesis in slot order with the greatest score, none exactly for an empty table. |
| ActiveTable.ListedMembers | crates/nedo-morph-bundle/src/disambiguation.rs:2347-2358 | The list in slot order has the active hypotheses, each of them once. |
| ActiveTable.CompactActiveHypotheses.Snapshot | crates/nedo-morph-bundle/src/disambiguation.rs:2347-2358 | Lists exactly the active hypotheses in slot order. |
| Disambiguator.NewDecoder | crates/nedo-morph-bundle/src/disambiguation.rs:766-832 | Accepts exactly well-formed candidate lists, names the first defect otherwise, and flattens the lists without losing order. |
| Disambiguator.Decode | crates/nedo-morph-bundle/src/disambiguation.rs:1030-1078 | Dense decoding with fallback to the hash decoder gives a best path. |
| Disambiguator.DenseAgreesWithHash | crates/nedo-morph-bundle/src/disambiguation.rs:1030-1153 | Where the dense decoder selects a path, the hash decoder selects the same one. |
| Disambiguator.BestIsBestReading | crates/nedo-morph-bundle/src/disambiguation.rs:766-832 | A best path of the flattened lattice is a best reading of the candidate lists. |
| ContextScores.ConditionalIsExact | crates/nedo-morph-bundle/src/disambiguation.rs:660-743 | Replacing one word changes the score of the whole sentence by exactly the difference of its conditional scores, at every position and length. |
| ContextScores.RowIsExact | crates/nedo-morph-bundle/src/disambiguation.rs:660-743 | Differences inside a row are the differences of whole readings. |
| ContextScores.BestIsRowwiseMaximal | crates/nedo-morph-bundle/src/disambiguation.rs:660-743 | Along a best reading every selected candidate is maximal in its row. |
| ContextScores.ConditionalCandidateScores | crates/nedo-morph-bundle/src/disambiguation.rs:660-743 | Succeeds exactly for in-range selections and returns every row of conditional scores. |
| CausalDecoder.DecodeCausal | crates/nedo-morph-bundle/src/disambiguation.rs:922-973 | Selects in-range choices that form a causal path, with any cache contents. |
| CausalDecoder.CausalPrefix | crates/nedo-morph-bundle/src/disambiguation.rs:922-973 | The first k choices depend on the first k candidate lists only. |
| CausalDecoder.CausalChoiceIsFirstMaximum | crates/nedo-morph-bundle/src/disambiguation.rs:922-1028 | Every choice is the first maximal entry of the row computed from the choices before it. |
| CausalDecoder.CausalCandidateScores | crates/nedo-morph-bundle/src/disambiguation.rs:975-1028 | Succeeds exactly for in-range selections and returns the causal rows. |
| CausalPipeline.DisambiguateIndicesCausal | crates/nedo-morph-bundle/src/disambiguation.rs:598-605 | Succeeds exactly on well-formed candidate lists, and then with the causal reading, which is the function `CausalSelect` of the candidates, without codes or cache. |
| CausalPipeline.CausalReadingUnique | crates/nedo-morph-bundle/src/disambiguation.rs:922-973 | A sentence has one causal reading. |
| CausalPipeline.CausalReadingExists | crates/nedo-morph-bundle/src/disambiguation.rs:922-973 | Every sentence whose tokens have candidates has a causal reading. |
| CausalPipeline.CausallySelects | crates/nedo-tokenizer/src/lib.rs:2698-2707 | Choosing with the causal decoder is lawful for every lawful morphology. |
| CausalPipeline.DocumentIsCausal | crates/nedo-tokenizer/src/lib.rs:2684-2743 | With the causal decoder as the choice of the pipeline, every sentence of every document carries the reading that the decoder selects among its candidates. |
| Scoring.ScoreCompactTransition | crates/nedo-morph-bundle/src/disambiguation.rs:2081-2160 | With any retained contents a transition returns exactly the uncached score, and the row it carries on is invalid or belongs to the right pair. |
| Scoring.ScoreUncached | crates/nedo-morph-bundle/src/disambiguation.rs:1955-2020 | Memoised prepared features give the score of the three words. |
| Scoring.Retain | crates/nedo-morph-bundle/src/disambiguation.rs:2126-2160 | Retaining a score keeps the cache sound and finds a rightly bound next row. |
| Scoring.DisambiguationScoreCache.SetSharedPreparedWords | crates/nedo-morph-bundle/src/disambiguation.rs:191-194 | Installing another bank keeps the cache sound: the retained scores stay, the local prepared words go. |
| Scoring.CompactPreparedFeatures.EnsurePair | crates/nedo-morph-bundle/src/disambiguation.rs:1937-1953 | The pair memo returns the features of exactly the two words asked for. |
| ScoreCache.PackedParts | crates/nedo-morph-bundle/src/disambiguation.rs:1705-1758 | Packed keys keep three signatures in order and never meet the empty marker. |
| ScoreCache.OverflowScoreCache.Insert | crates/nedo-morph-bundle/src/disambiguation.rs:1527-1552 | Up to its load limit the overflow table behaves as a map; at the limit it is unchanged. |
| ScoreCache.OverflowScoreCache.Get | crates/nedo-morph-bundle/src/disambiguation.rs:1508-1525 | Finds a key exactly if the table retains it; probes end. |
| ScoreCache.TrigramScoreCache.EnsureRow | crates/nedo-morph-bundle/src/disambiguation.rs:1619-1641 | Finds the row of a pair, makes it on first use, or refuses exactly when the rows are used up. |
| ScoreCache.TrigramScoreCache.Get | crates/nedo-morph-bundle/src/disambiguation.rs:1643-1659 | Returns true scores only, with rightly bound rows; a miss means that nothing is retained. |
| ScoreCache.TrigramScoreCache.Insert | crates/nedo-morph-bundle/src/disambiguation.rs:1661-1679 | The score is found again unless the overflow table was full. |
| ScoreCache.RowInsert | crates/nedo-morph-bundle/src/disambiguation.rs:1440-1460 | Inline rows keep distinct signatures and overflow only when full. |
| Trigram.ScoreParts | crates/nedo-morph-bundle/src/disambiguation.rs:2918-2983 | Adding the eleven feature families of three words gives the trigram score. |
| Trigram.ScorePrepared | crates/nedo-morph-bundle/src/disambiguation.rs:2022-2072 | Prepared features of the words and of the last pair give the same trigram score. |
| Trigram.PreparedOrderPermutes | crates/nedo-morph-bundle/src/disambiguation.rs:1770-1874 | The prepared order of features is a permutation of the direct one as far as the total is concerned. |
| TrigramMeaning.TrigramScoreIs | crates/nedo-morph-bundle/src/disambiguation.rs:2918-2991 | The score written out: eight weights of the three words, and for every group of the third word its position and, up to its 32767th occurrence, two weights with the last groups of the words before it. |
| FeatureTable.FeatureScratch.Add | crates/nedo-morph-bundle/src/disambiguation.rs:3247-3278 | After any sequence of adds and expansions the table holds exactly the features added, with their multiplicities. |
| FeatureTable.FeatureScratch.Expand | crates/nedo-morph-bundle/src/disambiguation.rs:3280-3299 | Doubling keeps everything added. |
| FeatureTable.FeatureScratch.Score | crates/nedo-morph-bundle/src/disambiguation.rs:3301-3310 | The sum over the slots is the total of the features added. |
| FeatureTable.TotalIsWeightSum | crates/nedo-morph-bundle/src/disambiguation.rs:3212-3310 | Below the count cap the total is the multiset sum of the weights. |
| FeatureTable.TotalOfPermutation | crates/nedo-morph-bundle/src/disambiguation.rs:3212-3310 | The total does not depend on the order of adding, with the saturating cap included. |
| ConditionCompiler.CompiledIsAccepted | crates/nedo-morph-bundle/src/binary.rs:1174-1787 | The validator accepts what the compiler writes for a valid condition and recomputes the upstream condition count and the number of null sentinels; the program means the condition. |
| ConditionCompiler.AcceptedIsOneTree | crates/nedo-morph-bundle/src/binary.rs:1518-1767 | Every accepted program that is not empty is the postfix encoding of exactly one in-range tree, whose counts are the two numbers returned. |
| ConditionCompiler.CompilesIff | crates/nedo-morph-bundle/src/binary.rs:1174-1479 | A valid condition compiles exactly if its lists fit 16-bit counts and the sentinels do not overflow their counter. |
| ConditionCompiler.LongConjunctionRefused | crates/nedo-morph-bundle/src/binary.rs:1228-1238 | A conjunction of 65536 conditions is valid and cannot be compiled. |
| ConditionCompiler.Compiler.Compile | crates/nedo-morph-bundle/src/binary.rs:1184-1226 | Appends exactly the encoding of the resolved condition, or refuses; what is appended evaluates to the truth of the condition, whatever holds. |
| ConditionCompiler.Compiler.CompileNullableDictionarySet | crates/nedo-morph-bundle/src/binary.rs:1442-1466 | Appends the sorted identifiers with the null sentinel last and counts the sentinel. |
| ConditionCompiler.Compiler.CompileAttributes | crates/nedo-morph-bundle/src/binary.rs:1850-1863 | Appends the attribute word of the names, or refuses an unknown name. |
| ConditionCode.AcceptedIffEncoding | crates/nedo-morph-bundle/src/binary.rs:1518-1767 | The stack machine ends with a single tree exactly on the encodings of in-range trees. |
| ConditionCode.EncodingInjective | crates/nedo-morph-bundle/src/binary.rs:1184-1479 | Different in-range trees have different programs. |
| ConditionValidator.ConditionProgramValidator.Validate | crates/nedo-morph-bundle/src/binary.rs:1518-1557 | The advancing validator returns the verdict of the parser. |
| ConditionValidator.ConditionProgramValidator.ValidateNullableIndexList | crates/nedo-morph-bundle/src/binary.rs:1727-1754 | Accepts exactly complete, in-range, strictly sorted lists with the sentinel last, and counts it. |
| ConditionValidator.ConditionProgramValidator.ValidateIndexList | crates/nedo-morph-bundle/src/binary.rs:1756-1767 | Accepts exactly complete lists below the limit and moves behind them. |
| Conditions.CountKept | crates/nedo-morph-bundle/src/lib.rs:867-881 | Resolving names keeps the upstream condition count. |
| Conditions.Resolved | crates/nedo-morph-bundle/src/lib.rs:735-825 | Resolution keeps null sentinels and range validity, and the result can be written exactly if its counts fit. |
| Conditions.ValidateNullableDictionarySet | crates/nedo-morph-bundle/src/lib.rs:1021-1051 | The scan with flags accepts exactly sorted, known, distinct names with at most one null in last place. |
| Conditions.AttributesAreASet | crates/nedo-morph-bundle/src/binary.rs:1850-1863 | Two attribute lists have the same word exactly if they name the same set. |
| ConditionMeaning.EncodingMeans | crates/nedo-morph-bundle/src/binary/runtime.rs:1942-2115 | Whatever holds of a word, the evaluator gives the program of a condition the truth of the condition: 1 for all, 2 for any, 3 for not, and for every leaf its opcode and the names behind its operand. |
| ConditionLimits.BareLeaf | crates/nedo-morph-bundle/src/binary.rs:1518-1726 | The five conditions without an operand are accepted alone, and no other opcode is. |
| ConditionLimits.SmallLeaf | crates/nedo-morph-bundle/src/binary.rs:1590-1650 | A one-byte operand is accepted exactly below 29, 18, 14 or 32. |
| ConditionLimits.WordLeaf | crates/nedo-morph-bundle/src/binary.rs:1590-1726 | A four-byte operand is accepted exactly if it is a set of the 29 root attributes or a position in the right table. |
| ConditionLimits.ListLeaf | crates/nedo-morph-bundle/src/binary.rs:1652-1767 | A list is accepted exactly if all its positions lie in the right table. |
| ConditionLimits.SetLeaf | crates/nedo-morph-bundle/src/binary.rs:1727-1754 | A dictionary set is accepted exactly if it rises and at most its last entry is the mark for no item. |
| ConditionLimits.LessIs | crates/nedo-morph-bundle/src/lib.rs:985-1056 | Names are ordered by their first difference, or by length if there is none. |
| Utf8.DecodeSound | crates/nedo-core/src/scanner.rs:1348-1380 | Whatever the decoder accepts is the encoding of the scalar it returns (section 4 of RFC 3629). |
| Utf8.DecodeComplete | crates/nedo-core/src/scanner.rs:1348-1380 | Every encoded scalar beyond ASCII is decoded, and to itself. |
| LexicalClasses.ClassifyText | crates/nedo-core/src/scanner.rs:1173-1204 | A classified step is well-formed text, or one byte at which no text starts. |
| Scanner.UnitsTile | crates/nedo-core/src/scanner.rs:455-498 | The units are not empty, adjoin and cover the bytes exactly. |
| Scanner.AdjacentKindsDiffer | crates/nedo-core/src/scanner.rs:455-498 | Adjacent units never share a kind. |
| Scanner.UnitsFit | crates/nedo-core/src/scanner.rs:455-498 | Units that are not opaque are well-formed; no byte of an opaque unit starts a well-formed sequence. |
| Scanner.BacktickExact | crates/nedo-core/src/scanner.rs:513-548 | The backtick hint holds exactly if the bytes contain a backtick. |
| Scanner.SimpleEnd | crates/nedo-core/src/scanner.rs:873-985 | For kinds without connectors the generic loop finds the end of the unit. |
| UnitEnds.UnitsAreSpelled | crates/nedo-core/src/scanner.rs:990-1171 | Told from the bytes: a word goes on over the five joining marks before a letter or digit, a number over the seven separators before a digit and over two marks as a word, symbols over a zero-width joiner; every unit ends where it cannot go on. |
| UnitEnds.SpelledUnique | crates/nedo-core/src/scanner.rs:873-1171 | The units of the scanner are the only tiling with units that reach as far as they can. |
| UnitEnds.CompoundIsOneWord | crates/nedo-core/src/scanner.rs:990-1037 | Letters with apostrophes and hyphens before letters are one word. |
| KindTable.AsciiTable | crates/nedo-core/src/scanner.rs:1173-1312 | The kind of every ASCII byte by its code, and the operators of two and three characters. |
| KindTable.ScalarTable | crates/nedo-core/src/scanner.rs:1184-1338 | The kind of every other scalar by its value; bytes that encode none are opaque. |
| ScannerLoops.ConsumeSameKindGeneric | crates/nedo-core/src/scanner.rs:873-888 | The generic run ends where the class changes. |
| ScannerLoops.ConsumeWhitespaceRun | crates/nedo-core/src/scanner.rs:890-911 | The specialised run equals the generic one. |
| ScannerLoops.ConsumeLineBreakRun | crates/nedo-core/src/scanner.rs:913-934 | The specialised run equals the generic one. |
| ScannerLoops.ConsumeControlRun | crates/nedo-core/src/scanner.rs:936-959 | The specialised run equals the generic one. |
| ScannerLoops.ConsumePunctuationRun | crates/nedo-core/src/scanner.rs:961-985 | The specialised run equals the generic one. |
| ScannerLoops.ConsumeSymbolRun | crates/nedo-core/src/scanner.rs:987-1037 | Symbols with joiners end where the grouping says. |
| ScannerLoops.ConsumeWord | crates/nedo-core/src/scanner.rs:1039-1075 | Words with connectors end where the grouping says. |
| ScannerLoops.ConsumeNumber | crates/nedo-core/src/scanner.rs:1077-1127 | Numbers with separators and suffixes end where the grouping says. |
| ScannerLoops.Scan | crates/nedo-core/src/scanner.rs:455-498 | The scan never fails and yields the units of the grouping and the exact hint. |
| ScannerLoops.ScanCompact | crates/nedo-core/src/scanner.rs:406-443 | The compact scan yields the same units and the exact hint. |
| ScannerLoops.ValidateScan | crates/nedo-core/src/scanner.rs:130-163 | Accepts exactly valid lossless documents with one kind for each unit and contiguous units. |
| ScannerLoops.ValidateCoverage | crates/nedo-core/src/scanner.rs:366-395 | Accepts exactly spans with one kind each that cover the document contiguously. |
| ScannerLoops.LexicalSpanIter.Next | crates/nedo-core/src/scanner.rs:176-213 | Yields the remaining units one by one. |
| ScannerLoops.HintedLexicalSpanIter.Next | crates/nedo-core/src/scanner.rs:242-280 | Yields the remaining units one by one and tracks the hint. |
| ScannerLoops.HintedLexicalSpanIter.IntoHints | crates/nedo-core/src/scanner.rs:234-240 | A drained iterator has yielded the units of the scan, and its hint is exact. |
| CodeSpans.ExplicitCodeSpans | crates/nedo-tokenizer/src/code.rs:263-285 | Ordered spans, each from an opening run to the first closing run; every backtick lies in one of them or in a run that is never closed. |
| CodeSpans.InlineArtifactSpans | crates/nedo-tokenizer/src/code.rs:35-73 | Exactly the trimmed fields that look like an artifact. |
| CodeSpans.CodeLines | crates/nedo-tokenizer/src/code.rs:336-359 | Lines tile the bytes and end at every line feed and nowhere else. |
| CodeSpans.SelectedSpans | crates/nedo-tokenizer/src/code.rs:440-460 | The spans cover exactly the selected lines. |
| CodeSpans.MergeSpans | crates/nedo-tokenizer/src/code.rs:1127-1143 | Sorted, separated spans with the same union, and no edge inside a scalar. |
| CodeSpans.AutoCodeSpans | crates/nedo-tokenizer/src/code.rs:20-33 | Separated spans that cover exactly delimited code, inferred code and artifacts; skipping the backtick search on the hint changes nothing. |
| CodeMeaning.DelimitedIs | crates/nedo-tokenizer/src/code.rs:263-291 | Told from the bytes: three or more backticks are closed by as many, one or two by a single one, at the first such mark. |
| CodeMeaning.ArtifactIs | crates/nedo-tokenizer/src/code.rs:35-78 | Told from the bytes: the maximal stretches between blanks, control bytes and backticks, without brackets and quotes in front and closing marks behind. |
| CodeMeaning.LineEnds | crates/nedo-tokenizer/src/code.rs:336-359 | Lines end behind line feeds and at the end of the bytes, and nowhere else. |
| Splitting.SplitUnique | crates/nedo-tokenizer/src/lib.rs:3444-3587 | All splitters that meet the specification agree, so each fast one refines the general one. |
| Splitting.CodeSpansRespected | crates/nedo-tokenizer/src/flat_surface.rs:669-750 | Every piece lies wholly inside or wholly outside each code span. |
| Splitting.PiecesAreText | crates/nedo-tokenizer/src/flat_surface.rs:669-750 | Every piece that is not opaque is well-formed text. |
| Splitting.IdentifierCuts | crates/nedo-tokenizer/src/code.rs:293-325 | Cuts stand exactly at separators and case or digit transitions, in order and without repetition. |
| CutMeaning.DocumentCutIs | crates/nedo-tokenizer/src/lib.rs:3287-3360 | Where documents are cut: at code spans and lexical units, between the characters of punctuation, and inside identifiers and numbers of code. |
| CutMeaning.NumberCutIs | crates/nedo-tokenizer/src/lib.rs:3668-3694 | Numbers are cut on both sides of a full stop, comma, colon, slash or hyphen between digits. |
| Splitters.SplitUnits | crates/nedo-tokenizer/src/lib.rs:3444-3516 | The sort-and-dedup splitter never reports a crossing and meets the specification. |
| Splitters.SplitUnitsWithoutCodeSpans | crates/nedo-tokenizer/src/lib.rs:3518-3587 | The splitter without code spans meets the specification. |
| Splitters.FixedTurkishUnits | crates/nedo-tokenizer/src/flat_surface.rs:95-161 | The streaming splitter for Turkish documents meets the specification. |
| Splitters.TurkishPieces | crates/nedo-tokenizer/src/flat_surface.rs:163-205 | Streaming pieces of one unit are those of its sorted boundaries. |
| Alignment.AlignAnalysis | crates/nedo-tokenizer/src/alignment.rs:18-101 | Succeeds exactly if the normalised surfaces match, with the span of every morpheme and cuts exactly behind morphemes and beside apostrophes; otherwise the error says whether a character has no normalisation or the surfaces differ. |
| Alignment.AlignmentUnique | crates/nedo-tokenizer/src/alignment.rs:18-101 | An analysis is aligned with a token in one way. |
| AlignmentMeaning.AlignsIs | crates/nedo-tokenizer/src/alignment.rs:18-210 | An analysis fits if its surfaces spell the letters of the token, as they are, with foreign letters folded, or read in the known alphabet; apostrophes and the dots of abbreviations do not count. |
| AlignmentMeaning.AlignmentCutIs | crates/nedo-tokenizer/src/alignment.rs:18-115 | Cuts stand beside the apostrophes and behind morphemes that letters follow. |
| AlignmentMeaning.MorphemesStand | crates/nedo-tokenizer/src/alignment.rs:37-70 | A morpheme reaches from its first letter to its last; one without letters stands where the one before it ends. |
| Alignment.NormalizeInput | crates/nedo-tokenizer/src/alignment.rs:103-119 | Keeps the characters that morphemes are made of and records exactly the apostrophes. |
| Document.Validate | crates/nedo-tokenizer/src/lib.rs:394-428 | Accepts exactly documents that are covered by valid units. |
| UnitMeaning.DocumentOkIs | crates/nedo-tokenizer/src/lib.rs:394-520 | What validation accepts, status by status. |
| UnitMeaning.UnitsValidIs | crates/nedo-format/src/lib.rs:185-206 | What validation of lossless documents accepts, pair by pair. |
| Document.ValidateMetadata | crates/nedo-tokenizer/src/lib.rs:430-469 | Accepts exactly consistent mode, kind, status and analysis. |
| Document.ValidateAnalysis | crates/nedo-tokenizer/src/lib.rs:471-516 | Accepts exactly analyses with identities and ordered morphemes that are empty exactly if their span is. |
| Pipeline.SurfaceValidCandidates | crates/nedo-tokenizer/src/lib.rs:3222-3243 | The analyses that fit in their order, or the unknown analysis; each can be applied. |
| Pipeline.NumericMicroCuts | crates/nedo-tokenizer/src/lib.rs:3668-3694 | Cuts exactly beside separators between digits, in order and without repetition. |
| Pipeline.CandidatesByValue | crates/nedo-tokenizer/src/lib.rs:548-570 | The candidates of a token depend on its text only, so a cache under the text serves it anywhere. |
| DocumentMeaning.CandidatesAre | crates/nedo-tokenizer/src/lib.rs:3222-3265 | The candidates of a token are all analyses that fit, in their order; only without one it is the unknown analysis. |
| Pipeline.ApplyAnalysis | crates/nedo-tokenizer/src/lib.rs:3630-3666 | Succeeds exactly for applicable analyses and gives a valid unit with that analysis, its spans and its cuts. |
| Pipeline.AppliedUnique | crates/nedo-tokenizer/src/lib.rs:3630-3666 | There is one way to apply an analysis. |
| Pipeline.ApplySelectedAnalysis | crates/nedo-tokenizer/src/lib.rs:3266-3286 | Drops the analysis of punctuation and symbols and adds the numeric cuts of numbers. |
| Pipeline.ApplyFirst | crates/nedo-tokenizer/src/lib.rs:2722-2738 | The first applicable candidate is applied; if all mismatch, the unit is unknown. It fails exactly if an unsupported normalisation comes before the first applicable candidate. |
| Pipeline.FlushSegment | crates/nedo-tokenizer/src/lib.rs:2684-2743 | Every unit of a sentence carries the candidate chosen for it; no other unit changes; it never fails. |
| PipelineRun.ApplyContextualAnalysis | crates/nedo-tokenizer/src/lib.rs:2654-2682 | The sentences are those that boundaries, line breaks and the token limit give, and each is analysed. |
| Sentences.SentencesAre | crates/nedo-tokenizer/src/lib.rs:2654-2682 | The sentences hold exactly the Turkish units that are neither blank, line break, control nor opaque, in order; neighbours part exactly at a dividing unit, behind a full stop, exclamation or question mark, or when the sentence is full. |
| Sentences.AnalysedInSentences | crates/nedo-tokenizer/src/lib.rs:2654-2682 | Every analysed document is analysed in such sentences. |
| DocumentMeaning.AnalysedFits | crates/nedo-tokenizer/src/lib.rs:2684-2743 | Analysis gives Turkish words and numbers an analysis, numbers the cuts at their separators, and leaves every other unit alone. |
| DocumentMeaning.ProducedFits | crates/nedo-tokenizer/src/lib.rs:1973-1993 | In every produced document exactly the Turkish words and numbers are analysed. |
| UnitMeaning.UnknownWord | crates/nedo-tokenizer/src/lib.rs:3245-3265 | The analysis of an unknown word, written out. |
| PipelineRun.ChunkSpan | crates/nedo-tokenizer/src/lib.rs:3791-3847 | Chunks tile the stretch, are text where it is, and all but the last are as long as allowed. |
| PipelineRun.SplitLongUnit | crates/nedo-tokenizer/src/lib.rs:3752-3789 | A long unit is replaced with its parts on greedy chunks; a part of an unknown word is an unknown word. |
| UnitMeaning.PartsAre | crates/nedo-tokenizer/src/lib.rs:3752-3847 | Structure and analysed words stay whole; the parts of unknown words, code and what is passed through are as long as they may be, all but the last. |
| PipelineRun.SplitLongFallbackUnits | crates/nedo-tokenizer/src/lib.rs:3752-3789 | Every unit is replaced with its parts in order, and the parts still cover the bytes with valid units. |
| ControlParts.ControlPartsAreTextIff | crates/nedo-tokenizer/src/lib.rs:3752-3847 | The parts of a control unit that is text are all text exactly if it needs no cutting or every multiple of the maximum from its start is the start of a character. |
| ControlParts.ControlPartsMayBreakScalars | crates/nedo-tokenizer/src/lib.rs:3752-3847 | The unit of the control character U+0080 is valid and text; with a maximum of one the splitter cuts it into two parts that are not. |
| PipelineRun.CodeSpansOf | crates/nedo-tokenizer/src/lib.rs:1980-1986 | None, the delimited or the automatic code spans, according to mode and configuration. |
| DocumentMeaning.CodeSpansAre | crates/nedo-tokenizer/src/lib.rs:1980-1986 | No spans if a mode is asked for; the delimited code if nothing else is detected; otherwise exactly delimited code, unmarked code and artifacts are covered. |
| PipelineRun.Group | crates/nedo-tokenizer/src/lib.rs:4008-4047 | Each unit gets its assigned group and is otherwise unchanged; the document stays valid. |
| PipelineRun.Tokenize | crates/nedo-tokenizer/src/lib.rs:1973-1993 | The result comes from the stages of the pipeline and passes validation for all bytes and any morphology; up to 2^32 - 1 bytes it never fails. |
| PipelineUnique.ProducedUnique | crates/nedo-tokenizer/src/lib.rs:1973-1993 | Bytes, configuration, morphology and code spans determine the document, so no stage leaves anything open. |
| PipelineUnique.GreedyUnique | crates/nedo-tokenizer/src/lib.rs:3791-3847 | A stretch is cut greedily in one way. |
| InnerGroups.AssignInnerGroups | crates/nedo-tokenizer/src/lib.rs:4008-4047 | Fails exactly when the counter overflows; otherwise words, clitics and the blanks between them have the groups the rule gives, and the sidecar accepts the numbers. |
| GroupMeaning.GroupedIs | crates/nedo-tokenizer/src/lib.rs:4008-4054 | A clitic and the blanks before it have the group of the unit it follows, every other counting unit the first free number, and nothing else has a group. |
| InnerGroups.UnitsCarryIds | crates/nedo-tokenizer/src/lib.rs:4008-4047 | The group state of encoded units is that of their group numbers. |
| SidecarFormat.GroupCoding | crates/nedo-tokenizer/src/nedoformer_sidecar.rs:562-615 | Group numbers and group states translate into each other without loss, in both directions. |
| SidecarFormat.FlagsRoundTrip | crates/nedo-tokenizer/src/nedoformer_sidecar.rs:617-650 | A flag byte is packed from exactly one quadruple of kind, mode, state and ambiguity. |
| SidecarFormat.FromToBody | crates/nedo-tokenizer/src/nedoformer_sidecar.rs:233-298 | Reading a written unit gives it back, with the score of a lone candidate set to 0. |
| SidecarFormat.ToFromBody | crates/nedo-tokenizer/src/nedoformer_sidecar.rs:233-298 | Whatever is read is a valid unit that is written the same way. |
| SidecarFormat.PlacedUnits | crates/nedo-tokenizer/src/nedoformer_sidecar.rs:307-447 | Units placed one behind the other are encodable and have the bodies they were placed from. |
| SidecarDecoder.EncodeSidecarUnits | crates/nedo-tokenizer/src/nedoformer_sidecar.rs:184-298 | Succeeds exactly for encodable units and writes their encoding. |
| Layouts.SidecarIsLaid | crates/nedo-tokenizer/src/nedoformer_sidecar.rs:184-298 | The sidecar byte by byte: header, lengths, the bits of every flag byte, selected index, scores and relative cuts. |
| Layouts.ScoreIsFinite | crates/nedo-tokenizer/src/nedoformer_sidecar.rs:184-298 | The scores that are written are those whose exponent is not all ones. |
| SidecarDecoder.FromBytes | crates/nedo-tokenizer/src/nedoformer_sidecar.rs:307-447 | Accepts exactly the encodings of decodable units of the document and returns those units with unused scores set to 0; what is accepted encodes to the same bytes, and what the encoder wrote is refused exactly if a unit has more than 256 candidates. |
| SidecarDecoder.EncodeInjective | crates/nedo-tokenizer/src/nedoformer_sidecar.rs:184-298 | Two lists of encodable units with the same sidecar agree up to unused scores, however many candidates they have. |
| SidecarDecoder.AcceptedIffFew | crates/nedo-tokenizer/src/nedoformer_sidecar.rs:307-447 | The encoding of encodable units is that of some decodable units exactly if no unit has more than 256 candidates. |
| SidecarDecoder.CrowdedIsRefused | crates/nedo-tokenizer/src/nedoformer_sidecar.rs:307-447 | A unit with 257 candidates is encoded, and its sidecar is refused. |
| SidecarDecoder.WriteRelativeCuts | crates/nedo-tokenizer/src/nedoformer_sidecar.rs:652-672 | Succeeds exactly for valid cuts and writes their relative form. |
| SidecarReader.Reader.ReadRelativeCuts | crates/nedo-tokenizer/src/nedoformer_sidecar.rs:674-694 | Reads valid cuts that re-encode to the bytes read; otherwise no valid cuts are encoded there. |
| Varint.WriteVarU64 | crates/nedo-tokenizer/src/nedoformer_sidecar.rs:696-708 | Writes the unsigned LEB128 encoding (section 7.6 of DWARF 5). |
| Varint.ReadVarU64 | crates/nedo-tokenizer/src/nedoformer_sidecar.rs:784-809 | Returns the one 64-bit value whose shortest encoding stands at the position, or there is none. |
| Varint.EncodeUnique | crates/nedo-tokenizer/src/nedoformer_sidecar.rs:696-717 | At one place there is the encoding of one value only. |
| Varint.ShortestIsEncoding | crates/nedo-tokenizer/src/nedoformer_sidecar.rs:784-809 | A terminated string of the shortest length is the encoding of its value. |
| Interner.AmbiguityScoringInterner.Code | crates/nedo-tokenizer/src/lib.rs:737-766 | Codes a word by the grown tables and refuses only when a table is used up; a word the tables hold is refused exactly if one of the two combined tables is full, and changes nothing. The new tables are stated in full. |
| Interner.AmbiguityScoringInterner.CodeWithBase | crates/nedo-tokenizer/src/lib.rs:772-836 | A word known to base and delta together is coded by their numbers without growth, a word of the base by those of the base; refuses only when a table is used up. |
| Interner.AmbiguityScoringInterner.CodeAll | crates/nedo-tokenizer/src/lib.rs:1203-1242 | The candidates of a surface are coded one after the other, and all of them by the grown tables. |
| Interner.InternLayered | crates/nedo-tokenizer/src/lib.rs:892-911 | The number of the base, of the delta, or the next one; refuses exactly when numbers are used up. |
| Interner.CodesIdentify | crates/nedo-tokenizer/src/lib.rs:727-836 | Equal signatures exactly for equal lemma and groups; equal canonical numbers exactly for equal canonicals. |
| Interner.CodeKept | crates/nedo-tokenizer/src/lib.rs:727-836 | A code stays what it is while the tables grow. |
| Interner.BaseNumbersStay | crates/nedo-tokenizer/src/lib.rs:772-836 | Words of the base keep their numbers in every delta, and delta numbers never collide with them. |
| Interner.CodesFitCache | crates/nedo-tokenizer/src/lib.rs:727-836 | Codes of one interner meet what the score cache assumes, however far the tables have grown. |
| InternerRuns.RunsKeepTables | crates/nedo-tokenizer/src/lib.rs:727-836 | Whatever words are coded, with or without a base, the delta goes on numbering where the base ends, and the numbers in its keys are numbers of something. |
| InternerRuns.KnownWordMayBeRefused | crates/nedo-tokenizer/src/lib.rs:737-766 | A run of 2^32 words codes each of them, and afterwards the interner holds every one of them and refuses every one of them, changing nothing. |
| InternerRuns.RefusalHappens | crates/nedo-tokenizer/src/lib.rs:737-766 | There is a run of calls after which a word is held and refused. |
| Coherence.CodesAreCoherent | crates/nedo-tokenizer/src/lib.rs:727-836 | Whole candidate lists coded by one interner, at whatever times, meet what the disambiguator demands of codes and cache. |
| Coherence.BoundariesAreCoherent | crates/nedo-morph-bundle/src/disambiguation.rs:766-832 | The lexicon of an interner names the two sentence boundaries. |
| BatchProtocol.EveryInterleaving | crates/nedo-tokenizer/src/lib.rs:2003-2062 | In every interleaving each chunk is processed exactly once and the reassembled result is that of the inputs in order. |
| BatchProtocol.FailuresAgree | crates/nedo-tokenizer/src/lib.rs:2003-2062 | A halted batch succeeded exactly if tokenizing the inputs in order succeeds. |
| BatchFailures.FailedBatch | crates/nedo-tokenizer/src/lib.rs:2026-2055 | A batch returns an error exactly if the inputs in order have one; it is that of the first failing input of some chunk, and the error of the inputs in order is always among those of the workers. |
| BatchFailures.FailuresAreFirst | crates/nedo-tokenizer/src/lib.rs:2026-2055 | The chunks that workers fail on are the first failing ones: every failing chunk before them has a worker that failed on it. |
| BatchFailures.OneErrorForAll | crates/nedo-tokenizer/src/lib.rs:2026-2055 | If no two inputs fail differently, every interleaving returns what the inputs in order do. |
| BatchFailures.ErrorMayDiffer | crates/nedo-tokenizer/src/lib.rs:2026-2055 | An interleaving of two workers returns another error than the inputs in order. |
| BatchProtocol.StepsEnd | crates/nedo-tokenizer/src/lib.rs:2003-2062 | Every step uses something up, so every interleaving ends. |
| BatchProtocol.StepsGoOn | crates/nedo-tokenizer/src/lib.rs:2003-2062 | No interleaving gets stuck before its workers have halted. |
| BatchProtocol.RunKeepsInvariant | crates/nedo-tokenizer/src/lib.rs:2003-2062 | Every reachable state keeps the ownership invariant of chunks. |
| BatchChunks.BuildBatchRanges | crates/nedo-tokenizer/src/lib.rs:3125-3154 | Chunks tile the inputs, none is empty, and all but the last reach the target size minimally. |
| BatchChunks.AnalysisCache.Analyze | crates/nedo-tokenizer/src/lib.rs:548-570 | Returns what analysing returns, and retains it exactly if there is room. |
| BatchChunks.TokenizeWithCache | crates/nedo-tokenizer/src/lib.rs:1973-1993 | Tokenizing through a cache equals tokenizing without one. |
| BatchChunks.TokenizeChunk | crates/nedo-tokenizer/src/lib.rs:2003-2062 | A worker with its own cache gives the cacheless results of its chunk. |
| BatchChunks.AppendSlices | crates/nedo-tokenizer/src/lib.rs:3041-3079 | Joining rebases offsets so that every document keeps its slice. |
| BatchChunks.OrderUnique | crates/nedo-tokenizer/src/lib.rs:3041-3044 | Chunks with distinct numbers have one sorted order, however they came in. |
| BatchChunks.ConcatenateSurfaceChunks | crates/nedo-tokenizer/src/lib.rs:3041-3079 | Refuses exactly inconsistent chunks; otherwise the slices are those of the chunks in the order of their numbers, however they came in. |
| CompiledTable.Table.Get | crates/nedo-tokenizer/src/compiled_analysis_table.rs:243-262 | Exactly the candidates of the surface, none for any other string; every probe ends. |
| CompiledTable.BuildSlots | crates/nedo-tokenizer/src/compiled_analysis_table.rs:193-221 | Refuses exactly if two entries share a surface. |
| CompiledTable.FromEntries | crates/nedo-tokenizer/src/compiled_analysis_table.rs:104-230 | Builds a table of the entries exactly if their surfaces are distinct. |
| CompiledCodec.Encode | crates/nedo-tokenizer/src/compiled_analysis_table.rs:288-367 | Succeeds exactly for codable entries with distinct surfaces and writes them in the order of their surfaces. |
| DocumentLayouts.TableIsLaid | crates/nedo-tokenizer/src/compiled_analysis_table.rs:288-367 | The compiled table byte by byte: header, entries, and the sizes and parts of every candidate. |
| CompiledCodec.LexLeIs | crates/nedo-tokenizer/src/compiled_analysis_table.rs:288-300 | Surfaces are ordered by their first difference, or by length if there is none. |
| CompiledCodec.FromBytes | crates/nedo-tokenizer/src/compiled_analysis_table.rs:74-230 | Loads exactly the encodings of codable entries with distinct surfaces, and holds those entries. |
| CompiledCodec.EncodeLoadGet | crates/nedo-tokenizer/src/compiled_analysis_table.rs:74-367 | A lookup after encoding and loading gives a surface its own candidates in order, and nothing else. |
| CompiledCodec.OrderIndependent | crates/nedo-tokenizer/src/compiled_analysis_table.rs:288-367 | The encoding does not depend on the order in which the entries are given. |
| CompiledCodec.EncodeInjective | crates/nedo-tokenizer/src/compiled_analysis_table.rs:288-367 | Different lists of entries have different encodings. |
| CompiledReader.ReadEntry | crates/nedo-tokenizer/src/compiled_analysis_table.rs:109-187 | Finds the one codable entry encoded at the position, or there is none. |
| CompiledReader.ReadCandidate | crates/nedo-tokenizer/src/compiled_analysis_table.rs:126-167 | Finds the one candidate of the surface encoded at the position, or there is none. |
| TokenizedDocuments.Encode | crates/nedo-tokenizer/src/codec.rs:20-72 | Succeeds exactly for valid documents whose lengths fit, and writes their encoding. |
| DocumentLayouts.DocumentIsLaid | crates/nedo-tokenizer/src/codec.rs:20-72 | The document form byte by byte: header, text, and for every unit its numbers, cuts and analysis. |
| TokenizedDocuments.Decode | crates/nedo-tokenizer/src/codec.rs:77-178 | Accepts exactly the encodings of codable documents and returns that document; what is accepted encodes to the same bytes. |
| TokenizedDocuments.EncodeInjective | crates/nedo-tokenizer/src/codec.rs:20-72 | Different documents have different encodings. |
| TokenizedDocuments.WrittenIsCodable | crates/nedo-tokenizer/src/codec.rs:20-72 | A written document decodes to itself exactly if no unit carries the group number 2^32 - 1, which reads as no group. |
| TokenizedDocuments.LargestGroupIsLost | crates/nedo-tokenizer/src/codec.rs:20-72 | A valid, written document with a unit in that group does not read back as it was. |
| TokenizedReader.ReadUnit | crates/nedo-tokenizer/src/codec.rs:111-170 | Finds the one codable unit encoded at the position, or there is none. |
| TokenizedReader.ReadString | crates/nedo-tokenizer/src/codec.rs:286-293 | Finds the one text encoded at the position, or there is none. |
| LosslessFormat.ValidateDocument | crates/nedo-format/src/lib.rs:185-206 | Accepts exactly documents whose units lie in order with increasing interior cuts. |
| LosslessFormat.EncodeBinary | crates/nedo-format/src/lib.rs:217-249 | Succeeds exactly for encodable documents and writes their encoding. |
| DocumentLayouts.LosslessIsLaid | crates/nedo-format/src/lib.rs:217-249 | The lossless form byte by byte. |
| LosslessFormat.DecodeBinary | crates/nedo-format/src/lib.rs:257-312 | Accepts exactly the encodings of encodable documents, so the count guards refuse none of them. |
| LosslessFormat.EncodeInjective | crates/nedo-format/src/lib.rs:217-249 | Different documents have different encodings. |

## Left out

- Floating point: scores are exact integers, so rounding, NaN and summation order are not modelled, nor is sampling with a temperature.
- Hash functions, SHA-256 digests, Unicode property tables and case mapping: arbitrary functions, with only the ASCII facts that proofs need.
- Morphology: candidates, completion of numerals, and the spelling of canonical keys enter the pipeline as arbitrary functions with non-empty identities. So does the choice made for a sentence, any in-range one; `CausalPipeline` instantiates it with the causal decoder.
- Code heuristics: line scores, the choice of code lines, artifact tests and all scanner hints but the backtick hint are arbitrary predicates.
- Parsing of the perceptron model, JSON loading, and the identities of the embedded assets, which are parameters.
- Telemetry, byte-size estimates, display helpers, and the environment switch that forces the hash decoder, which is a parameter.
- The shared bank of prepared words is modelled as a table that one thread uses; its one-time initialisation across threads is not.
- Words with more than 2^24 inflectional groups, for which feature identities overlap.
- The map that counts conditions inside `Condition::validate`, and the vocabularies of attributes and parts of speech beyond their sizes.
- The sections of the compiled bundle other than condition programs.
- Preinterning of scoring codes while a compiled table is loaded, which can fail with an identity overflow, and the digest kept for display.
- Library sorts are modelled as sorted permutations or insertion sorts.
- Failure of memory allocation and of `usize` conversions on narrow machines.
- Replay of surface and document programs, flat training encoders, vocabularies, `to_sidecar_bytes` and sampling of sidecars.
- Scoring.CompactPreparedFeatures.EnsurePair: the memo of a layer is allocated at once, not when it is first used.
- Alignment.AlignAnalysis: offsets are natural numbers; overflow of 64-bit offsets is not modelled.
- Texts and characters that errors carry, and panics of worker threads.
- CompiledCodec.FromBytes: returns no reason for a refusal.
- TokenizedDocuments.Decode: returns no reason for a refusal.
- BatchChunks.ConcatenateSurfaceChunks: offsets are natural numbers; overflow of 64-bit offsets is not modelled.
- SidecarDecoder.FromBytes: returns no reason for a refusal.
