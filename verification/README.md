# Verified models of the shield proxy's hard cores

This project models the parts of the repository whose promises are about *all* inputs or *all*
runs, and proves them in Dafny 4.11. `dafny verify dfyconfig.toml` checks everything.

| file | what it models |
|---|---|
| `Redactor.dfy`, `Adapters.dfy`, `Streaming.dfy` | the whole-input redactor, the `per_chunk` adapter, the streaming hold-back filter that must compute the same, and the chunk-local filter that does not |
| `Splits.dfy`, `ChunkInvariance.dfy` | the enumeration of every split of an input, and the assertion that searches them |
| `Combinatorics.dfy`, `ExactTests.dfy`, `MedianInterval.dfy`, `Holm.dfy`, `Sorting.dfy` | the exact statistics: binomial tails, sign test, enumerated sign-flip test, order-statistic interval, Holm's adjustment |
| `AuditLog.dfy`, `AuditReport.dfy`, `AuditHistory.dfy`, `AuditWriter.dfy`, `AuditCheckpoint.dfy` | the verifier of hash-chained audit logs, what its report says and what its acceptance means, the writer of such logs, and the checkpoint over accepted ones |
| `ResourceUri.dfy`, `UriText.dfy` | the decode-to-fixpoint normaliser of MCP resource URIs, and what its decisions mean as text |
| `Failover.dfy` | the two retry/failover loops of the gateway and the credential a fallback carries |
| `RunLinks.dfy`, `ResultsWall.dfy` | the results-wall table, the key that names a run, and the gate a submission passes |
| `Json.dfy`, `KeyOrder.dfy`, `JsonDiff.dfy`, `ReportOrder.dfy` | parsed JSON as Python holds it, the order of its keys, the report diff, and the order of what it reports |
| `Text.dfy` | joining pieces, counting positions, decimal rendering, optional values |

Each loop of the source is a method with invariants, proved against a function of its inputs or of
the old state; each object or dict updated in place is a class. The theorems are then lemmas about
those functions.

The main results:

* **Streaming refines the specification.** On every chunking, empty chunks included, the hold-back
  filter's output joins to the redaction of the joined input, with overlapping key occurrences in
  play; what it has emitted is always a prefix of the right answer; ten characters is the least
  window for which this holds. Redacting each chunk alone is right exactly when no key chosen by the
  whole-text scan is cut by a boundary.
* **An accepted log is one intact chain, and its last hash is its history.** The long verification
  loop returns with a valid verdict on exactly the non-empty, anchored, consecutively numbered, linked
  and sealed chains whose events and severities can be counted.
  Its report lists exactly the breaks that apply, each once and in order, and every count and field of
  it is what the records say. Whatever is dropped, repeated or reordered, only prefixes stay accepted;
  without a hash collision two accepted logs with one terminal hash agree record for record, so a
  checkpoint's manifest hash fixes every history it covers.
* **Written and verified.** Over any run of events and restarts, with records lost, cut off, or in the
  file without the writer knowing, the log is accepted exactly when something was written, nothing
  went wrong with an appended event, none was appended while an unconfirmed line was last in the
  file, and the first one anchors the chain. A restart repairs an unconfirmed line.
* **Holm is the closed Bonferroni test**; the enumerated sign-flip test and the sign test agree on
  one-magnitude samples under an exact condition, and the enumerated test is exact on every sample: at
  most `m` of its `2^n` sign flips have a p-value of at most `m / 2^n`; the sign test sees only the
  signs of the non-zero values; the interval's coverage, before it is rounded to six digits for
  printing, is exactly the share of the `2^n` ways to fall around the median in which it holds it,
  whatever the values.
* **An accepted resource URI stays safe** under any number of further decodings: it never shows a
  traversal, a backslash, a control character or one of the four texts of an encoded separator.
* **Failover** sends again after every reply but a success, a 400, a 401 or a 403, up to
  `retries + 1` times to the primary and then as often to the fallback, and each fallback send carries
  the one credential its host is entitled to: the operator's fallback key goes to the operator's
  fallback only.
* **Every reachable results table** has one row per issue and per run; the twelve-row cap holds under
  two conditions, both shown to be needed.
* **The diff** lists every disagreement once, in the order of the places where they stand, and is empty
  exactly when two reports agree outside the ignored paths.

## Where the code and its description part

The model follows the code; these are the places where a stated or expected property is not quite
what the code does.

* Sign-flip test: the comparison allows a tolerance of `1e-12` (`benchmarks/fide_uncertainty.py:158`).
  For a sample of one non-zero magnitude `c` its p-value equals the sign test's if and only if
  `2c > 1e-12` or the two signs are as balanced as they can be (`FlipTestIsSignTest`);
  `ToleranceMergesSums` is an input on which they differ.
* Median interval: the docstring writes the coverage with `P(Bin <= k - 1)`
  (`benchmarks/fide_uncertainty.py:177`), the code computes it with `k` (line 187). The code's value is
  the right one for the interval it returns (`CoverageIsShareHolding`).
* Empty text: without a limit the Python enumeration yields nothing, the TypeScript one yields the
  empty text once (`FormsDifferOnlyOnEmptyText`). The theorems about the enumeration are about
  non-empty text.
* Audit log: a record whose `event` or `severity` is a list or an object makes the verifier raise
  (`llm_shield_proxy/compliance/report.py:192-193`) rather than report the log as broken; the outcome
  is `Raised`. `CountableMeansAll` says when, and `ListEventRaises` is an input. `Accepted` is the
  verdict of a run that returns; `Clean` is a log with nothing noted against it, whether it does or not.
* Audit writer: the record that stands in for an event that cannot be serialized is there to keep the
  chain (`llm_shield_proxy/observability/audit.py:234`), but carries neither chain id nor sequence
  (lines 235-239). The verifier rejects every log that holds one (`WrittenAcceptedIff`;
  `SubstituteIsRejected` is an input), and a restart right after one resumes as a new chain (`RestartIff`).
* Audit writer: when appending raises after the line is in the file, as a failed `fsync` does
  (`llm_shield_proxy/observability/audit_sink.py:39-46`), the sequence and the last hash are not moved
  (`llm_shield_proxy/observability/audit.py:274-275`). The next event takes the same number again and
  the verifier rejects the log (`BehindBreaks`; `UnconfirmedIsRejected` is an input), unless the logger
  restarts in between (`RestartRepairs`, `RestartSavesUnconfirmed`).
* Row cap: the cap on rows per account is not kept by the gate alone. A submission breaks it exactly
  when a full account's row, for a run nobody else claims, replaces some rows but none held under
  that very name (`CapKeptIff`). It is kept in
  every run in which an issue keeps its submitter and a login its spelling (`CapHolds`), and neither
  condition can be dropped (`IssuesMustFixSubmitters`, `LoginsMustHaveOneSpelling`).
* Diff: a key on one side only is reported even when its path is on the ignore list
  (`MissingKeyAlwaysReported`).

## Model

| member | source | states |
|---|---|---|
| Redactor.ScanIsLeftmost | chunk-invariance/chunk_invariance/examples.py:22-37 | a list of positions is the pattern's leftmost, non-overlapping scan (first match after the previous one, no match begun in any gap) if and only if it is the scan's own list |
| Redactor.RedactIsSplice | chunk-invariance/chunk_invariance/examples.py:27-29 | substitution is cutting out exactly the leftmost scan's matches and putting the mask in their place |
| Redactor.RedactedIsKeyFree | chunk-invariance/chunk_invariance/examples.py:27-29 | no key occurs at any position of a redacted text, not even one put together around a mask |
| Redactor.FixpointIffKeyFree | chunk-invariance/chunk_invariance/examples.py:27-29 | redaction leaves a text as it is if and only if the text holds no key |
| Redactor.RedactIdempotent | chunk-invariance/chunk_invariance/examples.py:27-29 | redacting twice is redacting once |
| Redactor.RedactFromFront | chunk-invariance/chunk_invariance/examples.py:27-29 | a key in front becomes `[KEY]` and eleven characters go; any other character stays |
| Streaming.StepKeepsRedaction | chunk-invariance/chunk_invariance/examples.py:32-46 | one chunk never changes output-so-far plus the redaction of held text and everything still to come, for every window of at least ten |
| Streaming.FeedKeepsRedaction | chunk-invariance/chunk_invariance/examples.py:32-46 | the same over any number of chunks and any continuation |
| Streaming.StreamedIsRedact | chunk-invariance/chunk_invariance/examples.py:27-54 | the stream's output, flush included, is the redaction of the joined input on every chunking |
| Streaming.EmittedIsPrefix | chunk-invariance/chunk_invariance/examples.py:32-46 | after any chunks, what has been emitted is a prefix of the redaction of the input so far plus any continuation |
| Streaming.HeldIsBounded | chunk-invariance/chunk_invariance/examples.py:34-45 | at most the window's length is ever held back |
| Streaming.ShortWindowLeaks | chunk-invariance/chunk_invariance/_check.py:36-42 | every smaller window fails on a key cut before its last character |
| Streaming.WindowIsLeast | chunk-invariance/chunk_invariance/_check.py:36-42 | a window is right on every chunking if and only if it is at least ten characters |
| Streaming.HoldBack.constructor | chunk-invariance/chunk_invariance/adapters.py:21-22 | each stream begins with nothing buffered |
| Streaming.HoldBack.Process | chunk-invariance/chunk_invariance/examples.py:32-46 | the loop over the matches emits and keeps what the scan-by-position specification emits and keeps |
| Streaming.HoldBack.Flush | chunk-invariance/chunk_invariance/examples.py:49-51 | the flush is the redaction of what was held, and nothing stays held |
| Adapters.PerChunkSplits | chunk-invariance/chunk_invariance/adapters.py:21-26 | for any step and flush: what a stream has yielded depends on the chunks so far only, and the rest on the state they left |
| Adapters.StreamFilter | chunk-invariance/chunk_invariance/adapters.py:9-28 | the adapter's loop, for any step and optional flush, yields an output per chunk and the flushed one, from the state it is given |
| Streaming.PiecesAreFeed | chunk-invariance/chunk_invariance/examples.py:54-55 | the adapted hold-back step yields pieces that join to what the stream has emitted, and leaves the held text as its state |
| Streaming.HoldBackIsRedact | chunk-invariance/chunk_invariance/examples.py:27-54 | on every chunking the pieces of the adapted filter join to the redaction of the joined input |
| Streaming.PiecesArePrefix | chunk-invariance/chunk_invariance/examples.py:32-46 | every initial run of those pieces joins to a prefix of the redaction, whatever follows |
| Streaming.RunHoldBack | chunk-invariance/chunk_invariance/adapters.py:21-26 | a stream through the stateful filter yields exactly the adapted filter's pieces |
| Streaming.ScansSynchronise | chunk-invariance/chunk_invariance/examples.py:27-29 | where no chosen key straddles the seam, the scan and the redaction of a join are those of its halves |
| Streaming.StraddleDiffers | chunk-invariance/chunk_invariance/examples.py:58-61 | where one does, no result that begins with the first half's redaction is right |
| Streaming.DesignAIffNoKeyIsCut | chunk-invariance/chunk_invariance/examples.py:22-29 | chunk-local redaction is right if and only if no key of the whole-text scan is cut by a chunk boundary |
| Streaming.DesignA | chunk-invariance/chunk_invariance/examples.py:58-61 | redacts each chunk alone, and so is right on exactly those chunkings |
| Splits.CombinationsMembers | chunk-invariance-js/src/core.ts:58-68 | the recursion yields a list if and only if it is an increasing choice of that many positions |
| Splits.CombinationsCount | chunk-invariance-js/src/core.ts:58-68 | there are binomially many |
| Splits.CombinationsOrdered | chunk-invariance-js/src/core.ts:58-68 | they come in strict lexicographic order, so none comes twice |
| Splits.LexLessIff | chunk-invariance-js/src/core.ts:58-68 | lexicographic order: the first place where two lists differ decides |
| Splits.CutThenRead | chunk-invariance/chunk_invariance/core.py:47-49 | cutting gives non-empty parts that join back, and the cuts can be read off them again |
| Splits.ReadThenCut | chunk-invariance/chunk_invariance/core.py:39-49 | reading the cuts off any split and cutting there gives the split back |
| Splits.CutPoints | chunk-invariance/chunk_invariance/core.py:39-44 | the loop returns the offsets at which the chunks meet |
| Splits.FormsDifferOnlyOnEmptyText | chunk-invariance-js/src/core.ts:84-90 | the two languages' enumerations try different numbers of parts on exactly one kind of call |
| Splits.EnumeratedMembers | chunk-invariance/chunk_invariance/core.py:58-70 | a list is enumerated if and only if it is a split of the text into at most that many non-empty parts |
| Splits.EnumeratedOrdered | chunk-invariance/chunk_invariance/core.py:58-70 | no split comes twice; fewer parts come first, then smaller cut positions |
| Splits.EnumeratedCount | chunk-invariance/chunk_invariance/core.py:58-82 | the number of splits is a partial binomial row sum, `2^(n-1)` without a limit |
| Splits.AllSplits | chunk-invariance/chunk_invariance/core.py:58-70 | the nested loops refuse a limit below one and otherwise yield exactly those splits in that order |
| ChunkInvariance.AssertChunkInvariant | chunk-invariance/chunk_invariance/core.py:73-124 | returns a count, a violation or an error according to the first list that does not join back or whose output differs |
| ChunkInvariance.RefusedIff | chunk-invariance/chunk_invariance/core.py:73-89 | a bool is a type error; an unknown name, "all" above sixteen characters and a limit below one are value errors; nothing else is refused, and explicit lists are tried as given |
| ChunkInvariance.TriedIff | chunk-invariance/chunk_invariance/core.py:73-89 | any other request tries exactly the splits into non-empty parts, at most two or at most its limit |
| ChunkInvariance.EmptyTried | chunk-invariance/chunk_invariance/core.py:65-70 | of an empty text the one split is tried, and none at all under "all" |
| ChunkInvariance.VerdictIsUnique | chunk-invariance/chunk_invariance/core.py:96-124 | that description determines the result |
| ChunkInvariance.GeneratedVerdict | chunk-invariance/chunk_invariance/core.py:73-124 | a count means the filter agrees on every split into at most that many parts; a reported split disagrees and has the fewest parts of all that do; nothing else happens |
| ChunkInvariance.AllMeansEverySplit | chunk-invariance/chunk_invariance/core.py:76-82 | with `"all"`, a normal return means agreement on every split of the text and counts `2^(n-1)`; it is refused exactly above sixteen characters |
| ChunkInvariance.HoldBackAlwaysPasses | chunk-invariance/chunk_invariance/examples.py:54-55 | the hold-back filter is never reported, on any request |
| ChunkInvariance.DesignACaughtIffKey | chunk-invariance/chunk_invariance/examples.py:12-12 | the default request reports chunk-local redaction on exactly the texts that hold a key |
| Combinatorics.BinomIsFactorialQuotient | benchmarks/fide_uncertainty.py:93-94 | the coefficient is `n! / (k! (n-k)!)` |
| ExactTests.HalfPmf | benchmarks/fide_uncertainty.py:93-94 | at one half, a mass is that many of the `2^n` outcomes |
| ExactTests.HalfCdf | benchmarks/fide_uncertainty.py:97-98 | a tail is a partial row sum over `2^n` |
| ExactTests.PatternsMembers | benchmarks/fide_uncertainty.py:156-156 | the patterns enumerated are the lists of `n` signs, all of them and nothing else |
| ExactTests.PatternsDistinct | benchmarks/fide_uncertainty.py:156-156 | and none comes twice |
| ExactTests.SignFlipTest | benchmarks/fide_uncertainty.py:140-170 | the loop over all sign patterns counts all `2^n` of them and those at least as extreme as the sample; the p-value is their ratio, the mean is rounded to six digits; no values and more than 22 are told apart |
| ExactTests.ExtremesAreCounted | benchmarks/fide_uncertainty.py:153-159 | the count is the number of sign patterns whose flipped sample has a sum at least as large, up to `1e-12` |
| ExactTests.RoundedIsMillionths | benchmarks/fide_uncertainty.py:164-164 | the rounded mean is the nearest number of millionths |
| ExactTests.PatternsBranch | benchmarks/fide_uncertainty.py:153-159 | counting over the enumerated patterns is counting by branching on one sign at a time |
| ExactTests.FlipTestIsExact | benchmarks/fide_uncertainty.py:140-147 | of the `2^n` sign flips of any sample, at most `m` have an enumerated p-value of at most `m / 2^n` |
| ExactTests.FlippedBranch | benchmarks/fide_uncertainty.py:153-159 | flipping signs of a sample does not change how many patterns clear a bar |
| ExactTests.SmallestFlipP | benchmarks/fide_uncertainty.py:153-169 | no sample's p-value is below `2 / 2^n` |
| ExactTests.SignsAreCounted | benchmarks/fide_uncertainty.py:110-112 | the three counts reported are those of the positive, negative and zero values, on every sample |
| ExactTests.SignTestCounts | benchmarks/fide_uncertainty.py:101-137 | on every sample: no p-value exactly when all values are zero, and otherwise twice the rarer sign's tail over `2^n`, or one, where `n` leaves the zeros out |
| ExactTests.SignTestSeesSigns | benchmarks/fide_uncertainty.py:110-128 | the p-value of any sample is that of the list with zeros removed and every other value replaced by one of its sign |
| ExactTests.SignTestShare | benchmarks/fide_uncertainty.py:101-137 | on one-magnitude samples the sign test's p-value is twice the rarer sign's tail over `2^n`, or one |
| ExactTests.FlipTestIsSignTest | benchmarks/fide_uncertainty.py:140-170 | on one-magnitude samples the two p-values are equal if and only if the tolerance cannot merge neighbouring sums or the signs are balanced |
| ExactTests.ConstantSample | benchmarks/fide_uncertainty.py:476-481 | a constant non-zero sample gets `2 / 2^n` from the sign test, and from the sign-flip test under exactly that condition |
| ExactTests.ToleranceMergesSums | benchmarks/fide_uncertainty.py:158-158 | two equal values, each a tenth of the tolerance, on which the two tests part |
| MedianInterval.MedianInterval | benchmarks/fide_uncertainty.py:173-208 | picks the largest rank below `n // 2` whose coverage reaches the target, at symmetric and ordered order statistics, and reports its coverage to six digits; falls back exactly when none reaches it; refuses below six values |
| MedianInterval.CoverageDecreases | benchmarks/fide_uncertainty.py:186-189 | coverage strictly decreases in the rank |
| MedianInterval.FallbackBound | benchmarks/fide_uncertainty.py:190-195 | the fallback is reached exactly when the target exceeds `1 - 2/2^n`, hence never at 0.95 |
| MedianInterval.IntervalHolds | benchmarks/fide_uncertainty.py:173-180 | the interval holds an untied point if and only if more than `k` values lie on each side of it |
| MedianInterval.HoldsIff | benchmarks/fide_uncertainty.py:184-199 | for every sample that falls around an untied point in a given way, the interval holds it if and only if more than `k` of the values fall on each side |
| MedianInterval.CoverageIsShareHolding | benchmarks/fide_uncertainty.py:187-187 | the coverage is exactly the share, among the `2^n` enumerated ways to fall below or above the median, of those in which the interval holds it for every sample |
| Sorting.SortedPermutes | benchmarks/fide_uncertainty.py:317-317 | sorting by key permutes |
| Sorting.SortedAscends | benchmarks/fide_uncertainty.py:184-184 | and the keys ascend |
| Sorting.SortedIsStable | benchmarks/fide_uncertainty.py:317-317 | and items that compare as equal keep their order |
| Holm.HolmIsClosedBonferroni | benchmarks/fide_uncertainty.py:315-325 | an adjusted value is at most `alpha` if and only if Bonferroni rejects every subset of the family containing that hypothesis |
| Holm.AdjustedAtLeastRaw | benchmarks/fide_uncertainty.py:322-324 | an adjusted value is at least the raw one, up to one |
| Holm.AdjustedFollowsRaw | benchmarks/fide_uncertainty.py:321-324 | adjusted values are monotone in the raw ones and equal on ties |
| Holm.InsertionOrderIrrelevant | benchmarks/fide_uncertainty.py:317-325 | the order in which the dict was filled does not change an adjusted value |
| Holm.StepDown | benchmarks/fide_uncertainty.py:319-325 | the loop stores the running maximum of the scaled values, one entry per key |
| Holm.Holm | benchmarks/fide_uncertainty.py:315-325 | the returned dict has the same keys, and its values decide the closed test at every level below one |
| KeyOrder.SortedKeysMembers | benchmarks/reproduce_fragmentation.py:116-116 | the keys of both sides, exactly |
| KeyOrder.SortedKeysAscend | benchmarks/reproduce_fragmentation.py:116-116 | in strictly ascending order, so each once |
| KeyOrder.StringLeIff | benchmarks/reproduce_fragmentation.py:116-116 | the order of keys: the first character in which two differ decides, and a prefix comes first |
| Json.PyEqIff | llm_shield_proxy/compliance/report.py:96-100 | two values are equal if and only if they are the same as numbers, texts, lists and unordered dicts |
| Json.KeysIff | llm_shield_proxy/compliance/report.py:192-193 | two values that can be dict keys are one key if and only if they are equal |
| JsonDiff.ReportsAreLocalDisagreements | benchmarks/reproduce_fragmentation.py:110-129 | something is reported if and only if it is a disagreement met at an address with no ignored path on the way |
| JsonDiff.EmptyIffAgree | benchmarks/reproduce_fragmentation.py:66-129 | nothing is reported if and only if types, keys, lengths and leaves are the same at every address outside the ignored paths, for any ignore list |
| JsonDiff.MissingKeyAlwaysReported | benchmarks/reproduce_fragmentation.py:116-119 | a key on one side only is reported, with `<missing>` for the other, even if its path is ignored |
| JsonDiff.SwapMirrors | benchmarks/reproduce_fragmentation.py:110-129 | swapping the arguments reports the same paths in the same order with the sides exchanged |
| JsonDiff.PathOfAddress | benchmarks/reproduce_fragmentation.py:117-126 | the path of an address: `.key` for each key and `[index]` for each index on the way |
| JsonDiff.VisibleIff | benchmarks/reproduce_fragmentation.py:111-112 | an address is looked at if and only if no path on the way to it is ignored |
| ReportOrder.DiffListed | benchmarks/reproduce_fragmentation.py:110-129 | the diff yields every disagreement exactly once, ordered by key and index where the places first differ |
| AuditLog.LogReader.NoteRecord | llm_shield_proxy/compliance/report.py:201-348 | the record's checks append their breaks in order, each with line and event, clear the flag exactly when there are any, and count unanchored starts |
| AuditLog.LogReader.CountEvent | llm_shield_proxy/compliance/report.py:189-199 | totals, counts by event and severity, first and last timestamps |
| AuditLog.LogReader.TrackChain | llm_shield_proxy/compliance/report.py:213-278 | chain ids seen, each chain's last hash, the terminal hash |
| AuditLog.LogReader.TrackSequence | llm_shield_proxy/compliance/report.py:249-275 | first and last sequence, and each chain's last one |
| AuditLog.LogReader.CountSignature | llm_shield_proxy/compliance/report.py:280-348 | signature counts by outcome, and the fingerprints seen |
| AuditLog.LogReader.ReadLine | llm_shield_proxy/compliance/report.py:167-348 | one line takes the whole state after `n` lines to that after `n + 1`, or raises exactly on an uncountable record |
| AuditLog.LogReader.Close | llm_shield_proxy/compliance/report.py:354-366 | an empty log and a log of several chains are broken, the latter with their number |
| AuditLog.VerifyLines | llm_shield_proxy/compliance/report.py:166-376 | the whole loop returns the summary that is stated over the file's lines, or raises |
| AuditLog.VerifyWormLog | llm_shield_proxy/compliance/report.py:103-376 | without a path or a file nothing is said; otherwise that outcome |
| AuditLog.ListEventRaises | llm_shield_proxy/compliance/report.py:190-192 | a one-record log the verifier raises on, whatever the key |
| AuditLog.CountsSumToRecords | llm_shield_proxy/compliance/report.py:189-193 | the counts by any field sum to the number of records |
| AuditLog.CountsAreOccurrences | llm_shield_proxy/compliance/report.py:190-193 | each count is the number of records that hold that value, numbers equal in Python counting as one |
| AuditLog.TimestampsAreEnds | llm_shield_proxy/compliance/report.py:195-199 | the two timestamps are those of the first and the last record with a non-empty one |
| AuditLog.NoTimestamps | llm_shield_proxy/compliance/report.py:119-120 | with no such record both are null |
| AuditLog.CountableMeansAll | llm_shield_proxy/compliance/report.py:190-193 | the verifier gets through if and only if every record's event and severity can be dict keys |
| AuditReport.ContentIs | llm_shield_proxy/compliance/report.py:58-67 | what is hashed is the record without its hash, signature and fingerprint; what is signed, without the last two |
| AuditReport.AnchorIff | llm_shield_proxy/compliance/report.py:86-100 | a chain may begin on sixty-four zeros or on the non-empty initial hash the record declares |
| AuditReport.PriorHashIs | llm_shield_proxy/compliance/report.py:225-229 | the hash a record must point to is the last one recorded before it in its own chain |
| AuditReport.PriorSequenceIs | llm_shield_proxy/compliance/report.py:226-275 | the number it must follow is the last well-formed one recorded before it in its own chain |
| AuditReport.LineReasonsAre | llm_shield_proxy/compliance/report.py:167-348 | against each line exactly the reasons that apply to it are noted, each once, in the order of the checks; the condition of each is written out |
| AuditReport.BreaksOfReport | llm_shield_proxy/compliance/report.py:166-366 | the report's breaks are exactly those of its lines, with line and event, in order, then an empty log or several chains with their number |
| AuditReport.SealCounts | llm_shield_proxy/compliance/report.py:311-343 | `unsigned_events` counts the records whose signature is absent, null or empty; `signatures_invalid` those whose signature is no well-encoded string or is refuted by the key; `signatures_valid` those that verify |
| AuditReport.SealBreaksOfReport | llm_shield_proxy/compliance/report.py:321-348 | under a key the first two are also the numbers of unsigned-record breaks and of invalid-signature or invalid-encoding breaks |
| AuditReport.TallyOfReport | llm_shield_proxy/compliance/report.py:189-193 | the total counts the records; each event count those of that name or, as `UNKNOWN`, of none; each severity count those of that severity or, as `INFO`, of none |
| AuditReport.EndsOfReport | llm_shield_proxy/compliance/report.py:259-278 | first and last sequence number and terminal hash are those of the first and last record that has one |
| AuditReport.TimesOfReport | llm_shield_proxy/compliance/report.py:195-199 | first and last timestamp likewise, in the summary itself |
| AuditReport.NamesOfReport | llm_shield_proxy/compliance/report.py:350-351 | the chain ids and fingerprints listed are exactly those that occur well formed in a record |
| AuditReport.VerdictsOfReport | llm_shield_proxy/compliance/report.py:354-376 | valid if and only if there is no break; authentic if and only if besides there is a key, a record that verifies, and none unsigned or invalid; the verifier raises only on a record whose event or severity is a list or an object, and then always |
| AuditHistory.HashReasonsIff | llm_shield_proxy/compliance/report.py:201-211 | a record's hash passes if and only if it is the non-empty digest of the record without its seals |
| AuditHistory.SealReasonsIff | llm_shield_proxy/compliance/report.py:280-348 | a record's seals pass if and only if signature and fingerprint come together, are well formed and, with a key, are that key's |
| AuditHistory.NoBreaksIffChain | llm_shield_proxy/compliance/report.py:166-348 | on lines of one chain, nothing is noted if and only if the records form an intact chain |
| AuditHistory.AcceptedMeans | llm_shield_proxy/compliance/report.py:103-376 | the verifier returns with a valid verdict if and only if every record can be counted and nothing is noted |
| AuditHistory.CleanIffIntactChain | llm_shield_proxy/compliance/report.py:86-366 | nothing is noted against a log if and only if it is one intact chain |
| AuditHistory.AcceptedIffIntactChain | llm_shield_proxy/compliance/report.py:86-376 | a log is accepted if and only if it is one non-empty chain: anchored, numbered from one, hashed, linked and sealed, with only blank lines beside it, and every event and severity can be counted |
| AuditHistory.RearrangedIsPrefix | llm_shield_proxy/compliance/report.py:229-278 | whatever is dropped, repeated or reordered, what is still accepted is a prefix |
| AuditHistory.PrefixIsAccepted | llm_shield_proxy/compliance/report.py:166-376 | every non-empty prefix of an accepted log's records is accepted: the verifier returns on it, and finds it valid |
| AuditHistory.HistoriesAgree | llm_shield_proxy/compliance/report.py:58-67 | equal hashes in two chains stand at equal positions and have equal histories |
| AuditHistory.TerminalHashFixesHistory | llm_shield_proxy/compliance/report.py:201-278 | without a collision, accepted logs with one terminal hash have the same length and agree on all hashed content |
| AuditHistory.CleanMeansSigned | llm_shield_proxy/compliance/report.py:329-348 | with a key, a log without breaks has every record's signature verified |
| AuditHistory.SummaryBalances | llm_shield_proxy/compliance/report.py:350-376 | valid exactly when no break is listed; counts by event, by severity and by signature outcome each add up to the total; authenticity is validity under a key |
| AuditWriter.AuditLogger.Write | llm_shield_proxy/observability/audit.py:224-275 | the body of the worker's loop stamps, hashes, signs and appends one event; it moves the chain state, and does not raise, only once the append has returned; the line after a cut-off one is lost in it |
| AuditWriter.AuditLogger.Recovery | llm_shield_proxy/observability/audit.py:184-196 | a new process takes its chain state from the file's last line, or refuses to start |
| AuditWriter.RecoverIff | llm_shield_proxy/observability/audit.py:184-196 | a new process goes on from a last record with a hash, begins a chain of its own on an empty file, and refuses anything else |
| AuditWriter.NoRestartAfterCut | llm_shield_proxy/observability/audit_sink.py:48-63 | over every run after a line was cut off, the first new process refuses to start and nothing is written any more |
| AuditWriter.CutSwallowsNext | llm_shield_proxy/observability/audit_sink.py:39-44 | in the same process the next line is lost in the cut-off one, and the file goes on after it |
| AuditWriter.AuditLogger.Drive | llm_shield_proxy/observability/audit.py:207-293 | any sequence of events and restarts, one after the other |
| AuditWriter.ReadsBack | llm_shield_proxy/compliance/report.py:58-67 | stripped of its seals, a written record is exactly what the writer hashed; without the last two fields, what it signed |
| AuditWriter.WrittenFields | llm_shield_proxy/observability/audit.py:226-232 | a record holds the event's own fields, the chain id, the next sequence number and the last hash |
| AuditWriter.SubstituteFieldsAre | llm_shield_proxy/observability/audit.py:233-239 | the record of an event that cannot be serialized holds its name, the last hash and the severity, and nothing else |
| AuditWriter.WrittenSeals | llm_shield_proxy/observability/audit.py:241-258 | its hash, signature and fingerprint are over what the verifier takes them to be over |
| AuditWriter.RepeatsKeyIff | llm_shield_proxy/observability/audit.py:241-258 | a line is read back with a repeated key if and only if the text written has a key twice |
| AuditWriter.InPlaceIff | llm_shield_proxy/observability/audit.py:224-258 | a whole line is in its place in the chain if and only if its event was serialized, brought no seal of its own, was signed when the verifier has the key, and anchors the chain when it is the first |
| AuditWriter.IntactInStep | llm_shield_proxy/observability/audit.py:224-275 | appended by a writer in step with its file, a line keeps the log intact if and only if its event is sound and, as the first, anchors it |
| AuditWriter.BehindBreaks | llm_shield_proxy/observability/audit_sink.py:38-46 | appended by a writer one line behind its file, it breaks the log whatever it is |
| AuditWriter.RestartGoesOn | llm_shield_proxy/observability/audit.py:184-196 | a restart leaves the lines alone and puts the state in step with them |
| AuditWriter.RunGoesOn | llm_shield_proxy/observability/audit.py:207-293 | over every run: either some event broke the log for good, or the lines are an intact chain and the state is in step with them, or one behind exactly while an unconfirmed line is last |
| AuditWriter.WrittenAcceptedIff | llm_shield_proxy/observability/audit.py:184-293 | the verifier accepts what a run wrote if and only if something was written, every appended event is sound, none follows an unconfirmed one without a restart between them, and the first anchors the chain |
| AuditWriter.LostEventsLeaveNoTrace | llm_shield_proxy/observability/audit.py:281-293 | an event that never reached the file changes nothing that is written later |
| AuditWriter.RestartIff | llm_shield_proxy/observability/audit.py:184-196 | recovery right after an event gives back the writer's own state if and only if it was serialized and confirmed, and after any serialized one the state it should have had |
| AuditWriter.RestartRepairs | llm_shield_proxy/observability/audit.py:184-196 | while the log is accepted, a restart puts the state in step with the last line and changes nothing else; nothing at all if and only if no unconfirmed line is last |
| AuditWriter.AcceptedAcrossRestart | llm_shield_proxy/observability/audit.py:184-196 | then, with no unconfirmed line last, everything written later is the same with the restart as without |
| AuditWriter.StartupIsAccepted | llm_shield_proxy/observability/audit.py:337-353 | a fresh chain's startup event alone is an accepted log |
| AuditWriter.SubstituteIsRejected | llm_shield_proxy/observability/audit.py:233-239 | followed by one event that cannot be serialized, it is not |
| AuditWriter.UnconfirmedIsRejected | llm_shield_proxy/observability/audit_sink.py:38-46 | two sound events of which the first is in the file unconfirmed are rejected |
| AuditWriter.RestartSavesUnconfirmed | llm_shield_proxy/observability/audit.py:184-196 | with a restart between them they are accepted |
| AuditCheckpoint.AcceptedFields | llm_shield_proxy/compliance/report.py:261-352 | an accepted log runs from sequence one to its length, in one chain, fully signed under a key |
| AuditCheckpoint.Examine | llm_shield_proxy/compliance/evidence.py:84-106 | a log may be sealed if and only if it is accepted under the key; the entry then describes it, and otherwise the fault says why |
| AuditCheckpoint.ByNameAscends | llm_shield_proxy/compliance/evidence.py:84-84 | the logs are taken in the order of their names, none lost or doubled |
| AuditCheckpoint.Build | llm_shield_proxy/compliance/evidence.py:68-126 | a checkpoint is built if and only if there are logs and all may be sealed; it attests each of them in that order and passes `verify_audit_checkpoint`; otherwise the fault is that of the first log in order that may not |
| AuditCheckpoint.TotalIsRecords | llm_shield_proxy/compliance/evidence.py:115-115 | the signed total is the number of records in all the logs together |
| AuditCheckpoint.CheckpointFixesHistories | llm_shield_proxy/compliance/evidence.py:93-162 | verified checkpoints with one manifest hash cover the same histories, record for record |
| ResourceUri.UnquoteFixpointIff | llm_shield_proxy/api/mcp_router.py:293-295 | decoding leaves a URI as it is if and only if it holds no escape, and otherwise shortens it by at least two |
| UriText.UnquoteEscape | llm_shield_proxy/api/mcp_router.py:293-293 | `%` and the two hexadecimal digits of a byte, each in either case, decode to that byte, whatever follows |
| UriText.UnquotePlain | llm_shield_proxy/api/mcp_router.py:293-293 | any other byte stands for itself |
| UriText.QuoteThenUnquote | llm_shield_proxy/api/mcp_router.py:293-293 | decoding gives back every text, whichever of its bytes were escaped and in whatever case |
| UriText.SeparatorIff | llm_shield_proxy/api/mcp_router.py:113-113 | an encoded separator is one of `%2f`, `%2F`, `%5c` and `%5C` |
| UriText.DotIff | llm_shield_proxy/api/mcp_router.py:111-111 | a dot is `.`, `%2e` or `%2E` |
| UriText.DotDotIff | llm_shield_proxy/api/mcp_router.py:111-111 | the first check finds exactly two dots, each in any of these forms, after the start, a slash or a backslash and before the end, a last newline, a slash, a backslash, `?` or `#` |
| UriText.SegmentsCut | llm_shield_proxy/api/mcp_router.py:301-301 | the segments hold no slash, and with slashes between them are the text |
| UriText.DotSegmentIff | llm_shield_proxy/api/mcp_router.py:301-302 | a dot segment is a `.` or `..` that stands between slashes or ends |
| UriText.SafeIff | llm_shield_proxy/api/mcp_router.py:291-302 | safe is: no control character, delete or backslash, no such segment, none of the four separator texts |
| ResourceUri.SegmentsCommute | llm_shield_proxy/api/mcp_router.py:291-301 | without an encoded separator, decoding decodes each path segment in place |
| ResourceUri.SafeBefore | llm_shield_proxy/api/mcp_router.py:299-302 | a URI whose decoding is safe was safe before it |
| ResourceUri.NormalizedResourceUri | llm_shield_proxy/api/mcp_router.py:281-303 | the bounded loop decides as the specification does: at most four changing rounds, each checked |
| ResourceUri.AcceptedIsSafeForever | llm_shield_proxy/api/mcp_router.py:281-303 | an accepted URI has no traversal, backslash, control character or encoded separator after any number of decodings, and what is returned is escape-free |
| ResourceUri.AcceptedIff | llm_shield_proxy/api/mcp_router.py:281-303 | a URI is accepted as `v` if and only if it settles, safely, on `v` within the rounds allowed |
| UriText.UndecodableIff | llm_shield_proxy/api/mcp_router.py:290-296 | decoding raises if and only if some round, with none refused before it, decodes to bytes that are not UTF-8 |
| ResourceUri.IsResourceForbidden | llm_shield_proxy/api/mcp_router.py:306-321 | allowed if and only if it is a non-empty string without a `..` segment whose normal form matches a listed pattern; what is allowed is safe under any decoding |
| Failover.HeaderDict.PopCredentials | llm_shield_proxy/api/main.py:866-867 | every credential header goes, nothing else does |
| Failover.HeaderDict.ReplaceUpstreamCredential | llm_shield_proxy/api/main.py:859-871 | the key becomes the only credential, in the header the host reads; nothing else changes |
| Failover.SwitchCredential | llm_shield_proxy/api/main.py:1810-1818 | what a switch to the fallback does to the headers |
| Failover.ProxyRequest | llm_shield_proxy/api/main.py:1901-1962 | the plain loop sends what the state machine sends, for every sequence of replies |
| Failover.StreamRequest | llm_shield_proxy/api/main.py:1751-1822 | the streaming loop sends exactly alike, and the headers kept with the kept error body are those of the send that got it |
| Failover.StepInPlace | llm_shield_proxy/api/main.py:1764-1822 | each step sends what was next and uses up one of the sends allowed, or the loop stops on a final reply or with none left |
| Failover.RunWithinBudget | llm_shield_proxy/api/main.py:1764-1822 | from any state, the remaining sends fit the budget, and the loop ends early only on a final reply |
| Failover.RunSwitchesOnce | llm_shield_proxy/api/main.py:1799-1820 | all sends before some point go to the primary and all from it on to the fallback |
| Failover.SendsBounded | llm_shield_proxy/api/main.py:1749-1822 | for every sequence of replies: the loop sends again after anything but a success, a 400, a 401 or a 403, until it has sent `retries + 1` times to the primary (once with failover off) and then, if there is a fallback, as often to it |
| Failover.OutcomeKeeps | llm_shield_proxy/api/main.py:1780-1826 | the status handed on is that of the last reply that had one, none if no reply did; the headers kept for scrubbing are those of the last error's own send |
| Failover.FallbackCredential | llm_shield_proxy/api/main.py:1810-1818 | a fallback send carries only the fallback key when there is one, and nothing when the proxy's key was in use and there is none; other headers but the host stay |
| Failover.FallbackHost | llm_shield_proxy/api/main.py:1804-1818 | a fallback send goes to the fallback's address and TLS name, and names its host when there is one |
| Failover.KeyChosen | llm_shield_proxy/api/main.py:1697-1747 | over every choice: exactly when it is forbidden, and which key is carried otherwise; the operator's fallback key is carried to the operator's fallback and to no other host |
| Failover.FallbackCarries | llm_shield_proxy/api/main.py:1697-1822 | over every choice and run, what each fallback send carries: on the operator's fallback its key alone; elsewhere, or with no such key set, the caller's own credentials unchanged, or with the proxy's key in use that proxy key which is for this very host, or nothing |
| RunLinks.MatchIff | scripts/process_conformance_submission.py:51-53 | a text matches with given groups if and only if it is the link with them, then anything that does not lengthen the id |
| RunLinks.ZerosIgnored | scripts/process_conformance_submission.py:778-778 | leading zeros of a run id do not count |
| RunLinks.KeyNamesTheRun | scripts/process_conformance_submission.py:767-778 | two links have one key if and only if they name the same owner and repository, up to letter case, and run number |
| RunLinks.SurroundingsIgnored | scripts/process_conformance_submission.py:770-774 | blanks around a link and what follows its run id do not change the run it names |
| ResultsWall.RowsFile.RunClaimedByOther | scripts/process_conformance_submission.py:818-831 | the search loop returns the first other account's row on another issue for this run, if there is one |
| ResultsWall.RowsFile.AppendRow | scripts/process_conformance_submission.py:842-857 | what the row replaces goes, the rest stays in order, the row comes last |
| ResultsWall.RowsFile.Submit | scripts/process_conformance_submission.py:1186-1225 | the gate's outcomes, in their order, and after each the rows file and the table on the main branch |
| ResultsWall.RowsAfter | scripts/process_conformance_submission.py:795-815 | a published row takes out exactly the rows of its issue or of its account's same run; a refused one changes nothing |
| ResultsWall.SameIdentityIff | scripts/process_conformance_submission.py:781-786 | two rows have one identity if and only if they link the same run or the same text, or link none and name the same project and version up to case |
| ResultsWall.JudgeIff | scripts/process_conformance_submission.py:1186-1200 | a run another account holds on another issue is refused first; then a row that replaces none from an account with twelve rows or more; nothing else is |
| ResultsWall.AfterKeepsUnique | scripts/process_conformance_submission.py:795-857 | one submission keeps issue numbers and run keys unique |
| ResultsWall.WallIsUnique | scripts/process_conformance_submission.py:795-857 | they are unique in every reachable table |
| ResultsWall.CountAfter | scripts/process_conformance_submission.py:834-851 | how a published row changes every account's count |
| ResultsWall.CapKeptIff | scripts/process_conformance_submission.py:1199-1200 | a submission breaks the cap if and only if a full account's row, whose run no other account claims, replaces some rows but none of that account's |
| ResultsWall.CapHolds | scripts/process_conformance_submission.py:834-839 | if issues keep their submitters and logins their spelling, no account ever holds more than twelve rows |
| ResultsWall.IssuesMustFixSubmitters | scripts/process_conformance_submission.py:811-813 | a reachable table with thirteen rows of one account, after an issue changed hands |
| ResultsWall.LoginsMustHaveOneSpelling | scripts/process_conformance_submission.py:814-815 | a reachable table with thirteen rows of one account, after a login was written in two ways |
| ResultsWall.DistinctStay | scripts/process_conformance_submission.py:1197-1225 | submissions on different issues for different runs, within the cap, are all published and stay |

## Left out

- Input and output: HTTP, DNS, files, git, subprocesses, clocks, logging, back-off sleeps and the audit events of a retry.
- Regular expressions are direct specifications; `ScanIsLeftmost`, `RedactIsSplice` and `MatchIff` tie them to what the patterns mean.
- SHA-256, Ed25519, Base64 and `json.dumps` are functions given to the model; freedom from collisions is a hypothesis of the two lemmas that need it.
- Floats are exact reals: their rounding errors, NaN and infinities are not modelled. The sign-flip tolerance and the rounding of reported numbers to six digits are.
- Generators are lists; laziness and the asynchronous variants (`assert_chunk_invariant_async`, `from_async`) are not modelled.
- ChunkInvariance.AssertChunkInvariant: filters are functions of the chunk list, as `core.py:105-106` asks of callers; a filter that keeps state between calls or never ends is not covered.
- Adapters.StreamFilter: the step returns its new state instead of changing a shared object.
- The TypeScript enumeration splits between code points; the model's characters are code points, so grouping UTF-16 units is not modelled.
- `design_b`: known wrong, a single counterexample would add nothing general.
- AuditLog.VerifyWormLog: loading the key (a key of another kind raises) and the message for a missing file; the two sorted lists of the summary are sets.
- AuditLog.Line: `strip()`, UTF-8 errors and the JSON parser itself, with its limits on nesting and on the digits of a number; a line comes parsed, or with the parser's refusal.
- AuditCheckpoint.Build: the random id and the clock are inputs; that a signature made with the key verifies is the premise of its last clause.
- AuditWriter.AuditLogger.Write: events come with the values their JSON reads back to, nested keys sorted, and with whether they serialize, are signed, and what becomes of their record; a line cut off is one the parser refuses, also joined with the next one; an empty record, which the writer never writes, is the only falsy value a file's last line is modelled to hold; threads, the bounded queue's drops and acknowledgements are not modelled.
- AuditWriter.WrittenAcceptedIff: an unsigned event with a `signature` or `public_key_fingerprint` field of its own is hashed with it and verified without it; that the two do not hash alike is a premise, about such events only.
- AuditWriter.RestartIff: a tail whose hash or chain id is not a string, or whose sequence is not an integer, is not converted.
- AuditWriter.StartupIsAccepted: a startup event logged after other events, which moves the last hash behind the worker's back.
- AuditCheckpoint.Verify: the separate flags `verify_audit_checkpoint` also returns, and its count of chains; only their conjunction is modelled.
- ResourceUri.NormalizedResourceUri: URIs are the bytes of their UTF-8 encoding and "is UTF-8" is a parameter; `fnmatch` is a parameter of the allow-list check.
- Failover.ChooseKey: URL parsing, host normalisation, the provider-key table and the TLS binding of keys arrive as parsed inputs.
- Failover.ProxyRequest: an exception other than the client library's two leaves the loop and is not modelled; building the fallback's target URL is an input.
- ResultsWall.RowsFile.Submit: reading and verifying a submission, the content scan, the site build and the pull request; whether the report's copy could be kept and the row landed are inputs.
- RunLinks.MatchIff: digits outside ASCII, which the pattern's `\d` also takes.
- RunLinks.KeyNamesTheRun: the same digits in a run id.
- ResultsWall.RowIdentity: case folding of project names and versions beyond ASCII.
- ResultsWall.Entry: a row without a submitter or issue has the empty login and issue zero; the intake itself never writes an empty login.
- `MerkleTreeWORM`, rehydration budgets, message collapsing, masking modes, tool pruning and `_is_tool_forbidden`: easier members than those modelled.
- `bca_bootstrap_mean` and the normal-quantile approximation: random resampling and floating point, no exact claim.
- `SSERehydrationBuffer` and `Vault` are not part of this model.
