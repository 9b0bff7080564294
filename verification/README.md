# ReconHawx: the hard parts, modelled and proved

A Dafny model of six connected parts of ReconHawx and proofs of the properties they are built on. Run
`dafny verify dfyconfig.toml` to check all of it.

* **Certificate matching** (`EditDistance`, `DomainLabels`, `Similarity`, `PreparedNames`, `ScopeRegex`,
  `ScopeMatcher`, `AssetMatching`, `VariationGenerator`, `CertificateMatcher`). Every name of a certificate goes
  through fast forms: a rolling-row edit distance, a score cutoff, a length gate, a label-suffix lookup, scope
  patterns compiled to regular expressions, an apex prefilter. Each is proved equal to the simple form it replaces,
  or the exact condition under which it differs is.
* **Chunked task output** (`TaskQueueClient`, `ChunkStreams`). What the client may hand over after any sequence of
  arrivals, stall checks and collections.
* **Asset merging** (`AssetMerging`, `AssetStreams`, `AssetProcessing`). A standard and a streaming path with three
  merges between them: what each kind of type key gets on each, when they agree, and when streaming raises.
* **Event batching over Redis** (`BatchManager`). Conservation over every interleaving, the key printer and parser,
  and the scans, flushes and clears built on them.
* **Workers, submission and ingestion** (`WorkerJobs`, `AssetSubmitter`, `CertStream`, `RefreshWorker`). Coroutines
  as steps between awaits; the properties hold for every order of the steps.
* **Thresholds** (`Threshold`). A parser, a stored form and two further parsers that must agree.

`Text` holds splitting, joining, trimming and lower-casing. Code that updates objects, dictionaries or buffers in
place is a class or a loop here too, proved against a function of the old state; the functions carry the theorems.

## What the proofs found

* The length gate is not safe for the score it guards: it compares collapsed lengths only, while the pair score also
  takes the apex similarity. It loses a match exactly when a pair's apexes reach the threshold, or both collapsed
  forms are empty (`GateLosesExactlyBlindSpots`, `GateDropsTypo`).
* The pattern `*` passes validation and makes the whole matcher raise (`LoneStarIsValid`, `BuildFailsOnlyOnLoneStar`).
* The apex prefilter always finds the host of a plain rule. For the other three forms of a rule it finds every host
  exactly when the rule's root properly extends a public suffix and no suffix starts above the root
  (`IndexableExactly`).
* A stream of up to ten chunks whose last one is lost is never released: its stall check asks for more than nine
  tenths of the chunks (`ShortStreamsAreNotReleased`).
* A chunk marked final completes its task whatever is missing; redelivered, it replaces a stored whole output by
  its own chunk (`LoneFinalIsPartial`).
* The two merge paths agree on all inputs for no kind of type key. Parsers key assets by members of a plain
  enumeration, which equal none of the names the merge compares with: nothing is merged (`RepeatStays`,
  `UnmergedKeysExactly`), and streaming drops assets of equal text once a list is long (`PathsAgreeExactly`,
  `LongRepeatIsDropped`). A plain string is merged as promised, but has no `value` for the log line of the large-list
  merge: streaming raises exactly when a flush is over the threshold (`ProcessStreaming`, `LongListIsLong`,
  `DefaultsRaise`).
* A flushed batch whose delivery raises has left its queue and is counted as an error only (`FlushPending`,
  `EndsAddUp`).
* A late Running reply reopens a job whose output has arrived; the job can then end as timed out
  (`OnlyRunningReopens`, `OutputThenTimeout`).
* A batching delay that is not positive makes Redis delete the event before the flush (`HandleEvent`).
* A queue whose size times watermark is below one drops every message (`DropsEverythingWhen`).
* Stopping the asset submitter while its flush task awaits a post loses the posted batch: the cancellation is not
  caught, so nothing is counted, marked or put back (`LostIsCancelled`, `Stop`).
* The admin clear reports a length it read before the delete; with another flush in between it reports events that
  were not discarded (`AdminClearCount`).

## Model

| member | source | states |
|---|---|---|
| EditDistance.LevenshteinDistance | src/ct-monitor/app/protected_domain_similarity.py:27-42 | the two-row loop, argument swap included, returns the least number of single-character inserts, deletes and replaces of any script that turns one text into the other |
| EditDistance.DistIsEditDistance | src/ct-monitor/app/protected_domain_similarity.py:27-42 | the table value is attained by some edit script and no script is shorter, for all pairs of texts |
| EditDistance.NoScriptIsShorter | src/ct-monitor/app/protected_domain_similarity.py:27-42 | any script that runs on `s` has at least as many edits as the distance to what it produces |
| EditDistance.ShortestScript | src/ct-monitor/app/protected_domain_similarity.py:27-42 | a script of exactly that length exists and reaches the target |
| EditDistance.Symmetric | src/ct-monitor/app/protected_domain_similarity.py:27-29 | the distance is symmetric, which is what lets the loop swap its arguments |
| EditDistance.Bounds | src/ct-monitor/app/protected_domain_similarity.py:27-42 | the distance lies between the difference of the lengths and the longer length |
| EditDistance.ZeroIffEqual | src/ct-monitor/app/protected_domain_similarity.py:27-42 | the distance is zero exactly for equal texts |
| EditDistance.Triangle | src/ct-monitor/app/protected_domain_similarity.py:27-42 | the triangle inequality |
| DomainLabels.SuffixStart | src/ct-monitor/app/domain_labels.py:28-40 | the longest public suffix: what starts there is a suffix and nothing longer is |
| DomainLabels.KeyMeaning | src/ct-monitor/app/domain_labels.py:28-58 | a normalised name without empty labels has a key if and only if the key, a dot and its longest public suffix are the name |
| DomainLabels.ApexMeaning | src/ct-monitor/app/domain_labels.py:65-94 | the apex is one label in front of the longest public suffix, at the end of the name, or the whole name when that leaves no such label |
| DomainLabels.ApexIsUnique | src/ct-monitor/app/domain_labels.py:65-94 | and there is only one such text |
| DomainLabels.NamesAreNormalised | src/ct-monitor/app/domain_labels.py:47-94 | blanks around a name and upper case in it change neither key nor apex |
| DomainLabels.ApexBelowRoot | src/ct-monitor/app/domain_labels.py:65-94 | a host below a root has the apex of the root if and only if the root properly extends a public suffix and no suffix starts among the labels above it |
| Similarity.ExactSimilarityRange | src/ct-monitor/app/protected_domain_similarity.py:45-47 | similarity lies in [0, 1] and is 1 exactly for equal texts |
| Similarity.SimilarityIsScripts | src/ct-monitor/app/protected_domain_similarity.py:45-47 | what the similarity lacks to one, times the longer length, is the length of a shortest edit script |
| Similarity.PairReachesExactly | src/ct-monitor/app/protected_domain_similarity.py:121-134 | a pair reaches a positive score if and only if the apexes do, or the collapsed forms do, where equal ones of different names count for 0.99 at most |
| Similarity.PairCutoff | src/ct-monitor/app/protected_domain_similarity.py:121-134 | a positive cutoff leaves the score of a pair that reaches it unchanged and keeps every other pair below it, the cap for equal collapsed forms included |
| Similarity.BestMatch | src/ct-monitor/app/protected_domain_similarity.py:137-156 | the nested loops return the maximum pair score together with the first protected domain that attains it, or nobody when no score is positive |
| Similarity.BestIsUnique | src/ct-monitor/app/protected_domain_similarity.py:137-156 | there is only one such answer |
| Similarity.CutoffRefinesBest | src/ct-monitor/app/protected_domain_similarity.py:137-156 | if the exact best reaches the cutoff, score and chosen domain with and without it are identical; otherwise the answer stays below it |
| Similarity.BestReaches | src/ct-monitor/app/protected_domain_similarity.py:137-156 | the best leads to an alert at a threshold, zero included, exactly when some fragment and protected domain do |
| Similarity.BestReachesExactly | src/ct-monitor/app/protected_domain_similarity.py:137-156 | so the best reaches a positive threshold exactly when the apexes or the collapsed forms of some pair do |
| Similarity.CollapsedLengths | src/ct-monitor/app/domain_config_builder.py:26-36 | exactly the lengths of the non-empty collapsed forms, each once |
| Similarity.ImpossibleByLength | src/ct-monitor/app/protected_domain_similarity.py:185-211 | the early-exit loops close the gate exactly when there are lengths, the threshold is below one, and every pair of collapsed lengths differs by more than the threshold allows |
| Similarity.GateClosesExactly | src/ct-monitor/app/protected_domain_similarity.py:185-211 | the gate closes exactly when there are lengths, the threshold is below one, and no text of any of these lengths is similar enough to any fragment |
| Similarity.GateSafeForCollapsed | src/ct-monitor/app/protected_domain_similarity.py:185-211 | when the gate closes, no fragment and protected domain with non-empty collapsed forms have a collapsed similarity at the threshold |
| Similarity.PairBlindSpot | src/ct-monitor/app/protected_domain_similarity.py:185-211 | behind a closed gate a pair reaches the threshold if and only if its apexes do, or both collapsed forms are empty and the literal rule does |
| Similarity.GateLosesExactlyBlindSpots | src/ct-monitor/app/protected_domain_similarity.py:185-211 | so skipping loses a match if and only if some pair lies in that blind spot; the comment at line 193 that calls skipping safe holds only without one |
| Similarity.GateLosesNearApex | src/ct-monitor/app/protected_domain_similarity.py:185-211 | a concrete pair the gate drops at the default threshold with an apex similarity of at least 9/11 |
| Similarity.LiteralIs | src/ct-monitor/app/protected_domain_similarity.py:57-58 | the literal form drops blanks and final dots and is lower case |
| Similarity.KeptCharacter | src/ct-monitor/app/protected_domain_similarity.py:50-54 | the collapsed form keeps every letter and digit in its place and nothing else |
| Similarity.FragmentsExactly | src/ct-monitor/app/protected_domain_similarity.py:61-71 | the fragments of a name without empty labels are exactly the name and the names above it that have 2 to 32 labels, longest first |
| PreparedNames.PlainNameIsPrepared | src/ct-monitor/app/protected_domain_similarity.py:50-118 | preparing a plain name: it is its own literal, its collapsed form drops the dots, its apex is taken label by label |
| PreparedNames.ProtectedIsPrepared | src/ct-monitor/app/protected_domain_similarity.py:84-90 | a plain name however it is written, with blanks or in upper case: as given, literal, apex, collapsed |
| PreparedNames.TypoIsPrepared | src/ct-monitor/app/protected_domain_similarity.py:109-118 | a plain name of 2 to 32 labels: one prepared fragment for each label but the last, from there on |
| PreparedNames.GateDropsTypo | src/ct-monitor/app/protected_domain_similarity.py:185-211 | the same loss from the raw names, for any suffix list in which `com` is a suffix and nothing longer at the end of the two names is: `exampel.com` against the protected `mail.example.com`, best match at least 9/11 |
| ScopeRegex.EscapedParses | src/ct-monitor/app/scope_matcher.py:63-79 | the escaped text of a literal parses to exactly that literal, whatever characters it holds |
| ScopeRegex.LabelDotsThen | src/ct-monitor/app/scope_matcher.py:82-85 | the repeated label group in front of an expression matches by taking any number of whole labels off the front |
| ScopeMatcher.CompiledTextParses | src/ct-monitor/app/scope_matcher.py:63-99 | the text emitted for a rule parses, as a regular expression, to the intended one |
| ScopeMatcher.RuleRegexMeaning | src/ct-monitor/app/scope_matcher.py:63-99 | that expression matches exactly the hosts that are in the rule label by label |
| ScopeMatcher.CompilePreservesMeaning | src/ct-monitor/app/scope_matcher.py:63-99 | compilation preserves meaning in all four forms: the emitted text, parsed and matched, accepts exactly the newline-free hosts in the rule label by label; with a leading star the later stars stand for themselves |
| ScopeMatcher.FinalNewlineIsIgnored | src/ct-monitor/app/scope_matcher.py:63-99 | one newline at the end of a host makes no difference to a pattern without one |
| ScopeMatcher.CompileFailsOnlyOnLoneStar | src/ct-monitor/app/scope_matcher.py:63-99 | compilation raises exactly on the pattern `*` |
| ScopeMatcher.LoneStarIsValid | src/ct-monitor/app/scope_matcher.py:41-60 | and validation lets that pattern through |
| ScopeMatcher.EntryIsValidExactly | src/ct-monitor/app/scope_matcher.py:41-60 | an entry is valid if and only if its normalised text is not empty and every label is a star or a plain label of at most 63 characters, a final newline among them; its rule carries that text |
| ScopeMatcher.EntryMeaning | src/ct-monitor/app/scope_matcher.py:41-99 | the rule of an entry holds exactly the hosts the entry admits, said of the entry alone |
| ScopeMatcher.WildcardFlag | src/ct-monitor/app/scope_matcher.py:57-95 | without a star the name itself is always admitted, and any labels in front exactly with the flag; with a star the flag makes no difference |
| ScopeMatcher.NormHostIs | src/ct-monitor/app/scope_matcher.py:28-29 | blanks and dots around a host and upper case in it do not matter |
| ScopeMatcher.RootTextIsRootLabels | src/ct-monitor/app/scope_matcher.py:102-113 | the root text of a pattern names exactly the labels after its last star |
| ScopeMatcher.HostEndsWithRoot | src/ct-monitor/app/scope_matcher.py:102-113 | every host in a rule ends with the root labels |
| ScopeMatcher.CompileEntries | src/ct-monitor/app/scope_matcher.py:156-192 | valid entries compile in order, invalid ones are skipped, the apex roots are exactly those of the rules; it fails exactly when a valid rule does not compile |
| ScopeMatcher.BuildMatcher | src/ct-monitor/app/scope_matcher.py:145-200 | the matcher object holds the compiled rules of both lists and the apex roots of the in-scope rules |
| ScopeMatcher.BuildFailsOnlyOnLoneStar | src/ct-monitor/app/scope_matcher.py:156-163 | the whole build raises exactly when a valid entry is the lone star |
| ScopeMatcher.MatcherMeaning | src/ct-monitor/app/scope_matcher.py:211-218 | a host matches exactly when it is in some in-scope rule and in no out-of-scope rule, label by label |
| ScopeMatcher.MatcherAdmits | src/ct-monitor/app/scope_matcher.py:145-218 | from the configured entries to the answer: a host is in scope exactly when some in-scope entry admits it and no out-of-scope entry does |
| ScopeMatcher.SubdomainNeedsFlag | src/ct-monitor/app/scope_matcher.py:57-218 | through a whole build: with one star-free entry, its own name is in scope, and a name above it exactly with the flag |
| AssetMatching.BuildApexIndex | src/ct-monitor/app/domain_config_builder.py:67-79 | under every apex the index lists exactly the programs with that apex root, in program order |
| AssetMatching.EntryRulesAreValid | src/ct-monitor/app/scope_matcher.py:41-60 | every rule that validation lets through has the labels the theorems below assume |
| AssetMatching.IndexedWhen | src/ct-monitor/app/scope_matcher.py:102-113 | one host of a rule is indexed under it if and only if nothing stands above the root, or the root properly extends a suffix and none starts above it |
| AssetMatching.IndexableIsIndexed | src/ct-monitor/app/scope_matcher.py:165-169 | all hosts of an indexable rule are indexed |
| AssetMatching.IndexableExactly | src/ct-monitor/app/scope_matcher.py:165-169 | the exact condition, for every valid rule of every form: all its dotted hosts are indexed if and only if it is plain, or its root properly extends a suffix and no suffix starts above it, in any filling of inner stars or with any labels in front |
| AssetMatching.PrefilterLosesNothing | src/ct-monitor/app/certificate_matcher.py:40-57 | with indexable rules, testing only the programs under the apex of a dotted host finds the same programs, in the same order, as testing all of them; a host without a dot is under no apex |
| AssetMatching.MatchCandidates | src/ct-monitor/app/certificate_matcher.py:48-57 | the candidate loop appends exactly the in-scope programs not yet paired with the host, and the seen set stays the set of reported pairs |
| AssetMatching.MatchAssetsForDomain | src/ct-monitor/app/certificate_matcher.py:27-57 | the same for one certificate name, by the index; no (host, program) pair is ever reported twice |
| AssetMatching.IndexedMatchesAreScanMatches | src/ct-monitor/app/certificate_matcher.py:40-57 | what the indexed lookup reports for a host is what a scan of every program would |
| AssetMatching.NamesInScope | src/ct-monitor/app/certificate_matcher.py:48-57 | the names in scope are those of the programs whose matcher takes the host |
| AssetMatching.InScopeMembers | src/ct-monitor/app/certificate_matcher.py:48-57 | the programs in scope are exactly those whose matcher takes the host, in the order of the programs |
| AssetMatching.NewMatchesExactly | src/ct-monitor/app/certificate_matcher.py:48-57 | what is reported for a host: a triple with name and id for each given program not yet paired with it |
| AssetMatching.AssetHostIs | src/ct-monitor/app/certificate_matcher.py:40-42 | the host of a name is what follows a leading star and dot, or the name |
| VariationGenerator.FirstWins | src/ct-monitor/app/variation_generator.py:199-222 | an existing label keeps its entry, every claimed label gets one, and a new entry comes from the first permutation to claim it |
| VariationGenerator.IndexLabelMeaning | src/ct-monitor/app/variation_generator.py:199-206 | a permutation is indexed under its key, unless that is the key of the domain itself |
| VariationGenerator.FoundUnderKey | src/ct-monitor/app/variation_generator.py:264-280 | a name finds an entry exactly when the name is an indexed key followed by its longest public suffix, and it is the one stored there |
| VariationGenerator.FoundFromDomain | src/ct-monitor/app/variation_generator.py:165-280 | from one protected domain to a certificate name: what is found, in terms of the permutations and the two names |
| VariationGenerator.NormalIs | src/ct-monitor/app/variation_generator.py:182-277 | blanks around a name and upper case in it do not matter |
| VariationGenerator.Generator.AddProtectedDomain | src/ct-monitor/app/variation_generator.py:165-228 | the new sets and index are these functions of the old; the flat set stays the union of the program sets and the counters stay the number of stored labels, per fuzzer and in all |
| VariationGenerator.Generator.AddProtectedDomains | src/ct-monitor/app/variation_generator.py:230-262 | flat set and program set grow by exactly the normalised names; in the index old entries stay, every key of a permutation has an entry, and a new one names this program, its domain and the first permutation; the total counts the new ones |
| VariationGenerator.Generator.IsLegitimateSubdomain | src/ct-monitor/app/variation_generator.py:286-296 | the label-suffix lookup answers exactly whether the name ends with a dot and some protected name |
| VariationGenerator.LegitimateSubdomainPrograms | src/ct-monitor/app/certificate_matcher.py:123-133 | the per-program scan finds exactly the programs that protect a name above this one, in order, each with such a name |
| VariationGenerator.BuildProtected | src/ct-monitor/app/domain_config_builder.py:255-299 | the builder loop leaves the last entry of each program in the dictionary, every loaded name in the flat set, and under every key the entry of the first loaded program with a domain that claims it |
| VariationGenerator.LoadedNames | src/ct-monitor/app/domain_config_builder.py:265-276 | loaded are exactly the normal forms of the names that are not empty |
| VariationGenerator.FlatSetIsUnionExactly | src/ct-monitor/app/domain_config_builder.py:261-299 | the flat set is the union of the program sets if and only if every loaded name is in an entry that no later entry of the same program replaces |
| VariationGenerator.FlatSetIsUnion | src/ct-monitor/app/domain_config_builder.py:261-299 | so it is with no program loaded twice, as the unique program names guarantee |
| VariationGenerator.LookupAgreesWithScan | src/ct-monitor/app/variation_generator.py:286-296 | on the sets of the builder the fast lookup is true exactly when the scan is non-empty |
| VariationGenerator.BuiltLookupIsScan | src/ct-monitor/app/domain_config_builder.py:261-299 | from distinct loaded programs to the lookup: in the flat set the builder leaves, a name is a legitimate subdomain exactly when the scan of the dictionary finds a program |
| CertificateMatcher.FirstMatchingKeyword | src/ct-monitor/app/certificate_matcher.py:136-154 | with or without the automaton the answer is the first keyword, in program order, that the name contains |
| CertificateMatcher.FirstKeywordMeaning | src/ct-monitor/app/certificate_matcher.py:136-154 | the keyword given is the first, in program order, that stands somewhere in the name |
| CertificateMatcher.CutoffKeepsDecision | src/ct-monitor/app/certificate_matcher.py:197-200 | the score cutoff never changes the decision about a program, at any threshold from zero on |
| CertificateMatcher.ShortcutsLoseExactlyBlindSpots | src/ct-monitor/app/certificate_matcher.py:187-215 | at any threshold from zero on, keyword, gate and cutoff together change the decision if and only if no keyword matches, the gate closes and some pair is in its blind spot; then the alert is lost |
| CertificateMatcher.MatchKeywordOrSimilarity | src/ct-monitor/app/certificate_matcher.py:157-217 | the method takes exactly that decision and reports whether the gate skipped it |
| CertificateMatcher.ProgramDecisionMeaning | src/ct-monitor/app/certificate_matcher.py:157-217 | what one program alerts and with what: its first keyword in the name with 0.90; or, if none occurs and the gate is open, the best protected domain with its exact score; and when the gate counts as skipping it |
| CertificateMatcher.DecideMeaning | src/ct-monitor/app/certificate_matcher.py:220-350 | what is alerted for a name, both ways: nothing for a protected name or one under it, else the variation under its key with 0.95, else what the first alerting program alerts |
| CertificateMatcher.SkipsAreClosedGates | src/ct-monitor/app/certificate_matcher.py:311-342 | the skip count counts the programs whose gate closed, up to the first that alerts |
| CertificateMatcher.FirstProgramIsFirst | src/ct-monitor/app/certificate_matcher.py:317-342 | the alert is of the first program that decides for one, and there is none exactly when no program does |
| CertificateMatcher.DedupIsDistinct | src/ct-monitor/app/certificate_matcher.py:251-252 | each name once, and no name dropped and in first-seen order |
| CertificateMatcher.AlertsAreSound | src/ct-monitor/app/certificate_matcher.py:251-342 | at most one alert per name, each about a name of the certificate, never about a protected name or a subdomain of one |
| CertificateMatcher.AlertsAreComplete | src/ct-monitor/app/certificate_matcher.py:220-350 | and no alert is missing: they are the alerts of the names, in the order of the names |
| CertificateMatcher.SkipsAreSummed | src/ct-monitor/app/certificate_matcher.py:220-350 | every occurrence of a name adds its skips, except after an alert about it |
| CertificateMatcher.AssetsAreExactlyInScope | src/ct-monitor/app/certificate_matcher.py:248-249 | over a whole certificate the asset matches are exactly the pairs of a host named by it and a program whose scope holds that host |
| CertificateMatcher.ProtectedDomainPrograms | src/ct-monitor/app/certificate_matcher.py:112-120 | exactly the programs that protect the name itself, in order |
| CertificateMatcher.AppendSkipLogs | src/ct-monitor/app/certificate_matcher.py:74-109 | one line per program found whose id is known, in order |
| CertificateMatcher.LinesExactly | src/ct-monitor/app/certificate_matcher.py:74-133 | which lines explain a skipped name: one per program with a known id that protects it or a name above it, with the outcome to match |
| CertificateMatcher.MatchName | src/ct-monitor/app/certificate_matcher.py:253-346 | one name through the alert rules is one pure decision, with or without logs; the log is exactly the lines of the scan that explains the skip, each naming what its program protects |
| CertificateMatcher.MatchCertificate | src/ct-monitor/app/certificate_matcher.py:220-350 | matching a certificate maps that decision over the distinct names in first-seen order; the count is the number of alerts, skips count every occurrence until an alert; the log is exactly the lines of all skipped occurrences, and collecting it changes nothing else |
| TaskQueueClient.AssembleOutput | src/runner/app/task_queue_client.py:368-374 | the assembly loop joins the chunks present in order |
| TaskQueueClient.HighestChunk | src/runner/app/task_queue_client.py:385 | the highest chunk number present |
| TaskQueueClient.Client.ProcessOutput | src/runner/app/task_queue_client.py:308-444 | one message changes its own task as specified, chunked or not, and no other task; a handler is forgotten only when it returns |
| TaskQueueClient.Client.GetTaskOutput | src/runner/app/task_queue_client.py:451-523 | a collector takes the stored output, or an assembly when every chunk is there |
| TaskQueueClient.Client.CheckStalledChunks | src/runner/app/task_queue_client.py:525-602 | exactly the stalled tasks are released, as partial |
| ChunkStreams.RunsAreHonest | src/runner/app/task_queue_client.py:330-410 | in every run of arrivals in any order and number, stall checks and collections, each stored or handed-over payload is the in-order concatenation of some chunks, marked whole exactly when they are all of them; live tasks store exactly the processed chunks and never the final one |
| ChunkStreams.WholeWhenNotPartial | src/runner/app/task_queue_client.py:376-383 | a payload not marked partial is the exact concatenation of all chunks; a partial one lacks some |
| ChunkStreams.HeldChunksAreIncomplete | src/runner/app/task_queue_client.py:366 | a live task holds strictly fewer chunks than there are |
| ChunkStreams.CollectorNeverAssembles | src/runner/app/task_queue_client.py:467-514 | so the assembly branch of the collector is never taken |
| ChunkStreams.StallReleaseHasAChunk | src/runner/app/task_queue_client.py:553-583 | a stall release always has a chunk to read its node name from |
| ChunkStreams.FinalChunkDelivers | src/runner/app/task_queue_client.py:366-410 | when the final chunk first arrives the handler is called once with the concatenation of what is present, whole if and only if all others came before |
| ChunkStreams.LoneFinalIsPartial | src/runner/app/task_queue_client.py:366-383 | a final chunk that finds no other held is delivered alone as partial, first in its stream or redelivered after completion |
| ChunkStreams.StallReleasesExactly | src/runner/app/task_queue_client.py:525-600 | a stall check releases an open task exactly when over nine tenths of its chunks have arrived and none in the last minute; the payload carries what has arrived in order, the success of the first chunk and the node of the highest |
| ChunkStreams.ShortStreamsAreNotReleased | src/runner/app/task_queue_client.py:553 | so a stream of up to ten chunks whose last one is lost is never released |
| ChunkStreams.PlainDelivers | src/runner/app/task_queue_client.py:412-444 | an unchunked message, for any state: with success and an output it is stored, fetched next and handed over once; otherwise what is stored stays and the handler hears once that there is no valid output |
| ChunkStreams.HandlerReturnsAtMostOnce | src/runner/app/task_queue_client.py:398-406 | in every run of any messages a registered handler returns normally at most once |
| AssetMerging.MergeListField | src/runner/app/task_components.py:874-884 | the merged list field has exactly the elements of both |
| AssetMerging.CombinedIsUnion | src/runner/app/task_components.py:815-884 | the list field of the merged record of a key is the union over all input records with the key |
| AssetMerging.CombinedIsLatest | src/runner/app/task_components.py:815-872 | a plain field of the merged record is that of the last record of the key that has one |
| AssetMerging.MergeOne | src/runner/app/task_components.py:819-832 | an existing asset absorbs a new one in place, or the new one is appended; the list keeps holding every merged record |
| AssetMerging.MergeAssets | src/runner/app/task_components.py:815-872 | the in-place merge of a keyed type: first-occurrence key order without repeats, and each asset holds the combination of all records with its key |
| AssetMerging.MergeLarge | src/runner/app/task_components.py:759-792 | the generator merge keeps the existing assets and appends exactly the given ones whose identity is new, once each |
| AssetMerging.FreshKeepsAll | src/runner/app/task_components.py:601-640 | it drops nothing if and only if the identities of the given list are distinct and not held yet; otherwise the list gets shorter |
| AssetMerging.NoIdentIsLost | src/runner/app/task_components.py:759-792 | the first occurrences of all identities stay, in order; if the existing ones were distinct, the result is those first occurrences |
| AssetStreams.BatchesCutAsDue | src/runner/app/task_components.py:543-570 | the batches are the counted results in order, each cut at the first result that makes it due, and only the last may be short of the limits |
| AssetStreams.BatchesHoldInput | src/runner/app/task_components.py:543-570 | so no asset is lost, repeated or moved by the cutting |
| AssetStreams.BytesAddUp | src/runner/app/task_components.py:654-662 | the estimated size is 500 bytes for every asset |
| AssetStreams.PathsAgreeExactly | src/runner/app/task_components.py:675-724 | for a member of the enumeration, streaming yields what the standard path yields if and only if every flush over the threshold finds only distinct new texts |
| AssetStreams.KeepsAllExactly | src/runner/app/task_components.py:572-757 | the same for any batches, and when it fails records are missing |
| AssetStreams.NoTextIsLost | src/runner/app/task_components.py:601-640 | whatever is dropped, the first occurrences of the printed assets stay, in order |
| AssetStreams.KeepsListDataExactly | src/runner/app/task_components.py:572-757 | streaming keeps the list data of a key if and only if the items of each of its dropped records are held by kept ones |
| AssetStreams.PrintedLosesNothing | src/runner/app/task_components.py:601-640 | if equal texts mean equal records, every dropped record has an equal one that is kept, and no key loses list data |
| AssetStreams.ListDataIsMerged | src/runner/app/task_components.py:874-884 | the list data of a key is what merging all its records would give |
| AssetStreams.UnmergedKeysExactly | src/runner/app/task_components.py:810-813 | a member is never merged: its keys are first occurrences if and only if no key repeats |
| AssetStreams.RepeatStays | src/runner/app/task_components.py:803-813 | the failing input: two results with one record each of the same name give the name twice |
| AssetStreams.LongRepeatIsDropped | src/runner/app/task_components.py:586-594 | the failing input for the agreement: a list over the threshold that prints an asset twice comes out shorter when streamed |
| AssetStreams.LongListIsLong | src/runner/app/task_components.py:590-591 | one counted list over the threshold makes a flush long, so a plain string key raises, whatever the batch size and memory limit |
| AssetStreams.LongFlushExactly | src/runner/app/task_components.py:586-744 | which runs have a flush over the threshold, in plain numbers |
| AssetProcessing.ProcessStandard | src/runner/app/task_components.py:716-724 | the standard path over any results: a plain string naming a keyed type gets first-occurrence keys with the data of all records; every other key gets the whole input, unmerged |
| AssetProcessing.ProcessBatch | src/runner/app/task_components.py:572-599 | raises exactly for a plain string with a list over the threshold; otherwise a plain string gets all assets of the batch |
| AssetProcessing.MergeEfficient | src/runner/app/task_components.py:726-757 | raises exactly for a plain string over the threshold; below it the merge is the standard one, above it a member lets only new texts through |
| AssetProcessing.FlushBatch | src/runner/app/task_components.py:572-757 | one batch and its merge: raises exactly when the key is a plain string and the batch or what is held before it is over the threshold |
| AssetProcessing.ProcessStreaming | src/runner/app/task_components.py:543-714 | for every batch size, memory limit and threshold: raises exactly for a plain string with a flush over the threshold; otherwise plain strings get what the standard path gives, and members what their flushes keep, with no record changed |
| AssetProcessing.ProcessResults | src/runner/app/task_components.py:675-724 | the entry point: when it raises, and what each kind of type key gets on each path |
| AssetProcessing.TotalsAddUp | src/runner/app/task_components.py:680-686 | the total that chooses the path is that of the counted results, added up |
| AssetProcessing.DefaultsRaise | src/runner/app/task_components.py:675-757 | the failing input: with the default settings one result with 10,001 assets under a plain string raises |
| BatchManager.MetaKeyParts | src/event-handler/app/event_handlers.py:1064-1069 | the parts of a printed meta key |
| BatchManager.KeyRoundTrip | src/event-handler/app/event_handlers.py:970-1069 | parsing a printed key recovers handler and program, colons in the program included, if and only if the handler has no colon |
| BatchManager.ReprintIsSameKey | src/event-handler/app/event_handlers.py:1088 | whatever is read off a printed key prints back to the same key, colons or not, so a scan always reaches the right item list |
| BatchManager.KeysAreInjective | src/event-handler/app/event_handlers.py:970 | distinct pairs with colon-free handlers never share a queue |
| BatchManager.NothingLostOrReordered | src/event-handler/app/event_handlers.py:967-1049 | over every interleaving of add, take, admin clear and expiry: what left, batch by batch, followed by what is pending is what was added, in order; meta exists exactly when items do and dates from the oldest; added = handed over + discarded + pending |
| BatchManager.MetaIsOldestAndLast | src/event-handler/app/event_handlers.py:967-1049 | over every interleaving the meta of a pending queue holds the time of its oldest event and the delay of the last add |
| BatchManager.OneMoreStep | src/event-handler/app/event_handlers.py:967-1049 | what one more step does after any run: append, or take everything out, to the actions for a take and to nowhere otherwise |
| BatchManager.FoundLater | src/event-handler/app/main.py:288-399 | what a flush or a clear finds in a queue seen earlier, whatever came in between: what it saw and what was added since, or only the latter once something has emptied the queue |
| BatchManager.AdminClearCount | src/event-handler/app/event_handlers.py:1171-1183 | the count read before the delete is at most the events discarded while nothing empties the queue in between, equal when nothing is added either, and by how much it exceeds them otherwise |
| BatchManager.SimpleBatchManager.AddToBatch | src/event-handler/app/event_handlers.py:967-1026 | the queue is pushed as specified, other queues untouched, and the flush answer follows the count and age left; a delay that is not positive deletes the event at once |
| BatchManager.SimpleBatchManager.GetAndClearBatch | src/event-handler/app/event_handlers.py:1028-1049 | returns the pending events in order and clears exactly that queue |
| BatchManager.SimpleBatchManager.HandleEvent | src/event-handler/app/event_handlers.py:224-251 | with a positive limit fewer events than the limit stay pending after each event; a delay that is not positive hands over an empty batch, and nothing else does |
| BatchManager.SimpleBatchManager.GetExpiredBatches | src/event-handler/app/event_handlers.py:1051-1104 | lists exactly the non-empty queues past their timeout, each once, with their age |
| BatchManager.SimpleBatchManager.ExpiredListIsExact | src/event-handler/app/event_handlers.py:1051-1104 | for a colon-free handler its entry is in the list if and only if its queue is due |
| BatchManager.SimpleBatchManager.ListPendingBatches | src/event-handler/app/event_handlers.py:1106-1154 | lists exactly the non-empty queues, each once |
| BatchManager.SimpleBatchManager.DeleteAllPending | src/event-handler/app/event_handlers.py:1156-1209 | discards every queue and counts the batches and events dropped |
| BatchManager.SimpleBatchManager.ProcessExpired | src/event-handler/app/main.py:288-317 | takes exactly the due queues whose handler is found and leaves the others queued; processed counts the taken batches whose delivery returned |
| BatchManager.SimpleBatchManager.FlushPending | src/event-handler/app/main.py:319-399 | empties every queue but those whose handler lookup raises; flushed counts the deliveries that returned, orphans the batches without a handler, and the errors name every batch not delivered, in order |
| BatchManager.EndsAddUp | src/event-handler/app/main.py:319-399 | flushed + orphans + failed deliveries + not taken = seen, and flushed + errors = seen |
| BatchManager.FlushCountsExactly | src/event-handler/app/main.py:319-399 | flushed and orphaned count exactly the batches with a handler whose delivery returned, and those without a handler |
| BatchManager.FlushedByLookup | src/event-handler/app/main.py:319-399 | what a flush makes of a queue, by what its lookup says |
| BatchManager.UndeliveredExactly | src/event-handler/app/main.py:319-399 | the errors name exactly the batches that were not delivered |
| WorkerJobs.SpawnBatch | src/runner/app/worker_job_manager.py:461-497 | for any positive size the batches in order are the commands in order, each with the extra, batch number and index of its global position; all but the last are full and none is empty |
| WorkerJobs.CompletedAreAccountedFor | src/runner/app/worker_job_manager.py:78-88 | completed = successful + failed + completed without output |
| WorkerJobs.FullRateIsAllSuccessful | src/runner/app/worker_job_manager.py:94-98 | the success rate is one exactly when every job completed with an output |
| WorkerJobs.OutputsAreKept | src/runner/app/worker_job_manager.py:246-257 | in every interleaving of replies and outputs a stored output is only ever replaced by a later one |
| WorkerJobs.SuccessIsOutputAndLastWord | src/runner/app/worker_job_manager.py:645-691 | a job counts as successful exactly when an output arrived and the last word about it was completion |
| WorkerJobs.OutputThenTimeout | src/runner/app/worker_job_manager.py:627-681 | a run where the output arrives and the job still ends as timed out |
| WorkerJobs.CheckStatuses | src/runner/app/worker_job_manager.py:645-691 | each poll applies its reply after its await, whatever arrived meanwhile, and skips only jobs finished before it began |
| WorkerJobs.RoundLaw | src/runner/app/worker_job_manager.py:593-691 | one round, job by job: polls in order that pass over finished jobs, outputs while a reply is awaited and then the reply; what arrives in the sleep comes after all polls |
| WorkerJobs.WaitedExactly | src/runner/app/worker_job_manager.py:593-643 | waiting takes as many rounds as it takes for all jobs to finish; if they do not suffice, the unfinished jobs are timed out as they are |
| WorkerJobs.WaitForBatch | src/runner/app/worker_job_manager.py:593-643 | under every interleaving all jobs are finished at return, outputs are kept, and the answer is true exactly when all jobs completed with output |
| AssetSubmitter.RunsAreHonest | src/ct-monitor/app/asset_submitter.py:107-116 | in every interleaving a mark stands only for a host of a batch the API accepted, and the counters count the accepted batches and hosts and the failures |
| AssetSubmitter.LogsAreReplies | src/ct-monitor/app/asset_submitter.py:178-252 | over every interleaving the accepted and the refused batches are exactly those the API accepted and refused, in order, and every skip is counted |
| AssetSubmitter.SeenIsMarked | src/ct-monitor/app/asset_submitter.py:98-116 | over every interleaving a host counts as seen exactly from an accepted, marked batch with it to the expiry of its mark |
| AssetSubmitter.BufferIsQueuedSinceDrain | src/ct-monitor/app/asset_submitter.py:135-175 | a buffer holds exactly what was queued since its last drain |
| AssetSubmitter.EveryDepartureIsAccountedFor | src/ct-monitor/app/asset_submitter.py:169-252 | the batches in flight, accepted, refused and lost are exactly the drained buffers, each whole |
| AssetSubmitter.LostIsCancelled | src/ct-monitor/app/asset_submitter.py:178-230 | a batch is lost exactly when its post was cancelled |
| AssetSubmitter.NothingLostUncancelled | src/ct-monitor/app/asset_submitter.py:169-252 | without a cancelled post every drained buffer is in flight, accepted or refused |
| AssetSubmitter.CtAssetSubmitter.Stop | src/ct-monitor/app/asset_submitter.py:81-93 | stopping loses exactly the batch the cancelled flush task was posting, and flushes every buffer |
| AssetSubmitter.CtAssetSubmitter.Offer | src/ct-monitor/app/asset_submitter.py:118-132 | a blank host is ignored, one seen recently is only counted |
| AssetSubmitter.CtAssetSubmitter.TakeBuffer | src/ct-monitor/app/asset_submitter.py:169-175 | draining moves the whole buffer in flight and leaves it empty |
| AssetSubmitter.CtAssetSubmitter.FinishPost | src/ct-monitor/app/asset_submitter.py:178-252 | the new state after a reply: failure counted and nothing marked, or success counted and the hosts marked |
| AssetSubmitter.CtAssetSubmitter.Add | src/ct-monitor/app/asset_submitter.py:118-150 | an undisturbed add, with its flush when the buffer is due |
| AssetSubmitter.AddStaysBelow | src/ct-monitor/app/asset_submitter.py:147-150 | undisturbed adds keep every buffer below a positive limit |
| AssetSubmitter.CtAssetSubmitter.FlushNow | src/ct-monitor/app/asset_submitter.py:152-157 | undisturbed, it empties every buffer, each as one batch accepted or refused as a whole |
| CertStream.ExtractDomains | src/ct-monitor/app/certstream_consumer.py:24-43 | exactly the names the message covers |
| CertStream.CleanIs | src/ct-monitor/app/certstream_consumer.py:37-41 | stars and dots in front of a listed name are dropped, then blanks around it; case does not matter |
| CertStream.TldIs | src/ct-monitor/app/certstream_consumer.py:46-57 | the suffix the filter tests is what follows the last dot, and nothing for a name without one |
| CertStream.PassesTldFilter | src/ct-monitor/app/certstream_consumer.py:46-57 | passes exactly without a filter or with a name under it |
| CertStream.BuildCertificate | src/ct-monitor/app/certstream_consumer.py:60-119 | exactly the names under the filter, or the right reason for none |
| CertStream.FiltersAgree | src/ct-monitor/app/certstream_consumer.py:46-119 | the two filters agree: an admitted message is never filtered later, and under a filter the admitted messages are exactly those that yield a certificate |
| CertStream.DropsBeforeFull | src/ct-monitor/app/certstream_consumer.py:183-241 | the drop threshold lies below the queue size, so the full-queue branch cannot be reached |
| CertStream.HasRoomBehind | src/ct-monitor/app/certstream_consumer.py:229-247 | a message is queued behind others exactly while it stays within the share of the queue that the watermark gives |
| CertStream.CertStreamConsumer.EnqueueMessage | src/ct-monitor/app/certstream_consumer.py:229-247 | exactly one of filtered, dropped, queued happens, with offered = filtered + dropped + queued + received kept, in first-in first-out order, and the queue at or below the threshold |
| CertStream.CertStreamConsumer.HandleNext | src/ct-monitor/app/certstream_consumer.py:323-376 | a worker takes the oldest message; under a filter it always yields a certificate; the filtered-later counter never moves |
| CertStream.CertStreamConsumer.CallbackEnds | src/ct-monitor/app/certstream_consumer.py:378-387 | processed = in flight + finished is kept, with no more in flight than workers; a failed callback counts as one error |
| CertStream.CertStreamConsumer.ConnectionFails | src/ct-monitor/app/certstream_consumer.py:263-300 | a lost connection counts as one error while running; errors = failed callbacks + failed connections |
| RefreshWorker.NoRequestIsLost | src/ct-monitor/app/main.py:597-632 | in every interleaving at most one worker and one of its reloads are live, reloads never outnumber requests, and once the worker is gone every request has had a reload that started after it |
| RefreshWorker.TwoStepsServeAll | src/ct-monitor/app/main.py:614-632 | from every reachable state two undisturbed worker steps serve all requests and end the worker |
| RefreshWorker.CtMonitorService.RequestConfigRefresh | src/ct-monitor/app/main.py:597-612 | starts a worker exactly when none is live, and refuses when the service is stopped |
| RefreshWorker.CtMonitorService.ReloadEnds | src/ct-monitor/app/main.py:619-632 | the stretch after a reload reruns or finishes as the state machine does |
| Threshold.MatchMeaning | src/api/app/last_execution_threshold.py:13-16 | the matcher finds digits and suffix of exactly the texts of the pattern: blanks, digits, blanks, at most one suffix letter, blanks |
| Threshold.PrintedIntIsRead | src/api/app/last_execution_threshold.py:88 | printing a number and parsing it |
| Threshold.LeadingZero | src/api/app/last_execution_threshold.py:88 | zeros in front of a number do not count |
| Threshold.HoursMeaning | src/api/app/last_execution_threshold.py:22-63 | the hours of a value, both ways: a whole number of at least one, or the digits of the pattern times 1, 24 or 168; a crash exactly for infinities and NaN |
| Threshold.StoredForm | src/api/app/last_execution_threshold.py:66-88 | what is stored for a text: days and weeks keep their unit, hours become a number |
| Threshold.StoringPreservesHours | src/api/app/last_execution_threshold.py:66-88 | storing fails exactly where parsing does, preserves the hours, and is idempotent |
| Threshold.RunnerAgrees | src/runner/app/last_execution_threshold.py:20-100 | both runner parsers give the hours of the API where it accepts, and the default or none where it rejects |
| Threshold.StoredIsScheduled | src/runner/app/last_execution_threshold.py:20-70 | what the API stores is what the runner schedules by |

## Left out

- HTTP, NATS, Redis, Kubernetes and browser calls: replies, permutations, the public-suffix list, the keyword scan and known handlers are parameters or steps; dnstwist, the automaton, rapidfuzz and tldextract count for what they promise. A Redis or JSON error inside the batch manager is not modelled.
- Floating point: scores, watermarks and thresholds are exact rationals, so a score that rounding moves across a threshold is not seen.
- Unicode: white space, letters and digits are the ASCII ones.
- Hosts with a newline: the meaning theorems are about newline-free hosts and, by `FinalNewlineIsIgnored`, those with one at the end; a pattern with a newline in a label matches no host without one.
- Legacy scope regexes and the apex guess made from them: a heuristic without a meaning to preserve.
- CertificateMatcher.MatchName: an exception raised while one program is matched is not modelled, and of several protected names above a skipped one the log may give any.
- CertificateMatcher.MatchCertificate: programs are listed in dictionary order; certificate metadata copied into alerts and logs is left out.
- AssetMatching.PrefilterLosesNothing: assumes every in-scope rule is indexable, which the code does not check; `IndexableExactly` says when a rule is. A host that an unindexable rule shares with the zone of another rule is found all the same, which is not credited here.
- VariationGenerator.BuildProtected: the three sources of a program's names are one list, programs without names and keywords are already left out of it, and of the statistics only the label counts are kept.
- TaskQueueClient.Client.ProcessOutput: a payload's other fields are reduced to the node name; timestamps, pod name and workflow fields are dropped.
- `TaskQueueClient.shutdown` walks a chunk layout that is never stored; no claim is made about it.
- AssetProcessing.ProcessResults: one type key at a time, so that an error raised for another key of the same dictionary, which ends the run too, is not seen; assets without their key field, what has been merged when it raises and the progress counters are left out. The type hints promise plain strings where parsers give members; both are modelled.
- AssetMerging.MergeLarge: the identity a plain string `service` would have in the flush merge (address and port) is left out; the log line raises before it is asked for.
- AssetMerging.MergeAssets: the list field and two plain fields stand for ip, ptr or techs and for cname, wildcard, port, favicon and the like; every plain field is overwritten by a later value that is present.
- BatchManager.SimpleBatchManager.ProcessExpired: scan and take happen without another step in between, and a scan sees a snapshot of the keys; what other steps in between change is stated per queue, by `NothingLostOrReordered` and `FoundLater`.
- BatchManager.SimpleBatchManager.FlushPending: the counts are stated for a flush no other step disturbs; whether a lookup or a delivery raises is a parameter, per handler and program.
- BatchManager.SimpleBatchManager.DeleteAllPending: reads and deletes without another step in between; `AdminClearCount` states the count when there is one.
- BatchManager.SimpleBatchManager.GetExpiredBatches: the meta always holds its timeout, as every add writes it; the fallback for metas without one is not part of the model.
- WorkerJobs.SpawnBatch: the queue returns one task id per command; what happens when it returns fewer, or fails, and the sequential mode, are left out.
- WorkerJobs.WaitForBatch: the deadline is the end of an arbitrary finite list of rounds instead of a clock; an output payload is never none; progress callbacks are left out.
- AssetSubmitter.CtAssetSubmitter.FlushNow: hosts of a batch are a set, so the sorted order of the payload is not modelled; marks are written all or none, and a mark's expiry is a step that may happen at any time.
- CertStream.CertStreamConsumer.HandleNext: a worker cancelled between taking and handling a message is not modelled; of the certificate only its names are kept.
- RefreshWorker.NoRequestIsLost: only the background worker's reloads; the blocking reload that another caller may run beside them and a cancellation at loop shutdown are left out.
- Threshold.StoringPreservesHours: numbers that are infinite or not a number raise in all three parsers and are modelled as such; the wrapper that copies a parameter dictionary is left out.
- Template text, Discord and PhishLabs actions, workflow triggers, formatters, migrations, the frontend and one-shot scripts: plumbing or easy members.
