# Verified models of Hermit's CI and build logic

Hermit's repository carries a set of Rust programs that decide what a CI run may claim: which tests
passed, what a compiler capture holds, which shared build products may be reused, which failures are
known gaps, and what a dependency cache is keyed by. Each of them accepts or refuses on the strength
of an invariant over a whole run. This Dafny 4.11 project models those programs and proves the
invariants for every input, every event stream and every interleaving.

`dafny verify dfyconfig.toml` checks everything. Each module is one component:

- `NextestInventory`, `NextestEvents`, `NextestSafety`, `NextestOrder`, `NextestReducer`: the reducer
  over nextest's event stream. Suites open and close by full identity, but a test row names only a
  rendered package and binary, so rows are attributed through the inventory.
- `NextestReconcile`, `NextestReclassify`, `NextestPublish`: the retry reconciliation with the CPU
  wrapper's records, the skip, skid-infrastructure and cancellation passes, and the producer that
  composes them into a report.
- `CaptureQuota`, `CaptureBundle`: the capture quota that concurrent compiler wrappers share, and the
  bundle made from what they leave behind.
- `SharedPopulation`: building record/replay workloads in a directory that all test processes share,
  with a crash possible between any two steps.
- `GapLedger`: listing, planning and judging of the known-gap node.
- `Civil`: the build date's calendar arithmetic.
- `CacheManifest`, `CacheWalk`, `CacheKey`: the cache key's record encoding, its link-following walk,
  the recording of the collected paths, and both together.
- `BoundedCapture`: the bounded pipe drain and its caller.
- `LeastSquares`, `GetpidCost`: the benchmark's fit and summary, over exact reals.
- `Descendants`: the process-tree worklist.
- `Base`, `Totals`, `Tables`, `Ordered`: options and outcomes, sums over finite maps, tables filled by
  insertions that refuse a repeated key, and the iteration order of ordered sets and maps.

Loops of the source are methods with loops, each proved equal to a specification function or to a
stated property; the laws are then proved of the specification. Objects that the source mutates
(`Manifest`, the walk's stack and path set, `Stream`) are classes. The three protocols are state
machines whose steps are the source's atomic effects, and their laws hold after every finite sequence
of steps of any number of processes.

A refusal is `Refused`, without its message. An unsigned 64-bit count is `U64`, with every overflow
check written out.

## Two results worth knowing

- `apply_cancelled_attempts` is documented to record cancelled attempts "on the rows they belong to".
  It looks a row up by the inventory's binary id, while rows are shown under the binary's name. The
  two agree exactly for library targets and for binaries whose id is their plain name
  (`CancelledReachesItsRow`); for any other target the attempt reaches no row of its test.
  `CancelledAttemptLost` gives a concrete one: binary id `hermit::bin/hermit`, name `hermit`.
- `civil_from_days` cannot overflow for any 64-bit seconds count (`BuildDate`). As a function of a
  signed day count it overflows exactly when `days + 719468` does, which `CivilFromDays64` states as
  its only condition.

## Model

| member | source | states |
|---|---|---|
| `NextestInventory.IdentityForSuite` | ci/manifest-plan/src/nextest_cpu.rs:554-573 | a suite resolves exactly when some binary-map entry has its package, name and kind, and then to the first such entry's binary |
| `NextestEvents.SuitePopulation` | ci/nextest-test-results.rs:317-368 | a representable passed+failed+ignored+filtered sum is never overridden (result: the larger of it and the start count); an unrepresentable one is admitted exactly for the three known wraps, as the start count; every accepted population covers the start count and the executed tests |
| `NextestSafety.StepKeepsAttribution` | ci/nextest-test-results.rs:401-449 | every accepted line keeps open suites with one name key apart on all test names they may start |
| `NextestSafety.RunKeepsAttribution` | ci/nextest-test-results.rs:389-584 | so does every accepted stream |
| `NextestSafety.AttributionSafety` | ci/nextest-test-results.rs:519-541 | after every accepted prefix every test event of any kind has at most one candidate suite, and no open suite is missing from the inventory |
| `NextestSafety.KeysUniqueWithoutInventory` | ci/nextest-test-results.rs:423-447 | without an inventory no two suites that share a name key are open together after any accepted prefix |
| `NextestSafety.StepConserves` | ci/nextest-test-results.rs:469-582 | every accepted line keeps: passing and failing rows are each the closed suites' count plus the open episodes' counts, and all rows are the sum of the per-suite executed counts |
| `NextestSafety.RunConserves` | ci/nextest-test-results.rs:389-584 | so does every accepted stream |
| `NextestSafety.ReachableConserved` | ci/nextest-test-results.rs:389-584 | the balance holds after every accepted prefix |
| `NextestSafety.AggregateNeverRefuses` | ci/nextest-test-results.rs:591-624 | a stream is accepted exactly when its lines are, no suite is left open, the row count fits and the populations cover the executed rows: the aggregate comparison never refuses |
| `NextestSafety.AcceptedRowsAreTerminalLines` | ci/nextest-test-results.rs:516-583 | on acceptance the expected attempts are the terminal lines in order, unaltered and each under a suite it could mean, and the results are exactly their rows with no shared id, as many passing as lines report success |
| `NextestSafety.RunRecords` | ci/nextest-test-results.rs:550-582 | the same after every accepted prefix |
| `NextestSafety.RunFaithful` | ci/nextest-test-results.rs:495-514 | after every accepted prefix the recorded population of each suite is the largest any of its episodes reported, and every open episode has its start line |
| `NextestSafety.AcceptedCountsArePopulations` | ci/nextest-test-results.rs:591-630 | on acceptance executed + filtered is the sum over suites of the largest population any of the suite's episodes reported, episodes being read off the stream itself |
| `NextestOrder.StepIsDecideThenApply` | ci/nextest-test-results.rs:389-584 | a line is a decision from the entries of its own name key followed by an update |
| `NextestOrder.DecideIsLocal` | ci/nextest-test-results.rs:389-584 | that decision depends on no suite of another key |
| `NextestOrder.StepsCommute` | ci/nextest-test-results.rs:389-584 | two lines of different keys give the same outcome in either order, up to the order of the expected attempts |
| `NextestOrder.SwapAdjacent` | ci/nextest-test-results.rs:389-631 | swapping two adjacent lines of different keys keeps refusal, and on acceptance everything but the order of the expected attempts |
| `NextestOrder.InterleavingsAgree` | ci/nextest-test-results.rs:389-631 | two streams with the same lines per key, interleaved in any two ways, end alike |
| `NextestOrder.ReductionIsOrderIndependent` | ci/nextest-test-results.rs:374-631 | and their reductions are both refused or have equal results, executed and filtered counts and the same expected attempts as a multiset |
| `NextestReducer.CheckStart` | ci/nextest-test-results.rs:410-448 | the overlap loop decides exactly whether a suite may start |
| `NextestReducer.CollectCandidates` | ci/nextest-test-results.rs:519-535 | the candidate loop collects exactly the eligible open suites, and refuses exactly when one with the key is not in the inventory |
| `NextestReducer.Attribute` | ci/nextest-test-results.rs:519-546 | a row is attributed exactly when one candidate exists, and to it |
| `NextestReducer.SumSkipped` | ci/nextest-test-results.rs:614-624 | the checked fold succeeds exactly when populations cover executed rows and the total fits, with that total, in any iteration order |
| `NextestReducer.ReadLine` | ci/nextest-test-results.rs:400-584 | the loops over open suites carry out the specified step |
| `NextestReducer.Reduce` | ci/nextest-test-results.rs:374-631 | the whole loop returns the reduction the laws above are about |
| `NextestReconcile.AgreementIsBounded` | ci/nextest-test-results.rs:651-661 | agreement implies the retry population is at most the number of records, so the early bound refuses nothing that would agree |
| `NextestReconcile.EachAttemptIsRecorded` | ci/nextest-test-results.rs:662-690 | on agreement a test reported with k attempts has records 1..k, the first k-1 unsuccessful and the k-th successful exactly when the test passed |
| `NextestReconcile.CountRequired` | ci/nextest-test-results.rs:651-655 | the checked fold is the sum of the retry counts, refused exactly on overflow |
| `NextestReconcile.Expand` | ci/nextest-test-results.rs:664-690 | the expansion table is every attempt once, refused exactly for an unresolvable suite or a repeated attempt |
| `NextestReconcile.Index` | ci/nextest-test-results.rs:691-708 | the record table is every record once, refused exactly for mixed run ids or a repeated identity |
| `NextestReconcile.TablesDecideAgreement` | ci/nextest-test-results.rs:709-750 | the two tables agree exactly when the events and the records do |
| `NextestReconcile.Compare` | ci/nextest-test-results.rs:709-750 | the comparison accepts exactly on agreement, with the cancelled identities the difference of the tables |
| `NextestReconcile.Reconcile` | ci/nextest-test-results.rs:637-755 | accepted exactly on agreement; then the records are the disjoint union of the wanted attempts and the cancelled ones, all ended by a signal, and the numbers add up |
| `NextestReclassify.ClassifiedAttempts` | ci/nextest-test-results.rs:964-987 | attempts numbered 1..n, all failed but the last, which has the row's outcome |
| `NextestReclassify.FindMatch` | ci/nextest-test-results.rs:1000-1018 | a marker's row is found exactly when one row alone matches its name |
| `NextestReclassify.AdmissibleNext` | ci/nextest-test-results.rs:999-1034 | one more marker is admissible exactly when its row is yet unmarked and admits it: two markers never share a row |
| `NextestReclassify.RewrittenIsMarkPass` | ci/nextest-test-results.rs:999-1034 | a pass has exactly one result: marked rows rewritten for their marker, all others kept |
| `NextestReclassify.MarkRows` | ci/nextest-test-results.rs:1075-1127 | the in-place marker loop is that pass: refused exactly when some marker does not name one fresh, admitting row |
| `NextestReclassify.ApplySkipMarkers` | ci/nextest-test-results.rs:994-1042 | each marker turns its own passing row into a skip with its reason; every other row is classified unchanged; refused exactly otherwise |
| `NextestReclassify.OneRowPerMarker` | ci/nextest-test-results.rs:999-1034 | the marked rows are as many as the markers |
| `NextestReclassify.SkipPassSummary` | ci/nextest-test-results.rs:989-1042 | after the skip pass the skipped rows are the marked ones, each drawn from a passing row |
| `NextestReclassify.SkidPassSummary` | ci/nextest-test-results.rs:1071-1128 | the skid pass makes no row pass, loses no id or order and keeps attempts numbered |
| `NextestReclassify.CancelAllOnlyCancels` | ci/nextest-test-results.rs:1136-1190 | the cancellation pass only appends cancelled attempts to rows that did not pass |
| `NextestReclassify.ApplyCancelled` | ci/nextest-test-results.rs:1136-1190 | the loop is the fold of one cancelled identity after another, refused without a binary map |
| `NextestReclassify.Reclassify` | ci/nextest-test-results.rs:1354-1363 | the three passes in order; on acceptance ids and order are kept, every row is classified 1..n, a row passes exactly when it did and no skip marker named it, and only marked rows are skipped |
| `NextestReclassify.UnlaunderedCounts` | ci/nextest-test-results.rs:989-1190 | across the passes the passing rows lose exactly one row per skip marker |
| `NextestReclassify.CancelAllExactly` | ci/nextest-test-results.rs:1148-1188 | an accepted cancellation pass appends to each row exactly the attempts looked up under its id, in order |
| `NextestReclassify.CancelledIdNamesTheRow` | ci/nextest-test-results.rs:98-112 | the id a cancelled attempt is looked up by is its row's exactly for a library or a binary whose id is its name |
| `NextestReclassify.CancelledReachesItsRow` | ci/nextest-test-results.rs:1130-1187 | over a whole accepted pass a cancelled attempt appears on its test's row exactly then; otherwise that row is what it would be without it |
| `NextestReclassify.CancelledAttemptLost` | ci/nextest-test-results.rs:1161-1170 | a concrete cancelled attempt that reaches no row |
| `NextestPublish.Reconciling` | ci/nextest-test-results.rs:1345-1353 | refused exactly on disagreement; the cancelled attempts in identity order |
| `NextestPublish.PassingRows` | ci/nextest-test-results.rs:602-604 | the rows in id order are as many as the results, with as many passes |
| `NextestPublish.Finalise` | ci/nextest-test-results.rs:1329-1365 | the rows to report; no row is both a pass and a skip, and the passes are the results' less one for each skip marker |
| `NextestPublish.Publish` | ci/nextest-test-results.rs:1329-1400 | accepted exactly when every stage is, a successful run has no failed row and the pin holds: the subtraction giving the failures never refuses; passes, skips and failures make up the executed tests, and passes plus skip markers are the stream's successes |
| `CaptureQuota.StepKeepsInv` | ci/compatibility-rustc-wrapper.rs:349-399 | every step of every wrapper, crash, failed flush or writeback keeps the protocol's invariant |
| `CaptureQuota.RunKeepsInv` | ci/compatibility-rustc-wrapper.rs:349-399 | so does every interleaving |
| `CaptureQuota.TicketsArePaid` | ci/compatibility-rustc-wrapper.rs:388-394 | distinct counter writes up to a flushed one are covered by the counter it holds |
| `CaptureQuota.PublishedArePaid` | ci/compatibility-rustc-wrapper.rs:388-399 | the flushed counters are at least the total and the number of all published captures' reservations |
| `CaptureQuota.StoredFitsReserved` | ci/compatibility-rustc-wrapper.rs:861-918 | what a capture's files hold is within its reservation, and every completion has its invocation |
| `CaptureQuota.QuotaSafety` | ci/compatibility-rustc-wrapper.rs:349-399 | after any interleaving: the counters are the sum and number of all grants, within both limits, and the flushed counters cover every published capture in bytes and in number |
| `CaptureQuota.CapturesFit` | ci/compatibility-rustc-wrapper.rs:860-918 | at most the command limit of invocations is ever published, and every completion belongs to one |
| `CaptureBundle.Collect` | ci/compatibility-rustc-wrapper.rs:953-999 | the directory loop succeeds exactly within the entry bound on expected, unrepeated names, with both tables |
| `CaptureBundle.Drain` | ci/compatibility-rustc-wrapper.rs:1004-1014 | the pairing loop succeeds exactly when every invocation has a completion, and leaves exactly the others |
| `CaptureBundle.Pair` | ci/compatibility-rustc-wrapper.rs:1000-1018 | both name sets equal and nonempty; the last check never refuses after the count comparison |
| `CaptureBundle.Bundle` | ci/compatibility-rustc-wrapper.rs:953-1025 | success exactly for a readable, complete directory, with every invocation paired with its one completion and none left over |
| `CaptureBundle.CapturesBundle` | ci/compatibility-rustc-wrapper.rs:852-1025 | a directory that only wrappers wrote, listed in any order, fits the entry bound and is readable; it is complete exactly when something was captured and every capture completed |
| `SharedPopulation.ReadPaths` | ci/record-replay-workloads.rs:439-447 | the first loop refuses exactly for a changed file or a repeated name |
| `SharedPopulation.ConsumePrepared` | ci/record-replay-workloads.rs:421-461 | the loops compute the specified consumption |
| `SharedPopulation.ConsumedExactly` | ci/record-replay-workloads.rs:421-461 | an envelope is accepted exactly when every listed file is in its listed generation and the listed names are the declared ones, each once; workloads follow the declared order |
| `SharedPopulation.DescriptionOk` | ci/record-replay-workloads.rs:398-419 | the envelope read off a complete population lists what was built for its key, unchanged |
| `SharedPopulation.StepKeepsInv` | ci/record-replay-workloads.rs:723-773 | every step of every process, crash or cut-off removal keeps the protocol's invariant |
| `SharedPopulation.RunKeepsInv` | ci/record-replay-workloads.rs:723-773 | so does every interleaving |
| `SharedPopulation.EnvelopeOnlyWhenComplete` | ci/record-replay-workloads.rs:755-769 | an envelope appears only in a population already renamed into place and completely built for its key |
| `SharedPopulation.FoundIsOwn` | ci/record-replay-workloads.rs:741-773 | every process that returns lists the declared names, none repeated, in the population of its own key |
| `SharedPopulation.FoundIsIntact` | ci/record-replay-workloads.rs:741-773 | whenever a process decides to reuse a population or returns after building one, every file there is as built for its key |
| `SharedPopulation.ValidIsReused` | ci/record-replay-workloads.rs:742-749 | a process reuses the population of its key exactly when its envelope is there and valid |
| `SharedPopulation.FoundIsKept` | ci/record-replay-workloads.rs:741-771 | from the decision to reuse, or the envelope's writing, until that process returns no step of any process removes or changes its population |
| `GapLedger.ListedExactly` | ci/kvm-gap-ledger.rs:433-528 | whatever nextest lists, an accepted list executes exactly the declared tests that are not ignored and that no row skips |
| `GapLedger.PlannedExactly` | ci/kvm-gap-ledger.rs:534-588 | the planned required tests are exactly the declared, non-ignored tests without a row |
| `GapLedger.IndexResults` | ci/kvm-gap-ledger.rs:742-753 | the result table is every result once, refused exactly for a retry or a repeat |
| `GapLedger.TallyResults` | ci/kvm-gap-ledger.rs:799-965 | the judging loop classifies every result and its five counters are the sizes of the five classes, in any iteration order; refused exactly when the CPU report disagrees |
| `GapLedger.ClassesPartition` | ci/kvm-gap-ledger.rs:799-801 | the five classes partition the judged rows |
| `GapLedger.Judge` | ci/kvm-gap-ledger.rs:731-979 | a verdict exactly for a finished run; the counters add up to the population and ok holds exactly when nothing blocks |
| `GapLedger.CountsEarned` | ci/kvm-gap-ledger.rs:818-965 | a pass had a passing attempt, the proof test's pass had its proof, and a known gap ended as its row says with its signature shown |
| `GapLedger.PipelineKept` | ci/kvm-gap-ledger.rs:534-979 | no gap row is a pass, skipped rows have no result, and when ok the passes are exactly the required tests, as many as pinned |
| `GapLedger.RunNode` | ci/kvm-gap-ledger.rs:1136-1277 | the pipeline yields a verdict exactly when the ledger, list, plan and run are all accepted, and every verdict keeps those promises |
| `Civil.DaysFromNext` | hermit-cli/build_support.rs:150-164 | the reference day number counts up by one from each calendar date to the next |
| `Civil.YearFormula` | hermit-cli/build_support.rs:157-159 | the year-of-era and day-of-year formulas invert the day count of a 400-year era |
| `Civil.MonthFormula` | hermit-cli/build_support.rs:160-162 | the month formula finds the month whose days contain the day of the year |
| `Civil.CivilIsDate` | hermit-cli/build_support.rs:153-164 | for every day count, negative included, the result is a proleptic Gregorian date whose day number is that count |
| `Civil.DateIsCivil` | hermit-cli/build_support.rs:153-164 | every calendar date is the result for its day number: with the row above, an inverse |
| `Civil.CivilEpoch` | hermit-cli/build_support.rs:150-164 | day 0 is 1970-01-01 |
| `Civil.CivilSuccessor` | hermit-cli/build_support.rs:153-164 | day d+1 is the calendar successor of day d |
| `Civil.CivilFromDays64` | hermit-cli/build_support.rs:153-164 | on i64 and u32, with every step range-checked, the code computes the same date whenever its first addition fits |
| `Civil.BuildDate` | hermit-cli/build_support.rs:134-141 | no u64 seconds value overflows, and the date is the calendar date of its day, in 1970 or later |
| `CacheManifest.Manifest.Append` | bootstrap/rust-deps-cache-key.rs:560-568 | appends exactly the record's encoding |
| `CacheManifest.EncodeNext` | bootstrap/rust-deps-cache-key.rs:560-568 | appending a record's bytes appends the record to the list |
| `CacheManifest.RecordDecodes` | bootstrap/rust-deps-cache-key.rs:551-568 | a record is determined by any bytes it starts, and so is what follows it |
| `CacheManifest.UniquelyDecodable` | bootstrap/rust-deps-cache-key.rs:551-568 | two lists of records of any field counts and any bytes that write the same bytes are the same list |
| `CacheWalk.WalkedExactly` | bootstrap/rust-deps-cache-key.rs:463-521 | the walk refuses exactly when it can reach something unreadable or a directory that leads back above itself, and otherwise collects exactly the reachable links and non-directories outside the generated paths |
| `CacheWalk.Walker.Walk` | bootstrap/rust-deps-cache-key.rs:467-521 | terminates on every file system; whatever order names are listed in, succeeds exactly when that walk does, restores the stack and adds exactly its paths |
| `CacheWalk.Walker.WalkNames` | bootstrap/rust-deps-cache-key.rs:505-519 | the loop over a directory's names, in any order |
| `Ordered.OneOrder` | bootstrap/rust-deps-cache-key.rs:295-299 | a set has one listing in a strict order, so the order directories were listed in is gone |
| `CacheKey.RecordPath` | bootstrap/rust-deps-cache-key.rs:570-615 | writes the link record if there is one and the record of what is there, refused exactly when unreadable |
| `CacheKey.RecordPaths` | bootstrap/rust-deps-cache-key.rs:295-304 | refused exactly when a path is unreadable or Cargo.lock is not a recorded file; otherwise the bytes are the function of the path set and of what is there that records the paths in byte order |
| `CacheKey.BytesTellInputs` | bootstrap/rust-deps-cache-key.rs:295-304 | after the same records, two recordings write the same bytes exactly when they had the same paths with the same link targets, digests and kinds |
| `CacheKey.WalkRoots` | bootstrap/rust-deps-cache-key.rs:289-293 | the walks one after another succeed exactly when no root meets an obstacle, and collect exactly what some root reaches |
| `CacheKey.OneInputs` | bootstrap/rust-deps-cache-key.rs:289-300 | the file system decides the set of recorded inputs |
| `CacheKey.WalkAndRecord` | bootstrap/rust-deps-cache-key.rs:289-304 | walking and then recording writes the bytes of that one set of inputs, whatever order names were listed in; refused exactly for an obstacle, an unreadable input or a missing Cargo.lock |
| `BoundedCapture.Stream.constructor` | ci/build-compatible-cli.rs:154-169 | a new stream is valid with nothing read |
| `BoundedCapture.Stream.Drain` | ci/build-compatible-cli.rs:173-200 | over any chunking and any number of calls the file is the consumed input up to the limit; the stream is past the limit exactly when some call has answered over; one call reads at most 256 KiB |
| `BoundedCapture.Poll` | ci/build-compatible-cli.rs:266-303 | the polling loop ends without a reason only with both pipes read to their end within the limit |
| `BoundedCapture.Capture` | ci/build-compatible-cli.rs:266-406 | without an envelope failure both files hold the child's complete streams within the limit; a stream read past the limit always leaves a reason, and the limit is blamed only for such a stream |
| `LeastSquares.SumCombines` | benchmarks/getpid_cost.rs:541-548 | sums over the points combine as their terms do |
| `LeastSquares.FitResiduals` | benchmarks/getpid_cost.rs:536-552 | the fitted line solves the normal equations |
| `LeastSquares.FitMinimises` | benchmarks/getpid_cost.rs:533-552 | every other line's squared error exceeds the fit's by exactly the squared gap between the lines |
| `LeastSquares.FitExists` | benchmarks/getpid_cost.rs:533-552 | a line is returned exactly for points with two distinct x values |
| `LeastSquares.FitRecoversLine` | benchmarks/getpid_cost.rs:533-552 | points on a line with two distinct x values are fitted by that line |
| `GetpidCost.SortSorts` | benchmarks/getpid_cost.rs:525-526 | the sorted samples are an ascending permutation |
| `GetpidCost.Summarize` | benchmarks/getpid_cost.rs:587-629 | points, counts and fit of a variant; any failed run, failed warmup or rejected statistics withholds the fit |
| `GetpidCost.NoiselessPoints` | benchmarks/getpid_cost.rs:560-566 | noiseless runs leave exactly the positive counts to fit, each at its cost |
| `GetpidCost.NoiselessSummary` | benchmarks/getpid_cost.rs:224-234 | for every accepted count list, times F at zero and F+D+cN at positive N are summarised to slope c and intercept F+D |
| `GetpidCost.FittingZeroIsBiased` | benchmarks/getpid_cost.rs:555-559 | fitting counts 0 and 2 would give slope c + D/2 |
| `Descendants.DescendantTree` | ci/native-baseline.rs:236-249 | for any parent map, cycles and self-parents included, each process from which the root is reachable by parent links exactly once, the root first and each after its parent |
| `Descendants.AllListed` | ci/native-baseline.rs:236-249 | a finished worklist holds every descendant |

## Left out

- Parsing and serialisation of JSON and TOML, of nextest test names and of skip sidecars: the models start from typed values; a line that does not decode is `Malformed`.
- Error messages: a refusal is one value.
- `TestResult` and `TestAttemptResult` are not part of this model beyond the fields their callers set; their own validation is assumed to accept what the callers build.
- `EventInventory::from_bytes` beyond its two counts, and its comparison with the CPU binary map.
- Reconcile: the record count is taken to fit 64 bits, as a vector's length does; reading the record files is not modelled.
- Publish: the same bound on the record count; argument handling, the environment and the writing of reports are not modelled.
- CancelOne: the successor of the largest 64-bit attempt count is not wrapped.
- Rows that are not as the event stream leaves them (already classified or skipped) before the skip pass, which its caller never supplies.
- CaptureQuota.Step: the 16-byte counter write, and the creation of a capture file with its contents, are each one step, so a crash leaves no half-written file.
- SharedPopulation.Step: writing one workload, a rename, one envelope validation, and the envelope's write and rename are each one step; a removal may stop anywhere.
- Durability is a position in the sequence of counter writes that only moves forward; a flush moves it at least to the flushing wrapper's own write. A change to the counters by anything but a wrapper is not modelled.
- Lock acquisition's two-second bound, the compiler itself, and the input recapture of the compiler wrapper.
- Outside changes to a shared population are modelled only once it has an envelope; a change while it is being built, the ages that make a directory stale, and legacy and Cargo-log directories are not. An envelope lists names in declared order, where the source's is sorted.
- `population_key` is an opaque key that decides the built bytes; SHA-256 is not modelled.
- The known-gap history gate, the source scan for declared tests, the signature language (a parameter of the judge) and the node's log lines.
- CacheWalk.Walker.Walk: what a name leads to is a function of the directory that holds it; a path is its list of names, where the source joins them with slashes into the bytes that are then recorded; `WalkAndRecord` takes that joining as a parameter.
- BytesTellInputs: compares recordings that follow the same earlier records (tool versions and settings), which are not modelled; digests stand for file contents.
- BoundedCapture.Capture: the clock is a number of polls, signals and process groups are arbitrary answers, and failing pipe setup before the loop is not modelled.
- Floating-point rounding: the benchmark's arithmetic is over exact reals, so the source's finiteness test is the test for a zero variance.
- The rest of the repository (the deterministic scheduler, guest tables, installers, timing harnesses and inventory merging) would add easier members or foreign effects.
