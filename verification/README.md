# Heindall: a verified model of the nearest-neighbour engine

Heindall scores card transactions by asking how many of the five nearest references are fraud. This
project models the engine that answers, the file its index lives in, the date and list lookups that
feed the query vector, and the load balancer in front of it. Everything is proved by the Dafny
verifier: `dafny verify dfyconfig.toml`.

## What is modelled

**The index.** References are 14-component vectors of 16-bit integers with a label. The builder splits
them into a power-of-two number of lists, halving along the dimension of largest variance, stores a rounded
centroid and a bounding box per list, sorts each list by distance to the centroid, and transposes rows into blocks
of eight lanes: `Variance`, `Split`, `Separation`, `Build`, `BuildResults` and `Builder`. `IndexData` holds the flat
slices as stored; `Observed` is the logical view a search sees (lists of rows, centroids, boxes).

**The search.** `SearchTheory` describes probing, widening, repairing and late expansion as functions of
the logical view. `SearchState`, `Selection`, `Kernels`, `Scan` and `QuantizedIndex` are the loops over
arrays and bit masks, each proved to compute those functions. `TopFive`, `ProbeOrder`, `Exactness`, `Runs`
and `SearchResults` prove what the functions mean against brute force: the first five of all references in
`(distance, id)` order. `WhenExact`, `Abandonment` and `ScalarStages` say exactly when a search holds these,
with full and with abandoned distances, and `Counterexamples` gives inputs on which it does not.

**The file.** `IndexFile` and `IndexReaders` hold the writer, the validator, the reader that consumes a
stream and the reader that computes positions over the mapped bytes.

**Around the engine.** `CivilDate` (day counts, minutes, weekdays), `KnownMerchant` (the quoted-id
scanner), `HttpFraming` (reading one message), `Balancer` (tickets and retry for one request) and
`Interleaving` (every interleaving of many requests).

## Main results

- `EndToEnd.PreprocessAndAnswer` is the whole path, from references to a file, back to an index, to an
  answer. There is an answer exactly when the cluster count the builder settles on is a power of two of at
  most 8192. The answer is that of an index that serves exactly the references; with AVX2, and every list
  within reach of the first probes, it is the brute-force answer. `EndToEnd.AnswerFromFile` is its second
  half for any file at all.
- `WhenExact.WidenedIsExactIff` and `WhenExact.LateIsExactIff`: with full distances, a search holds the five
  nearest references after its second stage if and only if it repaired over five rows or more, or the lists
  within its reach store them; after a late stage, if and only if the lists that stage scans store none of the
  first four (after a repair), or the 128 nearest lists store all five (without one). A search whose last state is
  exact - the late one where its count calls for it, whatever it held before, and the second one elsewhere -
  answers what brute force does (`WhenExact.ExactAnswer`); `Counterexamples.LateExpansionCanCorrect` is a wrong count
  that the late stage puts right. `EndToEnd.ServedStagesAreExactIff` puts this on every built or loaded index over
  quantised data, with AVX2.
- `ScalarStages.ScalarWidenedIsExactIff` and `ScalarStages.ScalarLateIsExactIff`: without AVX2 the same holds if
  and only if, in addition, no scanned row breaks a tie: a row with a smaller id than the fifth nearest, farther
  than it, with a partial sum exactly at the fifth distance, and with five rows no farther than that before it.
  (On top of a repair all slots are taken, so there a late stage must meet no such row wherever it comes.) When
  a repair has run over five rows or more, the five distances are the true ones in any case
  (`Abandonment.ScalarDistancesAreNearest`).
- `Builder.BuildIvfIndex`: for every cluster count, the index built holds every reference once, in order, with tight
  boxes and rounded means. At every split the lists of the lower half come before those of the upper half along the
  dimension in which their rows vary most (`Separation.SeparatedIsParted`), and list c of k over n references has
  floor((n + reverse(c)) / k) rows, where reverse(c) is c with its bits in reverse order
  (`Split.HalvingsAreSized`).
- `IndexFile.WriteThenReadRestores`, `IndexReaders.WriteThenLoadRestores` and the contracts of the two
  readers: a round trip, and agreement of the readers on every byte string.
- `CivilDate.DaysCountFromEpoch`: the arithmetic counts days one by one, over all years.
- `HttpFraming.FramingIgnoresChunking` and `HttpFraming.ReadingStopsAtTheFrame`: how a stream is split into
  reads does not matter. `HttpFraming.FirstFieldDeclares` says, byte by byte, which line declares the length.
- `Interleaving.RunsKeepInvariant` and its consequences: fairness of the attempts made, complete retry and
  cleared pools in every interleaving.

## Where the code does less than its documentation says

`docs/architecture.md` promises the five nearest labels. The model follows the code, which keeps that
promise, and others, under conditions only. For each there is the exact condition, and an input on which the
code does not meet it:

| what the code does | exactly when it is right | an input where it is not |
|---|---|---|
| A first count that is not ambiguous, or one with repair off, is not looked into further, outside the late-stage queries | `WhenExact.WidenedIsExactIff` | `Counterexamples.UnambiguousCountCanBeWrong` |
| Repair is a no-op while a slot is vacant | `Exactness.RepairIsExactIff`, `WhenExact.WidenedIsExactIff` | `Counterexamples.RepairCanDoNothing` |
| An expansion after a repair rescans lists that the repair scanned without marking them | `SearchResults.LateExpansionIsExactIff`, `WhenExact.LateIsExactIff` | `Counterexamples.LateExpansionCanCountTwice` |
| A partial sum that ties the cutoff can displace a true neighbour in the scalar kernels | `Exactness.AbandonedOfferIsExactIff`, `Abandonment.AbandoningScanIsExactIff`, `ScalarStages.ScalarWidenedIsExactIff` | `Counterexamples.AbandonmentCanMiscount` |
| The mapped reader runs off the end of a valid file without rows that ends after its fixed sections, where the stream reader accepts it | `IndexReaders.LoadBinaryIndexMmap` | `Counterexamples.ReadersDisagree` |
| Before 1970 the truncated remainder can make a weekday seven too small | `CivilDate.WeekdayIsTrueIff` | `Counterexamples.EarlySundayIsNegative` |
| The known-merchant scan also finds the key's own name and the separators between quotes | `KnownMerchant.PrintedListMembership` | `Counterexamples.KeyNameIsFound` |
| An empty merchant id can run off the end of the section | `KnownMerchant.KnownMerchantJSON` | `Counterexamples.EmptyIdRunsOff` |
| When the ticket counter wraps, the rotation goes on only if the number of upstreams divides 2^64 | `Balancer.WrapKeepsRotationIff` | `Counterexamples.WrapRepeatsAnUpstream` |

## Model

| member | source | states |
|---|---|---|
| EndToEnd.PreprocessAndAnswer | apps/api/internal/fraud/binary_index.go:29-35 | Building, writing, loading, configuring and querying: an answer exists iff the settled cluster count is at most 8192; it is that of an index serving exactly the references, with the probe counts that the requested ones come to case by case; with AVX2 and all lists probed it is the brute-force count, or the forced 3 |
| EndToEnd.AnswerFromFile | apps/api/internal/fraud/quantized.go:57-62 | For any file: unreadable, stopped by the mapped reader, or the answer of the stored index with the configured probe counts |
| EndToEnd.WriteIvfBinaryIndex | apps/api/internal/fraud/binary_index.go:29-35 | Refused iff the dataset is empty or the requested count fits it without being a power of two; else the file is readable iff it has at most 8192 lists, and loading it serves the references |
| EndToEnd.LoadSearcher | apps/api/internal/app/server.go:94-101 | Loading rejects exactly the unreadable files; the configured index shows the same rows, with probe counts brought into range |
| EndToEnd.ServedStagesAreExactIff | apps/api/internal/fraud/ivf_search.go:19-44 | With AVX2 over a built or loaded index of quantised data: exactly when the state after the second and after the late stage holds the five nearest references; where the state counted last does, the answer is the brute-force one |
| EndToEnd.DoubtIsRepaired | apps/api/internal/fraud/ivf_search.go:27-30 | With repair on, an ambiguous first count is repaired when probes times floor(n/k) is at least five |
| EndToEnd.ServedFullProbingIsExact | apps/api/internal/fraud/ivf_search.go:19-44 | With AVX2 and every list among the first probes, the answer is the brute-force count except for the query family whose denial is forced to 3 |
| EndToEnd.ServedScalarIsExactIff | apps/api/internal/fraud/ivf_search.go:19-30 | Without AVX2: exactly when the state after the second and after the late stage holds the five nearest references, ids and labels included; after a repair its distances are theirs in any case; where the state counted last is exact, the answer is the brute-force one |
| EndToEnd.ServedCounts | apps/api/internal/fraud/quantized.go:77-118 | The probe counts a served index works with, from those asked for at build time and those asked for when it is served, case by case |
| EndToEnd.ServedIsSpanSafe | apps/api/internal/fraud/ivf_search_avx2_amd64.s:3-14 | On quantised references and queries no component difference, to a row or to a centroid, overflows a squared 32-bit lane |
| EndToEnd.ProbesOfferEnough | apps/api/internal/fraud/ivf_search.go:46-58 | The lists a probe count selects offer at least floor(n/k) candidates each |
| EndToEnd.AcceptedOffsetsAreSafe | apps/api/internal/fraud/binary_index.go:239-270 | Over accepted offsets every row, label and block position a scan forms lies in its table |
| EndToEnd.ReadableIsSearchable | apps/api/internal/fraud/binary_index.go:148-237 | Whatever file a reader accepts, the loaded index meets what the search methods require; below version 4 its transposed centroids are its centroids |
| EndToEnd.BuiltOffsetsAreAcceptedIff | apps/api/internal/fraud/binary_index.go:239-270 | The validator accepts a built index iff it has at most 8192 lists |
| EndToEnd.LoadedServes | apps/api/internal/fraud/binary_index.go:108-110 | A built index comes back from its file with the same rows, boxes, centroids, settings and kernels |
| EndToEnd.ConfiguredServes | apps/api/internal/fraud/quantized.go:77-89 | New probe counts leave an index serving the same references, with the counts in range |
| EndToEnd.ClusterCountIsUnique | apps/api/internal/fraud/ivf_build.go:19-28 | The request and the dataset size settle one cluster count |
| Exactness.RepairIsExact | apps/api/internal/fraud/ivf_search.go:400-416 | With five slots filled, the lists a repair skips cannot improve on what it returns: the result is the best five of all rows |
| Exactness.RepairIsExactIff | apps/api/internal/fraud/ivf_search.go:400-416 | A repair makes a state exact iff the last slot was filled before it or no unprobed list holds a row |
| Exactness.RepairKeepsBest5 | apps/api/internal/fraud/ivf_search.go:400-416 | A repair that runs returns the best five of the probed and the visited lists, and its last distance never exceeds the frozen cutoff |
| Exactness.LastSlotFilledIff | apps/api/internal/fraud/ivf_search.go:404-407 | The cutoff differs from the sentinel iff at least five candidates were offered |
| Exactness.ExpandKeepsBest5 | apps/api/internal/fraud/ivf_search.go:60-71 | Expanding keeps the best five of everything probed, and marks exactly the selected lists |
| Exactness.ScanListsKeepsBest5 | apps/api/internal/fraud/ivf_search.go:211-225 | Scanning lists not scanned before keeps the best five of everything scanned |
| Exactness.FullDistanceSearchIsExact | apps/api/internal/fraud/ivf_search.go:19-44 | A search whose kernels measure full distances, within the 32-bit span, goes through the same states as the mathematical one |
| Exactness.CentroidDistsAgree | apps/api/internal/fraud/ivf_search.go:73-78 | Every kernel ranks centroids by the same distances |
| Exactness.AbandoningRefinesFullDistance | apps/api/internal/fraud/ivf_search.go:291-398 | Probing, expanding and repairing with abandoned distances probe the same lists and leave the same five distances as full ones |
| Exactness.AbandoningScanKeepsDists | apps/api/internal/fraud/ivf_search.go:291-326 | One scan with abandoned distances leaves the same five distances as a scan with full ones |
| Exactness.AbandonedOfferIsExactIff | apps/api/internal/fraud/ivf_search.go:476-488 | An abandoned offer differs from the full one iff the partial sum ties the cutoff, the true distance exceeds it and the id is smaller than the last slot's |
| Exactness.CandidatesAreReferences | apps/api/internal/fraud/ivf_build.go:101-141 | The candidates of all lists of an index are the references at their distances |
| Exactness.ExactStateIsNearest5 | apps/api/internal/fraud/ivf_search.go:506-520 | A state that is best over all lists equals the brute-force five, slot by slot |
| Exactness.Nearest5IsBest5 | apps/api/internal/fraud/search.go:17-51 | Offering the references in order leaves the five least of them |
| SearchResults.ProbeExpandRepairIsExact | apps/api/internal/fraud/ivf_search.go:46-71 | Probing n lists, expanding to m and repairing leaves exactly the five nearest references when the first probes offer five rows |
| SearchResults.RepairedSearchIsExact | apps/api/internal/fraud/ivf_search.go:19-44 | A search that repairs and runs no late stage returns the brute-force count |
| SearchResults.AllProbedIsExact | apps/api/internal/fraud/ivf_search.go:46-71 | Once every list is probed, expansion and repair change nothing and the state is the brute-force one |
| SearchResults.FullProbingEqualsBaseline | apps/api/internal/fraud/ivf_search.go:19-44 | Full probing returns the brute-force count, except where the late denial is forced |
| SearchResults.LateExpansionIsExactIff | apps/api/internal/fraud/ivf_search.go:31-42 | From an exact state an expansion stays exact iff no rescanned list holds one of the four nearest rows |
| SearchResults.ExpandScansUnmarked | apps/api/internal/fraud/ivf_search.go:60-71 | An expansion scans exactly the selected lists that are not marked, in order |
| WhenExact.BestOfSomeIsExactIff | apps/api/internal/fraud/ivf_search.go:46-58 | The best five of some lists are the five nearest references iff the lists store these |
| WhenExact.WidenedIsExactIff | apps/api/internal/fraud/ivf_search.go:19-30 | After the second stage: exact iff it repaired over five rows or more, or the lists within its reach store the nearest references |
| WhenExact.LateIsExactIff | apps/api/internal/fraud/ivf_search.go:31-42 | After a late expansion: following a repair, exact iff the lists it scans store none of the first four nearest; else iff the 128 nearest lists store all five |
| WhenExact.WidenedIs | apps/api/internal/fraud/ivf_search.go:19-30 | Probing, then expanding an ambiguous count, is one probe of the larger selection; a repair follows only where five rows were offered |
| WhenExact.EnoughRowsIff | apps/api/internal/fraud/ivf_search.go:404-407 | The repair guard lets a search pass iff the probed lists hold five rows |
| WhenExact.ExactAnswer | apps/api/internal/fraud/ivf_search.go:19-44 | A search answers the brute-force count, or the forced 3, when the state it counts last is exact: the late one where the count after the second stage calls for it, whatever that stage held, and the second one elsewhere |
| WhenExact.LastStateAnswers | apps/api/internal/fraud/ivf_search.go:31-43 | The same for any kernels: the late state decides when the count and the query call for it, else the second one |
| WhenExact.RepairsAreApart | apps/api/internal/fraud/ivf_search.go:418-453 | No query calls for both late stages, and the forced denial applies only where the approval is looked into |
| Abandonment.AbandoningScanIsExactIff | apps/api/internal/fraud/ivf_search.go:291-326 | A scalar scan from an empty state equals the full-distance scan iff no row breaks a tie, read from true distances, partial sums and ids |
| Abandonment.TiesCutoffIff | apps/api/internal/fraud/ivf_search.go:328-398 | An abandoned distance ties a cutoff below the true distance iff a partial sum is exactly the cutoff |
| Abandonment.SlotWithinIff | apps/api/internal/fraud/ivf_search.go:490-504 | Slot k of an exact scan is within d iff more than k of its rows are |
| Abandonment.ScalarAnswerIsExactIff | apps/api/internal/fraud/ivf_search.go:46-71 | With abandoned distances, probe, expand and repair return the five nearest references iff no row of the lists they scan breaks a tie with the fifth |
| Abandonment.ScalarProbeIsExactIff | apps/api/internal/fraud/ivf_search.go:46-71 | Without a repair they do iff the lists store the nearest references and no row breaks a tie |
| ScalarStages.ScalarFirstStageIff | apps/api/internal/fraud/ivf_search.go:46-58 | The first stage of a scalar search is the full-distance one iff no row it scans breaks a tie |
| ScalarStages.ScalarWidenedIsExactIff | apps/api/internal/fraud/ivf_search.go:19-30 | After the second stage a scalar search holds the five nearest references iff no row it scans breaks a tie with the fifth and, unless it repaired, the lists within its reach store them |
| ScalarStages.ScalarLateIsExactIff | apps/api/internal/fraud/ivf_search.go:31-42 | After a late expansion following a repair: iff it held them before and the lists scanned again store none of the first four and no row that ties the fifth; without a repair: iff the largest selection stores them and no row breaks a tie |
| ScalarStages.RescanIsExactIff | apps/api/internal/fraud/ivf_search.go:291-326 | A further scan never mends a displaced state, and keeps an exact one iff no row beats its last slot |
| ScalarStages.ScalarAnswer | apps/api/internal/fraud/ivf_search.go:19-44 | A scalar search answers the brute-force count, or the forced 3, when the state it counts last is exact, by the two conditions above |
| Abandonment.ScalarDistancesAreNearest | apps/api/internal/fraud/ivf_search.go:400-416 | The five distances of a scalar search are the five least ones, and none exceeds the frozen cutoff |
| Abandonment.RepairedIsOneScan | apps/api/internal/fraud/ivf_search.go:400-416 | Probing, expanding and repairing is one scan over lists that exact distances settle |
| Abandonment.RepairOrderIsDistinct | apps/api/internal/fraud/ivf_search.go:400-416 | That scan visits each list at most once; every list left out lies beyond the cutoff |
| Counterexamples.AbandonmentCanMiscount | apps/api/internal/fraud/ivf_search.go:328-398 | A built one-list index on which a scalar search counts one fraud where there is none among the five nearest |
| Counterexamples.UnambiguousCountCanBeWrong | apps/api/internal/fraud/ivf_search.go:544-549 | A built index on which a first count of 0 stands though a fraud is the nearest reference |
| Counterexamples.RepairCanDoNothing | apps/api/internal/fraud/ivf_search.go:404-407 | A built index on which a first probe of two rows disables the repair, so two of four frauds are missed |
| Counterexamples.LateExpansionCanCountTwice | apps/api/internal/fraud/ivf_search.go:31-42 | A built index and a query on which the repaired count of 2 is exact and the late expansion counts one reference twice: the answer is 3 |
| Counterexamples.LateExpansionCanCorrect | apps/api/internal/fraud/ivf_search.go:39-42 | A built index and a query on which the count after the second stage is a wrong 5, not in doubt, and the late expansion of a denial gives the exact 4 |
| Counterexamples.SplitFollowsValues | apps/api/internal/fraud/ivf_build.go:53-74 | Four references whose values alternate: any index built over two lists puts the two low ones in the first, not the two with low ids |
| Counterexamples.ReadersDisagree | apps/api/internal/fraud/binary_index_linux.go:117-118 | A written file without rows that the stream reader accepts and the mapped reader panics on |
| Counterexamples.EarlySundayIsNegative | apps/api/internal/fraud/vectorize_json.go:387-392 | 1969-12-28, a Sunday, is weekday -1 |
| Counterexamples.KeyNameIsFound | apps/api/internal/fraud/vectorize_json.go:298-309 | On an empty printed list the key's own name is found |
| Counterexamples.EmptyIdRunsOff | apps/api/internal/fraud/vectorize_json.go:298-309 | An empty id runs off the end of a section without adjacent quotes |
| Counterexamples.WrapRepeatsAnUpstream | apps/load-balancer/src/round_robin.rs:18-25 | With three upstreams the tickets on either side of the wrap-around choose the same one |
| TopFive.OfferKeepsBest5 | apps/api/internal/fraud/ivf_search.go:258-262 | One offer of a new candidate keeps the best five |
| TopFive.OffersKeepBest5 | apps/api/internal/fraud/ivf_search.go:490-504 | Any run of offers with new ids keeps the best five of everything offered |
| TopFive.OfferOrderIrrelevant | apps/api/internal/fraud/ivf_search.go:490-504 | Two runs that offer the same candidates end in the same state, ties included |
| TopFive.Best5IsUnique | apps/api/internal/fraud/ivf_search.go:506-513 | Only one state is the best five of a set with distinct ids |
| TopFive.OfferActsOnDists | apps/api/internal/fraud/ivf_search.go:490-504 | The distances after an offer are the old ones with the new one inserted, whatever the ids |
| TopFive.OffersChangeNothingIff | apps/api/internal/fraud/ivf_search.go:490-504 | Offers never worsen a slot, and change the state iff one of them beats the last slot |
| TopFive.CountIsFraudSlots | apps/api/internal/fraud/ivf_search.go:522-530 | The count is the number of occupied slots labelled fraud |
| ProbeOrder.Top | apps/api/internal/fraud/ivf_search.go:80-108 | The first n clusters in (distance, index) order exist and are listed in that order |
| ProbeOrder.TopIsUnique | apps/api/internal/fraud/ivf_search.go:80-108 | Only one list is the first n clusters |
| ProbeOrder.TopIsPrefix | apps/api/internal/fraud/ivf_search.go:60-71 | A smaller probe count selects a prefix of what a larger one selects |
| ProbeOrder.TopOfAllIsAll | apps/api/internal/fraud/ivf_search.go:80-108 | Selecting as many clusters as there are selects all |
| ProbeOrder.NearestFirst | apps/api/internal/fraud/ivf_search.go:80-108 | Selected clusters come nearest first, ties by smaller index, and no cluster left out comes before one of them |
| SearchTheory.ExpandAfterProbe | apps/api/internal/fraud/ivf_search.go:46-71 | Probing n lists and expanding to m scans exactly the m nearest, each once, nearest first |
| SearchTheory.ExpandScansEachOnce | apps/api/internal/fraud/ivf_search.go:60-71 | Lists named once and not probed before are each scanned once, in order, and marked |
| SearchTheory.RepairTargetsAreDistinct | apps/api/internal/fraud/ivf_search.go:408-415 | A repair visits each list at most once |
| SearchTheory.RepairTargetsMembers | apps/api/internal/fraud/ivf_search.go:408-415 | A repair visits exactly the unprobed lists whose box distance does not exceed the cutoff |
| SearchTheory.SelectedCount | apps/api/internal/fraud/ivf_search.go:80-90 | A probe count selects none when not positive, and otherwise the least of itself, the number of lists and 128 |
| SearchTheory.AmbiguousCounts | apps/api/internal/fraud/ivf_search.go:544-549 | Counts 2, 3 and 4 are in doubt, and 1 when component 9 is zero; 0 and 5 never are |
| SearchTheory.DenialFamilies | apps/api/internal/fraud/ivf_search.go:447-453 | Both denial families of queries as ranges of components |
| SearchTheory.ApprovalFamilies | apps/api/internal/fraud/ivf_search.go:418-445 | The four approval families of queries as ranges of components |
| SearchState.MarkAddsOne | apps/api/internal/fraud/ivf_search.go:536-542 | Setting one bit of one mask word marks exactly one more cluster below 8192 |
| SearchState.IvfSearchState.constructor | apps/api/internal/fraud/ivf_search.go:515-520 | A new state has five vacant slots and nothing probed |
| SearchState.IvfSearchState.HasProbe | apps/api/internal/fraud/ivf_search.go:532-534 | The mask test is membership in the set of probed clusters |
| SearchState.IvfSearchState.AddProbe | apps/api/internal/fraud/ivf_search.go:536-542 | Adds one cluster to the set, logs it while the log has room, and leaves the slots alone |
| SearchState.IvfSearchState.Insert | apps/api/internal/fraud/ivf_search.go:490-504 | Puts the candidate before the first slot it beats, in all three arrays |
| SearchState.IvfSearchState.OfferCandidate | apps/api/internal/fraud/ivf_search.go:258-262 | The scan loops' guard followed by the insertion is one offer |
| SearchState.IvfSearchState.CountFraudSlots | apps/api/internal/fraud/ivf_search.go:522-530 | Counts the occupied slots labelled fraud |
| Bits.MaskTestsBit | apps/api/internal/fraud/ivf_search.go:532-534 | Masking with one shifted bit tests that bit |
| Bits.OrSetsBits | apps/api/internal/fraud/ivf_search.go:536-542 | A bitwise or has the bits of either word |
| Bits.PowerTrick | apps/api/internal/fraud/ivf_build.go:254-256 | v & (v - 1) is zero exactly for powers of two |
| Metric.AbandonedIsTruncation | apps/api/internal/fraud/quantized.go:120-190 | An abandoned distance never overstates, is below the cutoff iff the true distance is, and is then exact |
| Metric.OrderedSumIsSum | apps/api/internal/fraud/quantized.go:120-190 | The kernels' order of dimensions visits each of the fourteen once |
| Metric.KernelOrder | apps/api/internal/fraud/quantized.go:120-190 | Which dimension each partial sum adds |
| Metric.AbandonsAtFirst | apps/api/internal/fraud/quantized.go:120-190 | An abandoned distance is the first partial sum that reaches the cutoff, or the whole sum |
| Metric.DistBounds | apps/api/internal/fraud/quantized.go:120-190 | No distance is negative or reaches the sentinel |
| Metric.Dist32IsDistIffWithinSpan | apps/api/internal/fraud/ivf_search_avx2_amd64.s:3-14 | A SIMD lane equals the 64-bit distance iff no component differs by more than 46340 |
| Metric.BoxDistIsLowerBound | apps/api/internal/fraud/ivf_search.go:455-474 | The box distance bounds the distance of every vector in the box from below |
| Metric.BoxDistIsAttained | apps/api/internal/fraud/ivf_search.go:455-474 | The box distance is the distance to the nearest point of the box, so it is the largest such bound |
| Kernels.QuantizedDistance | apps/api/internal/fraud/quantized.go:120-190 | The unrolled sum with early returns is the abandoned distance |
| Kernels.BlockLaneDistance | apps/api/internal/fraud/ivf_search.go:328-398 | The same over one lane of a transposed block |
| Kernels.Block8Distances | apps/api/internal/fraud/ivf_search_avx2_amd64.s:17-44 | The eight outputs are the 32-bit distances of the block's eight lanes; nothing else is written |
| Kernels.Block32Distances | apps/api/internal/fraud/ivf_search_avx2_amd64.s:67-78 | The thirty-two outputs are the 32-bit distances of four consecutive blocks' lanes |
| Kernels.RowMajor8Distances | apps/api/internal/fraud/ivf_search_avx2_amd64.s:83-133 | The gathered form measures eight consecutive row-major vectors |
| Kernels.BoxDistance | apps/api/internal/fraud/ivf_search.go:455-474 | The abandoned box distance decides the comparison with the cutoff exactly |
| Selection.InsertCentroid | apps/api/internal/fraud/ivf_search.go:200-209 | Shifts the farther clusters right and puts the new one after the last one no farther |
| Selection.TopIvfCentroidsScalar | apps/api/internal/fraud/ivf_search.go:80-108 | Returns the first min(nprobe, clusters, 128) clusters in (distance, index) order |
| Selection.TopIvfCentroidsAvx2 | apps/api/internal/fraud/ivf_search.go:110-159 | The blocked form returns the first clusters by the SIMD distances of the stored lanes of whole blocks, whatever these hold, and by scalar distances after them |
| Selection.TopIvfCentroidsRowMajorAvx2 | apps/api/internal/fraud/ivf_search.go:161-198 | So does the form used without transposed centroids |
| Scan.ScanIvfBlocksAvx2 | apps/api/internal/fraud/ivf_search.go:227-289 | The four-block and one-block loops offer each row of the list once, in row order, and no padding lane |
| Scan.ScanIvfBlocksUnsafe | apps/api/internal/fraud/ivf_search.go:291-326 | So does the scalar block loop, each row measured against the last slot of its turn |
| Scan.ScanIvfRows | apps/api/internal/fraud/ivf_search.go:220-224 | So does the row loop of an index without blocks |
| Scan.OfferIvf | apps/api/internal/fraud/ivf_search.go:476-488 | Offers one stored row under its recorded id |
| Scan.ScanIvfList | apps/api/internal/fraud/ivf_search.go:211-225 | Whichever loop runs, a list's rows are offered once each, in order |
| QuantizedIndex.NormalizeFixes | apps/api/internal/fraud/quantized.go:99-118 | Normalising puts the counts in range, is idempotent, and changes nothing iff they were in range |
| QuantizedIndex.InRangeIs | apps/api/internal/fraud/quantized.go:99-118 | The counts in force case by case; 8 and 24 become 8 and 16 over 16 lists |
| QuantizedIndex.QuantizedIndex.NewIvfQuantizedIndex | apps/api/internal/fraud/quantized.go:64-75 | Transposes the centroids unless that was done and brings the probe counts into range, case by case |
| QuantizedIndex.QuantizedIndex.NormalizeIvfDefaults | apps/api/internal/fraud/quantized.go:99-118 | The 64-bit steps compute the normalised counts, also where the product overflows: 8 and five times the probe count by default; the first at most the number of lists, the second between the two |
| QuantizedIndex.QuantizedIndex.SetIvfSearch | apps/api/internal/fraud/quantized.go:77-89 | Positive counts replace the current ones; the first becomes at most the number of lists, the second is raised to the first or lowered to the number of lists; the rows seen do not change |
| QuantizedIndex.QuantizedIndex.TopIvfCentroids | apps/api/internal/fraud/ivf_search.go:73-78 | Dispatches to a variant that returns the nearest lists |
| QuantizedIndex.QuantizedIndex.SearchIvfProbes | apps/api/internal/fraud/ivf_search.go:46-58 | Leaves the state of probing the nearest lists, repaired on request |
| QuantizedIndex.QuantizedIndex.ExpandIvfProbes | apps/api/internal/fraud/ivf_search.go:60-71 | Scans and marks exactly the selected lists not marked before |
| QuantizedIndex.QuantizedIndex.RepairIvf | apps/api/internal/fraud/ivf_search.go:400-416 | Scans the unmarked lists whose box reaches the frozen cutoff, marking none; no-op without boxes or with a vacant slot |
| QuantizedIndex.QuantizedIndex.SearchIvf | apps/api/internal/fraud/ivf_search.go:19-44 | The staged search returns what the logical search returns |
| QuantizedIndex.QuantizedIndex.Search5Quantized | apps/api/internal/fraud/quantized.go:57-62 | Answers 0 without a clustering, else the logical search |
| QuantizedIndex.SameView | apps/api/internal/fraud/quantized.go:5-25 | What a search sees does not depend on the probe counts, on unused row-major vectors, or on how the lanes that the selection reads are stored |
| Baseline.ExactSearcher.Search5 | apps/api/internal/fraud/search.go:17-51 | Brute force with visit-order ties counts the frauds among the first five in (distance, position) order |
| Baseline.LaterVisit | apps/api/internal/fraud/search.go:21-40 | In visit order, beating a slot takes a strictly smaller distance, because ids only grow |
| Split.BalancedSplit | apps/api/internal/fraud/ivf_build.go:53-74 | Permutes the window of ids, touches nothing outside it, writes each range slot once with the runs that halving leaves, and separates the ids at every split along the dimension in which they vary most |
| Split.SplitSeparates | apps/api/internal/fraud/ivf_build.go:58-73 | Sorting along the widest dimension and splitting both halves separates the whole window, in whatever order the halves end |
| Split.HalvingsAreSized | apps/api/internal/fraud/ivf_build.go:70-73 | Run c of k over n ids has floor((n + reverse(c)) / k) of them |
| Split.HalvingsTile | apps/api/internal/fraud/ivf_build.go:53-73 | The runs cut the window into consecutive pieces |
| Separation.SeparatedIsParted | apps/api/internal/fraud/ivf_build.go:53-74 | Lists over separated ids lie apart: at every split each row of the lower lists comes before each row of the upper ones by (component, id) along the widest dimension |
| Variance.MaxVarianceDimension | apps/api/internal/fraud/ivf_build.go:76-99 | The two passes find the first dimension of the largest variance of the window |
| Variance.VarianceIsMeanDeviation | apps/api/internal/fraud/ivf_build.go:91-92 | Mean of squares less squared mean is the mean squared distance from the mean, and never negative |
| Variance.NoVarianceIff | apps/api/internal/fraud/ivf_build.go:91-92 | It vanishes iff the component is the same in every vector |
| Split.IsPowerOfTwo | apps/api/internal/fraud/ivf_build.go:254-256 | The bit test accepts exactly the powers of two |
| Split.HighestPowerOfTwoLE | apps/api/internal/fraud/ivf_build.go:258-267 | The doubling loop finds the largest power of two not above v |
| Sorting.SortBySorts | apps/api/internal/fraud/ivf_build.go:60-69 | The sort is a permutation in (key, id) order |
| Sorting.SortWindow | apps/api/internal/fraud/ivf_build.go:59-69 | Sorts a window of the ids in place and leaves the rest |
| ClusterStats.RoundDivRounds | apps/api/internal/fraud/ivf_build.go:244-252 | The quotient is rounded to nearest, halves away from zero, and stays in any interval that holds the values |
| ClusterStats.ComputeClusterStats | apps/api/internal/fraud/ivf_build.go:186-209 | Fills one row of the tables: the tightest box of the members and, for a nonempty cluster, their rounded mean, which lies inside the box |
| ClusterStats.TightBoxIsSmallest | apps/api/internal/fraud/ivf_build.go:187-204 | Every box that holds the members holds their tight box |
| Layout.SlotIndexIsInjective | apps/api/internal/fraud/ivf_build.go:158-166 | Different (row, dimension) pairs never share a slot of the blocks |
| Layout.SlotOfLane | apps/api/internal/fraud/ivf_build.go:158-166 | Component d of lane l of block b sits at 112 b + 8 d + l |
| Layout.RowIsRead | apps/api/internal/fraud/ivf_search.go:291-326 | Row i of list c is read from lane i mod 8 of block i / 8 of the list, its label 1 is fraud and its id is the recorded one |
| Transpose.BuildIvfBlocks | apps/api/internal/fraud/ivf_build.go:150-169 | Every row reads back from its lane; no slot is overwritten |
| Transpose.BuildCentroidBlocks | apps/api/internal/fraud/ivf_build.go:171-184 | The centroids transposed, zeros in the padding lanes |
| Transpose.TransposeTableTransposes | apps/api/internal/fraud/ivf_build.go:171-184 | Reading a lane of the transposed centroids gives back the centroid |
| Build.MaterializeIvf | apps/api/internal/fraud/ivf_build.go:101-141 | Offsets follow the ranges, each position holds the row and label its recorded id names, ids are permuted, and each list is the sorted range with its statistics |
| Build.FinishedOffsets | apps/api/internal/fraud/ivf_build.go:114-128 | The finished offsets ascend, and there are no more blocks than rows |
| BuildResults.BuiltPermutation | apps/api/internal/fraud/ivf_build.go:121-126 | The recorded ids list 0..n-1, each once |
| BuildResults.BuiltRow | apps/api/internal/fraud/ivf_build.go:121-126 | For any cluster count, row i of list c, read from its lane, is the reference whose id is recorded there |
| BuildResults.BuiltRepresents | apps/api/internal/fraud/ivf_build.go:101-141 | The lists hold every reference once, with its vector and label |
| BuildResults.MaterializedIsWellBuilt | apps/api/internal/fraud/ivf_build.go:101-141 | Boxes are tight and cover their rows, centroids are rounded means inside them, lists are in (centroid distance, id) order, have the lengths of the runs and lie apart at every split |
| BuildResults.SortKeepsSums | apps/api/internal/fraud/ivf_build.go:216-232 | Reordering a cluster keeps its component sums, so its centroid is still the mean |
| Builder.BuildIvfIndex | apps/api/internal/fraud/ivf_build.go:15-46 | Refuses an empty dataset or a count that fits it without being a power of two; else, for any count, builds an index that holds all references in well-built lists, separated at every split, with the settled cluster count and the probe counts case by case |
| Builder.ClusterCounts | apps/api/internal/fraud/ivf_build.go:19-28 | A fitting power of two as requested, 8192 by default, else the largest power of two that fits |
| Builder.Flatten | apps/api/internal/fraud/ivf_build.go:30-38 | The flat tables hold the references row by row and the ids are 0..n-1 |
| IndexFile.ValidateIvfOffsets | apps/api/internal/fraud/binary_index.go:239-270 | Accepts exactly the offsets that partition the rows over at most 8192 lists, with the blocks each list needs |
| IndexFile.SectionsAreAligned | apps/api/internal/fraud/binary_index_linux.go:66-90 | In versions 2, 3 and 4 every 32-bit section starts on a multiple of four and every 16-bit one on a multiple of two |
| IndexFile.I16sRoundTrip | apps/api/internal/fraud/binary_index.go:78-80 | Little-endian 16-bit tables read back as written |
| IndexFile.U32sRoundTrip | apps/api/internal/fraud/binary_index.go:84-89 | Little-endian 32-bit tables read back as written |
| IndexFile.LittleEndian | apps/api/internal/fraud/binary_index.go:78-89 | Low bytes come first, negative values modulo 2^16 |
| IndexFile.HeaderIsValidIff | apps/api/internal/fraud/binary_index.go:112-124 | The accepted headers byte by byte |
| IndexFile.HeaderFields | apps/api/internal/fraud/binary_index.go:14-27 | Which bytes of a readable file hold its rows, lists, probe counts and repair bit |
| IndexFile.SectionPositions | apps/api/internal/fraud/binary_index_linux.go:66-90 | Where each section of versions 2, 3 and 4 starts |
| IndexFile.WrittenSections | apps/api/internal/fraud/binary_index.go:37-106 | Every section of a written file is where the readers look for it |
| IndexFile.WrittenIsReadableIff | apps/api/internal/fraud/binary_index.go:37-106 | A written file is readable iff it has at most 8192 lists |
| IndexFile.WriteThenReadRestores | apps/api/internal/fraud/binary_index.go:37-106 | The tables of a written file are the index's, without the row-major vectors |
| IndexReaders.WriteIvfQuantizedIndex | apps/api/internal/fraud/binary_index.go:37-106 | Completes missing centroid blocks in the index and writes the sections in file order, padding an odd number of labels |
| IndexReaders.WriteThenLoadRestores | apps/api/internal/fraud/binary_index.go:37-106 | Loading a written index restores every table and setting except the row-major vectors |
| IndexReaders.ReadBinaryHeader | apps/api/internal/fraud/binary_index.go:112-124 | Accepts exactly the headers with the magic, dimensions, scale and a known version |
| IndexReaders.LoadBinaryIndexHeap | apps/api/internal/fraud/binary_index.go:134-146 | Accepts exactly the readable files and returns their tables with defaults filled in |
| IndexReaders.LoadIvfBinaryIndexHeap | apps/api/internal/fraud/binary_index.go:148-237 | The same for the sections after the header, in versions 2, 3 and 4 |
| IndexReaders.LoadBinaryIndexMmap | apps/api/internal/fraud/binary_index_linux.go:14-36 | Rejects exactly the unreadable files and loads the same tables; panics exactly on a readable file without rows that ends after its fixed sections |
| IndexReaders.LoadIvfBinaryIndexMmap | apps/api/internal/fraud/binary_index_linux.go:52-154 | The same for the computed section positions |
| CivilDate.DivFloorRoundsDown | apps/api/internal/fraud/vectorize_json.go:418-425 | The corrected truncating division rounds down, for either sign of the divisor |
| CivilDate.NextDayAddsOne | apps/api/internal/fraud/vectorize_json.go:403-416 | The next calendar day has the next day number, across months, leap days, centuries and eras |
| CivilDate.DaysCountFromEpoch | apps/api/internal/fraud/vectorize_json.go:403-416 | The day number is the count of days from 1970-01-01, for every valid date of every year |
| CivilDate.DaysAreOrdered | apps/api/internal/fraud/vectorize_json.go:403-416 | Later dates have larger day numbers |
| CivilDate.ParsePrinted | apps/api/internal/fraud/vectorize_json.go:383-401 | A printed timestamp of years 0 to 9999 reads back as its date, and as day number times 1440 plus its minutes |
| CivilDate.LeapMorning | apps/api/internal/fraud/vectorize_json.go:383-416 | 2024-02-29T08:07 is day 19782, a Thursday, at minute 487; a byte that is no digit wraps |
| CivilDate.EpochMinutesAreOrdered | apps/api/internal/fraud/vectorize_json.go:394-401 | Minutes order timestamps exactly as their fields do |
| CivilDate.WeekdaysAdvance | apps/api/internal/fraud/vectorize_json.go:387-392 | The epoch is a Thursday and each next day has the next weekday |
| CivilDate.WeekdayIsTrueIff | apps/api/internal/fraud/vectorize_json.go:387-392 | The result is the true weekday from 1970 on; before that iff the shifted day number is not negative or a multiple of seven, and else it is seven too small |
| KnownMerchant.KnownMerchantJSON | apps/api/internal/fraud/vectorize_json.go:281-310 | True iff the section up to the first closing bracket holds the id between quotes, overlaps included; false for a start outside the data; an empty id that is not found runs off the section |
| KnownMerchant.QuotedIffInner | apps/api/internal/fraud/vectorize_json.go:298-309 | In text cut at its quotes, a quote-free id is found iff it is a whole piece with a quote on either side |
| KnownMerchant.PrintedListMembership | apps/api/internal/fraud/vectorize_json.go:281-310 | On a printed list, however spaced, the scan finds exactly the listed ids, the key's own name, and the separators between quotes |
| KnownMerchant.KnownOnPrintedList | apps/api/internal/fraud/vectorize_json.go:281-310 | In any window of a document with a printed list, for an id that is neither the key's name nor made of separators, the answer is membership; the window runs to the end of the data when the given end is not after the start or outside the data |
| KnownMerchant.NothingKnown | apps/api/internal/fraud/vectorize_json.go:288-297 | A text without the key, or without a closing bracket after its first occurrence, holds nothing |
| KnownMerchant.KeyIs | apps/api/internal/fraud/vectorize_json.go:288 | The key searched for is known_merchants between its quotes |
| HttpFraming.ParseUsize | apps/load-balancer/src/proxy.rs:235-246 | All-digit text is its decimal value capped at the largest usize, anything else 0 |
| HttpFraming.TrimAscii | apps/load-balancer/src/proxy.rs:223-233 | Removes exactly the outer white space |
| HttpFraming.TrimIsUnique | apps/load-balancer/src/proxy.rs:223-233 | Only one text is what trimming leaves |
| HttpFraming.ParseContentLength | apps/load-balancer/src/proxy.rs:202-213 | The line loop computes the declared length of a header |
| HttpFraming.FirstFieldDeclares | apps/load-balancer/src/proxy.rs:202-213 | The declared length is that of the first line whose first fourteen bytes spell content-length in any letter case and whose fifteenth is a colon, and 0 without any |
| HttpFraming.FieldDeclaresIff | apps/load-balancer/src/proxy.rs:202-221 | A line declares a length iff the name before its first colon is content-length, each letter in either case; carriage return or not, the length is that of the trimmed rest |
| HttpFraming.NoColonDeclaresNone | apps/load-balancer/src/proxy.rs:205-207 | A line without a colon declares none |
| HttpFraming.PrintedReadsBack | apps/load-balancer/src/proxy.rs:235-246 | Printed decimal numbers read back, capped at 2^64 - 1 |
| HttpFraming.DeclaredDigits | apps/load-balancer/src/proxy.rs:202-246 | A Content-Length field in any letter case declares the printed number between its blanks, capped at 2^64 - 1, and 0 for text that is not all digits |
| HttpFraming.FrameIgnoresLaterBytes | apps/load-balancer/src/proxy.rs:134-147 | Where the header ends and how long the body is depend on the stream, not on how much was read |
| HttpFraming.FrameEndIs | apps/load-balancer/src/proxy.rs:146-148 | A message is its header, the empty line and as many bytes as the header declares |
| HttpFraming.PostWaitsForItsBody | apps/load-balancer/src/proxy.rs:126-156 | A POST header in one read and its five bytes in the next are one message, complete after the second |
| HttpFraming.ReadHttpMessage | apps/load-balancer/src/proxy.rs:126-156 | The header loop and the body loop read until the first read that frames the message, and report closing, early end and failure |
| HttpFraming.ReadingStopsAtTheFrame | apps/load-balancer/src/proxy.rs:126-156 | A message is complete iff the stream holds its header and declared body; reading stops at the first read that reaches its end |
| HttpFraming.ReadingBreaksOff | apps/load-balancer/src/proxy.rs:134-156 | A failing read before the frame is complete is a failure; the peer's close is an early end after the header and a closed connection before it |
| HttpFraming.FramingIgnoresChunking | apps/load-balancer/src/proxy.rs:126-156 | Two splits of one stream give the same verdict and the same message |
| ByteSearch.IndexInPrefix | apps/load-balancer/src/proxy.rs:198-200 | Growing a text neither moves an occurrence found nor hides where one ends |
| Balancer.RoundRobin.Next | apps/load-balancer/src/round_robin.rs:18-25 | Takes one ticket of a wrapping counter and returns its remainder, also by the two-upstream shortcut |
| Balancer.FairRotation | apps/load-balancer/src/round_robin.rs:18-25 | k rounds of consecutive tickets choose each of n upstreams k times |
| Balancer.TicketsStartOver | apps/load-balancer/src/round_robin.rs:18-25 | The first n tickets choose the upstreams in their order, and every n-th choice repeats |
| Balancer.WrapKeepsRotationIff | apps/load-balancer/src/round_robin.rs:18-25 | The rotation goes on across the wrap-around iff n divides the counter's range |
| Balancer.ForwardOnce | apps/load-balancer/src/proxy.rs:96-124 | Succeeds iff a pooled connection, or without one a new one, takes the request and sends a whole message; then it returns to the pool, else it is dropped; the idle count after either in numbers |
| Balancer.ForwardWithRetry | apps/load-balancer/src/proxy.rs:72-94 | Tries each upstream at most once from the ticket's on, stops at the first that answers, fails iff none does, and clears exactly the pools that failed; the pool that served has its connection back |
| Balancer.RoundTriesAll | apps/load-balancer/src/proxy.rs:79-80 | A full round of offsets reaches every upstream |
| Balancer.TurnsDiffer | apps/load-balancer/src/proxy.rs:79-80 | Different offsets of one round reach different upstreams |
| Interleaving.RunsKeepInvariant | apps/load-balancer/src/proxy.rs:72-94 | In every interleaving, tickets are handed out once each, pools stay within their limit, and each request's attempts are a run of failures of its rotation, then at most one success |
| Interleaving.FirstAttemptsAreFair | apps/load-balancer/src/round_robin.rs:18-25 | In every reachable state, the first attempts logged by the holders of k rounds of consecutive tickets that do not straddle the wrap-around are k at each upstream |
| Interleaving.PoolsStayCleared | apps/load-balancer/src/proxy.rs:84-87 | In every reachable state a pool holds no more connections than attempts at its upstream succeeded since the last one that failed |
| Interleaving.AttemptsFollowTickets | apps/load-balancer/src/proxy.rs:79-88 | In every reachable state a request holds its own ticket, tries the upstreams of its rotation in order, and succeeds only with its last attempt |
| Interleaving.NoUpstreamTwice | apps/load-balancer/src/proxy.rs:79-88 | In every reachable state no request has tried an upstream twice |
| Interleaving.GivesUpIffAllFailed | apps/load-balancer/src/proxy.rs:79-93 | In every reachable state a request has given up iff every upstream has failed it |

## Left out

- Variance.MaxVarianceDimension: computes means and variances over the reals. Rounding of the original's 64-bit floats can settle on another dimension where two variances agree to their last digits.
- Floating point elsewhere: `Vectorize`, quantisation and the float distances of the baseline. References and queries start as 16-bit vectors, and the baseline runs on integer distances.
- QuantizedIndex.QuantizedIndex.SearchIvf: requires tables that agree with their offsets and at most 8192 lists. An index held in memory with more lists than the probe mask covers makes the original stop with an index out of range; every index loaded from a file meets the requirement (`EndToEnd.ReadableIsSearchable`).
- ScalarStages.ScalarWidenedIsExactIff: tells a doubtful scalar count from the scalar first stage itself, which is the full-distance one exactly when `ScalarStages.ScalarFirstStageIff` says.
- IndexReaders.ReadBinaryHeader: the scale field is compared as an unsigned word, which agrees with the signed comparison on the one accepted value.
- Kernels.QuantizedDistance: the fourteen unrolled steps are one loop over the fixed order of dimensions.
- Sorting.SortBySorts: `sort.Slice` under a total order is an insertion sort with the same result.
- Build.PlaceRows: the materialisation appends rows to sequences instead of filling slices of the final length at a running position.
- Unsafe pointers are array indexing; AVX2 registers are sequences of four lanes.
- Memory mapping, page preloading, file handles, and the errors of the operating system: a file is its byte sequence. Sizes that exhaust memory are not modelled.
- Loading the dataset from JSON and gzip, and the other JSON fields of a request.
- The merchant-category table and the HTTP handlers of the API.
- Sockets and timeouts: a read is a chunk of bytes, nothing at the peer's close, or a failure. A chunk may have any length.
- Bytes of a client that arrive after a complete message in the same read; the proxy drops them with its buffer.
- Balancer.ForwardOnce: connections are counted, not told apart: what the next pooled connection and a new one would do is given with the request.
- Interleaving.RunsKeepInvariant: does not model the content of requests and responses, which `Balancer.ForwardWithRetry` does for one request.
