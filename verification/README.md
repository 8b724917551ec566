# Agg-Evict, its sketches and its hash structures, in Dafny

The repository measures traffic with sketches and speeds them up with *Agg-Evict*: a cache of
16-lane buckets in front of a sketch.  A packet counts up a cached flow, takes a free lane, or
evicts a (flow, count) pair into the sketch, by a global round-robin cursor (GRR) or by least
recent use (LRU).  This project models that cache, the sketches behind it, the hash maps and
heaps of the other modules, and a few small protocols, and proves what they promise on every
stream, run or interleaving.

Every operation that works in place is a class method over arrays, specified by a function on
values; the theorems are lemmas about those functions and about whole runs of them.

| file | what it holds |
|---|---|
| `Machine.dfy` | 32-bit words with explicit wrap-around |
| `SimdMatch.dfy` | the SIMD lane match and the scalar one |
| `AggCache.dfy` | the cache: one packet, its invariant, the cache in place |
| `AggEvict.dfy` | the simulation: cached run plus drained pairs = plain run, for any lawful sketch; the reset flush |
| `TableSketch.dfy` | sketches that are tables of cells; counters in closed form |
| `CmSketch.dfy`, `FmSketch.dfy`, `TwoLevel.dfy`, `FlowRadar.dfy` | the sketches behind the cache |
| `Admission.dfy` | which flows FlowRadar admits, exactly when the cache does not matter, its reset flush |
| `ZeroFlow.dfy` | streams that contain flow 0, the "empty" key word |
| `FlowCounts.dfy` | per-flow conservation through the cache |
| `LruOrder.dfy` | LRU keeps the sixteen most recent flows |
| `GrrOrder.dfy` | GRR gives up the sixteen lanes in turn |
| `MinHeap.dfy`, `SpaceSaving.dfy`, `SpaceSavingSimd.dfy`, `SpaceSavingFlush.dfy`, `CountHeap.dfy` | sifting, Space-Saving plain, behind the cache and after its reset flush, the indexed heavy-change heap |
| `LinearMap.dfy`, `CuckooMap.dfy`, `CuckooBucketMap.dfy`, `BucketGeometry.dfy` | the hash maps as finite maps, and the memory layout of the last one |
| `RevSketch.dfy` | the heavy-change epoch hand-over |
| `CountMinReport.dfy` | the heavy-hitter threshold report |
| `SharedCounters.dfy` | counters shared by cores through compare-and-swap |
| `HugePage.dfy` | the bump allocator |

`dafny verify dfyconfig.toml` checks everything.

The shape of the main argument: a sketch is an update `upd(s, k, n)`, "n packets of flow k".
`AggEvict.Lawful` asks that updates commute and add up, on the states and flows that an
invariant allows.  `AggEvictRefinesPlain` then gives, for every stream, policy, number of
buckets and fingerprint function: pushing the cached pairs into the sketch yields exactly the
plain sketch of the stream.  `TableSketchIsLawful` reduces lawfulness to single cells, which
covers Count-Min (addition modulo 2^32), FM and the two-level bitmaps (OR), the Bloom bits and
the packet counters of FlowRadar.  Which flows FlowRadar admits is independent of the cache, for
all fingerprint functions and numbers of buckets, if and only if no flow hides behind the Bloom
bits of the others (`AdmissionIsPlainExactlyWhen`); on such flow sets the whole sketch is lawful.
Space-Saving depends on the order of its updates and gets its own theorems.

## Where the code departs from its intent

- Key word 0 means "empty" everywhere.  Most theorems speak about streams with non-zero flows (or
  fingerprints), keys with a non-zero first word and, in the bucket map, keys with a non-zero
  hash.  What the cache does with flow 0 is in `ZeroFlow`: while bucket 0 has a free lane its
  packets are parked in the first unused lane.  The reset flush still pushes a parked count
  (`FlushOnAnyStream`); it is lost exactly when a new flow of bucket 0 takes the lane first
  (`LostExactlyWhen`, `FlushedTableIsPlainExactlyWhen`).
- The reset of each cached module flushes all 16 lanes, used or not.  That is harmless for
  Count-Min (`FlushLeavesPlainTable`); for FM the exact condition is `FlushCountsPhantomFlow`,
  with the empty epoch as counterexample; FlowRadar gets the all-zero flow's Bloom bits and admits
  it (`FlushedBitsExactlyWhen`, `FlushAdmitsPhantomFlow`); in Space-Saving flow 0
  competes for the nodes, and the heap that is written out tracks all flows of the stream if and
  only if there are fewer of them than nodes, or as many and flow 0 is not in it
  (`ReportKeepsAllExactlyWhen`, with `FlushLosesTheOnlyFlow` and `FlushLosesAFlowOfTwo`).
- The sift-up stops at index 1, so the edge from the root to node 1 can be wrong until the root
  has been sifted.  `FirstReplacementMayMissMinimum` is a run where that spoils the counts;
  `LaterReplacementsHitMinimum` shows that only the first replacement of an epoch can miss, and
  `GuaranteeHoldsExactlyWhen` that the count guarantee holds throughout a run if and only if
  that replacement finds the root no larger than node 1.
- `hashmap_linear_reset` clears one row less than the table has, `countmin_reset` three counters
  less.  Both are modelled as written, with the exact consequences in their contracts.
- Beyond 2^30 packets since reset the LRU scan can fall back to lane 0: the exact condition is
  `VictimIsLeastRecentExactlyWhen`, and `MostRecentIsEvicted` a stream on which the most recent
  flow is evicted.
- The buckets of the bucketised cuckoo map stay inside their tables if and only if the row size
  divides a bucket (`PowerOfTwoFitsExactlyWhen`); with the shipped configuration they do not
  (`ShippedSizingDoesNotFit`).  The map theorems are for sizes that fit.
- A request near 2^64 bytes wraps the allocator's end address and is granted
  (`WrappedRequestIsGranted`, `LaidOutThroughoutExactlyWhen`).
- Row 4 of the two-level sketch reuses the third hash, as in the code.
- Racing threshold comparisons after a compare-and-swap can miss a report or report twice
  (`RacingReportCanBeMissed`, `RacingReportCanBeDoubled`; the exact number is `ReportCount`), and a heavy key can be missed by the
  Count-Min report when other keys carry its estimate past the threshold
  (`CollidingHeavyKeyIsMissed`, `ReportedIffOwnPacketCrosses`).

## Model

| member | source | states |
|---|---|---|
| `SimdMatch.MatchBitsAreLaneEquality` | pktreceiver/src/modules/simdbatch/flowradarsimd.c:217-231 | After three `packs` rounds, the last reading pairs of 16-bit lanes, bit i of the movemask is set exactly when lane i holds the item |
| `SimdMatch.PairSurvivesPack` | pktreceiver/src/modules/simdbatch/flowradarsimd.c:227-229 | Saturation keeps the sign bits of a pair of 16-bit comparison lanes apart |
| `SimdMatch.TzcntFindsFirst` | pktreceiver/src/modules/simdbatch/flowradarsimd.c:233-237 | A mask is zero exactly when no bit is set; otherwise its trailing zeros give the first set bit |
| `SimdMatch.SimdMatchIsScalarMatch` | pktreceiver/src/modules/simdbatch/flowradarsimd.c:217-237 | The mask is zero exactly on a miss, and on a hit its trailing zeros are the first lane equal to the item |
| `SimdMatch.ScalarMatch` | pktreceiver/src/modules/simdbatch/flowradarnosimd.c:233-246 | The scalar loop finds that same first lane, or reports a miss, and its shifted mask is decoded to it |
| `AggCache.LruScanFindsOldest` | pktreceiver/src/modules/simdbatch/cmsketchsimd.c:234-243 | The victim scan returns a least clock if some clock is below 2^30, and lane 0 otherwise |
| `AggCache.TouchKeepsInv` | pktreceiver/src/modules/simdbatch/cmsketchsimd.c:149-254 | Every packet keeps the cache invariant: lanes filled from the front, each with its flow's fingerprint and in its bucket, no fingerprint twice in a bucket, unused lanes zero |
| `AggCache.TouchLane` | pktreceiver/src/modules/simdbatch/vary-keysize/flowradarsimdv.c:593-653 | Every packet rewrites exactly one lane of its bucket, and what leaves that lane is the victim unless it is the packet's own flow |
| `AggCache.IdentityNeverCollides` | pktreceiver/src/modules/simdbatch/cmsketchsimd.c:188-199 | With single-word flows a matching lane always holds the flow itself, so counting it without a further check is right |
| `AggCache.Simd.OldestLane` | pktreceiver/src/modules/simdbatch/cmsketchsimd.c:234-243 | The loop over clocks computes the victim of the scan |
| `AggCache.Simd.MatchLane` | pktreceiver/src/modules/simdbatch/cmsketchsimd.c:172-191 | The SIMD match of a bucket gives the first lane with the key word, or none |
| `AggCache.Simd.CountOrDisplace` | pktreceiver/src/modules/simdbatch/twolevelsimd.c:233-254 | On a fingerprint match: counts the packet of the same flow, or displaces the other flow as victim |
| `AggCache.Simd.Evict` | pktreceiver/src/modules/simdbatch/cmsketchsimd.c:219-253 | On a miss in a full bucket: the lane of the GRR cursor, or the one of the LRU scan, is handed out as victim and refilled with count 1; `GrrOrder` and `LruOrder` say which flow that is on every run |
| `AggCache.Simd.Aggregate` | pktreceiver/src/modules/simdbatch/cmsketchsimd.c:149-254 | The in-place packet step over the lane arrays is the cache step on values, victim included |
| `AggEvict.StepSimulates` | pktreceiver/src/modules/simdbatch/cmsketchsimd.c:149-254 | For a lawful sketch, one packet through cache and sketch is one plain update of the drained sketch |
| `AggEvict.TouchOnPairs` | pktreceiver/src/modules/simdbatch/cmsketchsimd.c:149-254 | A packet counts up, inserts or exchanges exactly one of the cached pairs and leaves the others in place |
| `AggEvict.AggEvictRefinesPlain` | pktreceiver/src/modules/simdbatch/cmsketchsimd.c:121-254 | For every lawful sketch, policy, fingerprint function and stream of non-zero fingerprints: draining the cached pairs gives exactly the plain sketch |
| `AggEvict.FlushAllLanes` | pktreceiver/src/modules/simdbatch/cmsketchsimd.c:37-49 | Flushing every lane is draining the pairs plus one update of the all-zero flow with count 0, unless every lane is used |
| `AggEvict.ResetFlushIsPlainPlusPhantom` | pktreceiver/src/modules/simdbatch/cmsketchsimd.c:33-49 | The reset flush after any stream leaves the plain sketch, plus that phantom unless the cache is full |
| `TableSketch.TableSketchIsLawful` | pktreceiver/src/modules/simdbatch/cmsketchsimd.c:121-147 | Any table sketch whose cell contributions commute and add up may stand behind the cache, also when a flow's positions coincide |
| `TableSketch.DrainCounter` | pktreceiver/src/modules/simdbatch/cmsketchsimd.c:121-147 | Pushing pairs adds to each counter exactly the weight that hashes to it, modulo 2^32 |
| `CmSketch.CmTable.Inc` | pktreceiver/src/modules/simdbatch/cmsketchsimd.c:121-147 | The four in-place additions are the table update with weight v; with weight 1 this is the plain module's increment |
| `CmSketch.CmSketchSimd.Inc` | pktreceiver/src/modules/simdbatch/cmsketchsimd.c:149-254 | One packet changes cache and counters as the Agg-Evict step over the weighted update does |
| `CmSketch.CmSketchSimd.Flush` | pktreceiver/src/modules/simdbatch/cmsketchsimd.c:37-49 | The nested flush loop pushes all lanes of all buckets, in order |
| `CmSketch.DrainedTableIsPlain` | pktreceiver/src/modules/simdbatch/cmsketchsimd.c:121-254 | After every stream of non-zero flows, draining the occupied lanes gives the plain table |
| `CmSketch.AggEvictRefinesCountMin` | pktreceiver/src/modules/simdbatch/cmsketch.c:73-100 | After every stream of non-zero flows, each counter plus the cached counts hashing to it equals the plain counter, modulo 2^32 |
| `CmSketch.PlainCountersCountPackets` | pktreceiver/src/modules/simdbatch/cmsketch.c:73-100 | A plain counter is the number of packets that hashed to it, modulo 2^32 |
| `CmSketch.CountersCountHashes` | pktreceiver/src/modules/simdbatch/cmsketch.c:73-100 | After every stream, counter c of row r has grown by exactly the number of packets whose r-th hash is c modulo the row size, modulo 2^32; counted over stream and hash alone |
| `CmSketch.DrainedCountersCountHashes` | pktreceiver/src/modules/simdbatch/cmsketchsimd.c:121-254 | The same of the cached module, under both policies, once its occupied lanes are drained |
| `CmSketch.FlushLeavesPlainTable` | pktreceiver/src/modules/simdbatch/cmsketchsimd.c:33-49 | The flush of all lanes, unused ones included, leaves exactly the plain table |
| `FmSketch.FmSketchSimd.Inc` | pktreceiver/src/modules/simdbatch/fmsketchsimd.c:103-229 | One packet changes cache and the four words as the Agg-Evict step over OR does |
| `FmSketch.AggEvictRefinesFm` | pktreceiver/src/modules/simdbatch/fmsketchsimd.c:103-229 | After every stream of non-zero flows, the words with the bits of the cached flows are the plain words |
| `FmSketch.FmWordsHoldVotes` | pktreceiver/src/modules/simdbatch/fmsketchsimd.c:103-121 | After every stream, bit b of word r is set if and only if it was before or the r-th hash of some packet has exactly b trailing zeros, or is zero and b is 31 |
| `FmSketch.FlushCountsPhantomFlow` | pktreceiver/src/modules/simdbatch/fmsketchsimd.c:34-43 | The flushed words are the plain words if and only if the cache is full or flow 0's bits are set already |
| `FmSketch.EmptyEpochReportsFlowZero` | pktreceiver/src/modules/simdbatch/fmsketchsimd.c:34-43 | With no packet at all the flushed words differ from the plain ones |
| `TwoLevel.TwoLevelSimd.Mark` | pktreceiver/src/modules/simdbatch/twolevelsimd.c:120-187 | The eight in-place cell updates are the table update of the pair |
| `TwoLevel.TwoLevelSimd.Inc` | pktreceiver/src/modules/simdbatch/twolevelsimd.c:189-287 | One packet, with the full-pair check behind the fingerprint match, is the Agg-Evict step |
| `TwoLevel.FingerprintCacheLosesNoPair` | pktreceiver/src/modules/simdbatch/twolevelsimd.c:189-287 | After every stream with non-zero fingerprints, bitmaps plus bits of cached pairs are the plain bitmaps despite fingerprint collisions, and no bucket caches one fingerprint twice |
| `TwoLevel.ReversibleBits` | pktreceiver/src/modules/simdbatch/twolevelsimd.c:111-160 | After every stream, bit b of cell x of reversible row r is set if and only if it was before or some pair has destination hash b modulo 96 and four hashes whose low octal digits spell x |
| `TwoLevel.HashedBits` | pktreceiver/src/modules/simdbatch/twolevelsimd.c:164-183 | The same of cell c of hashed row r, found by the r-th hash of the pair modulo the row size, and by the third again for the last row |
| `TwoLevel.FingerprintIsXor` | pktreceiver/src/modules/simdbatch/twolevelsimd.c:198-199 | Bit i of the key word is set if and only if exactly one word of the pair has it |
| `TwoLevel.ZeroFingerprintExactlyWhen` | pktreceiver/src/modules/simdbatch/twolevelsimd.c:198-199 | A pair has the key word of an unused lane if and only if its two words are equal |
| `FlowCounts.EvictedPlusCachedIsTrueCount` | pktreceiver/src/modules/simdbatch/vary-keysize/flowradarsimdv.c:555-653 | For any fingerprint function, evicted plus cached counts of a flow are its packets, modulo 2^32 |
| `FlowCounts.CountsAreExact` | pktreceiver/src/modules/simdbatch/vary-keysize/flowradarsimdv.c:555-653 | On streams below 2^32 packets the same holds as plain numbers |
| `FlowCounts.TotalsAreExact` | pktreceiver/src/modules/simdbatch/vary-keysize/flowradarsimdv.c:555-653 | On such streams all evicted plus all cached counts are exactly the packets |
| `FlowCounts.RecordedFlows` | pktreceiver/src/modules/simdbatch/vary-keysize/flowradarsimdv.c:555-653 | The evicted and cached pairs of a run name exactly the flows of the stream |
| `FlowCounts.RunIsDrainedLog` | pktreceiver/src/modules/simdbatch/spacesavingsimd.c:230-336 | Any sketch behind the cache, lawful or not, is that sketch applied to the evicted pairs in order |
| `ZeroFlow.ParkedPacket` | pktreceiver/src/modules/simdbatch/cmsketchsimd.c:188-199 | A packet of flow 0 that comes while bucket 0 has a free lane is counted in the first unused lane, which stays unused |
| `ZeroFlow.ParkedCountIsLost` | pktreceiver/src/modules/simdbatch/cmsketchsimd.c:206-217 | The next new flow of the bucket takes that lane with count 1 |
| `ZeroFlow.AnyStreamRefinesPlainOfKept` | pktreceiver/src/modules/simdbatch/cmsketchsimd.c:121-254 | On every stream whatever, sketch plus pairs in occupied lanes is the plain sketch of the packets other than the parked ones |
| `ZeroFlow.FlushOnAnyStream` | pktreceiver/src/modules/simdbatch/cmsketchsimd.c:33-49 | On every stream and for every lawful sketch the reset flush leaves the plain sketch of those packets plus one update of flow 0 with the parked count, unless every lane is used; the parked count is the number of packets parked since the lane was last taken |
| `ZeroFlow.PacketsKeptParkedOrLost` | pktreceiver/src/modules/simdbatch/cmsketchsimd.c:149-254 | Every packet is counted, parked or lost |
| `ZeroFlow.LostExactlyWhen` | pktreceiver/src/modules/simdbatch/cmsketchsimd.c:188-217 | Packets of flow 0 are lost if and only if some flow takes the lane while a count is parked in it |
| `ZeroFlow.FlushedTableLacksLost` | pktreceiver/src/modules/simdbatch/cmsketchsimd.c:33-49 | On every stream below 2^32 packets the plain Count-Min table is the flushed one with exactly the lost packets of flow 0 added |
| `ZeroFlow.FlushedTableIsPlainExactlyWhen` | pktreceiver/src/modules/simdbatch/cmsketchsimd.c:33-49 | The flushed table is the plain one if and only if nothing is lost |
| `ZeroFlow.ParkedThenLost` | pktreceiver/src/modules/simdbatch/cmsketchsimd.c:188-217 | The streams [0], where nothing is lost, and [0, 1], where the packet of flow 0 is |
| `FlowRadar.WeightedIsRepeated` | pktreceiver/src/modules/simdbatch/flowradarsimd.c:113-191 | Evicting (k, n) with n >= 1 leaves exactly the state of n plain insertions of k, also when hash indices coincide |
| `FlowRadar.AdmittedOnce` | pktreceiver/src/modules/simdbatch/flowradar.c:70-150 | No flow is admitted as new twice, whatever the order and weights |
| `FlowRadar.CellsSumAdmittedFlows` | pktreceiver/src/modules/simdbatch/flowradar.c:70-150 | In every reachable state flowx and flowc are the XOR and the number of admitted (flow, hash index) pairs of the cell, and packetc its packets |
| `FlowRadar.CellsInHashes` | pktreceiver/src/modules/simdbatch/flowradar.c:111-147 | After any recordings, over the hashes themselves: bit b of a cell's flowx has flipped if and only if an odd number of (admitted flow, hash index) pairs with that bit fall on the cell; flowc has grown by all such pairs and packetc by the packets, once per index |
| `FlowRadar.LoneFlowDecodes` | pktreceiver/src/modules/simdbatch/flowradar.c:126-142 | Decoding: from an empty sketch, a cell on which exactly one such pair falls holds that flow and count 1 |
| `FlowRadar.BitsAndPacketsRefinePlain` | pktreceiver/src/modules/simdbatch/flowradarsimd.c:113-276 | After every stream, Bloom bits with the cached flows' bits, and packetc with the cached packets, equal the plain ones |
| `FlowRadar.DrainedFlowRadarIsPlain` | pktreceiver/src/modules/simdbatch/flowradarsimd.c:113-276 | If no flow is hidden, draining the occupied lanes gives the plain bits, flowx, flowc and packetc; `AdmissionIsPlainExactlyWhen` is the exact condition for equal admission |
| `FlowRadar.HiddenFlowDependsOnOrder` | pktreceiver/src/modules/simdbatch/flowradar.c:70-150 | If b's bits are among a's but not conversely, the order decides which flows are admitted |
| `FlowRadar.HiddenFlowIsCountedAfterAll` | pktreceiver/src/modules/simdbatch/flowradarsimd.c:113-276 | A flow hidden by an earlier flow of a later bucket, and not hiding it, makes the drained flow counts differ from the plain ones |
| `Admission.NoFlowHiddenExactlyWhen` | pktreceiver/src/modules/simdbatch/flowradar.c:70-150 | No flow's Bloom bits are covered by the others' if and only if every flow is new after any recordings of the others |
| `Admission.BloomBitsAreHashes` | pktreceiver/src/modules/simdbatch/flowradar.c:75-106 | After any recordings a Bloom bit is set if and only if it was before or one of the four Bloom hashes of a recorded flow is its number |
| `Admission.NewExactlyWhenUnhit` | pktreceiver/src/modules/simdbatch/flowradar.c:95-129 | From an empty sketch and after any recordings a flow counts as new if and only if one of its four Bloom hashes is hit by none of the recorded flows |
| `Admission.AdmissionIsPlainExactlyWhen` | pktreceiver/src/modules/simdbatch/flowradarsimd.c:113-276 | Over all numbers of buckets, fingerprint functions and streams of a flow set, the drained cached run admits the flows the plain run admits if and only if no flow is hidden |
| `Admission.HiddenFlowTells` | pktreceiver/src/modules/simdbatch/flowradarsimd.c:113-276 | Any flow hidden by any number of others has a stream of five packets on which the drained run admits it and the plain run does not |
| `Admission.DrainedCellsSumAdmitted` | pktreceiver/src/modules/simdbatch/flowradarsimd.c:113-276 | The cells of a drained cached run are the XOR and number of the flows its recordings admit, and their packets |
| `Admission.TwoPacketsTell` | pktreceiver/src/modules/simdbatch/flowradarsimd.c:113-276 | A literal hash function and two packets for which drained and plain flow counts differ |
| `FlowRadar.FlushedBitsExactlyWhen` | pktreceiver/src/modules/simdbatch/flowradarsimd.c:37-49 | The reset flush leaves the plain packets; it leaves the plain Bloom bits if and only if the cache is full or the all-zero flow is covered |
| `Admission.FlushAdmitsPhantomFlow` | pktreceiver/src/modules/simdbatch/flowradarsimd.c:37-49 | If the all-zero flow is not hidden either, the flushed sketch is the plain one with that flow admitted, and the plain one itself if and only if the cache is full |
| `FlowRadar.FlowRadarSimd.IncFr` | pktreceiver/src/modules/simdbatch/flowradarsimd.c:113-191 | The in-place weighted insert is the specification's recording: bits tested and set, cells XOR-ed and counted only for a new flow, packets always |
| `FlowRadar.FlowRadarSimd.Inc` | pktreceiver/src/modules/simdbatch/vary-keysize/flowradarsimdv.c:327-963 | One packet with any fingerprint function is the Agg-Evict step over that insert |
| `LruOrder.VictimIsLeastRecent` | pktreceiver/src/modules/simdbatch/cmsketchsimd.c:233-253 | The lane given up by a full bucket is strictly the least recently seen |
| `LruOrder.LruRun` | pktreceiver/src/modules/simdbatch/cmsketchsimd.c:153-253 | On every stream of at most 2^30 packets clocks are last-seen times and everything seen but not cached is older than its full bucket |
| `LruOrder.LruKeepsSixteenMostRecent` | pktreceiver/src/modules/simdbatch/cmsketchsimd.c:153-253 | A flow is cached if and only if it was seen and fewer than sixteen distinct flows of its bucket were seen since |
| `LruOrder.ClockRun` | pktreceiver/src/modules/simdbatch/cmsketchsimd.c:153-253 | On every stream below 2^32 packets the clocks of occupied lanes are last-seen times, whatever is evicted |
| `LruOrder.VictimIsLeastRecentExactlyWhen` | pktreceiver/src/modules/simdbatch/cmsketchsimd.c:233-253 | On every such stream the lane a full bucket gives up is the least recently seen if and only if some lane was last seen before packet 2^30 or lane 0 is the least recent |
| `LruOrder.MostRecentIsEvicted` | pktreceiver/src/modules/simdbatch/cmsketchsimd.c:234-243 | After 2^30 packets of flow 1, flows 2 to 16 and flow 1 again, a packet of flow 17 evicts flow 1, the most recent |
| `GrrOrder.RunOfStream` | pktreceiver/src/modules/simdbatch/cmsketchsimd.c:149-254 | The caches before, between and after the packets of any stream from the empty cache form a run of the following theorems |
| `GrrOrder.KicksGoRound` | pktreceiver/src/modules/simdbatch/cmsketchsimd.c:219-230 | On every run the n-th eviction from a full bucket, counted over all buckets, hands out what lane n modulo 16 of its bucket held and puts the newcomer there with count 1 |
| `GrrOrder.NewcomerStays` | pktreceiver/src/modules/simdbatch/cmsketchsimd.c:219-230 | A key word that entered by such an eviction is still in its lane when the sixteenth eviction after it comes; so is the flow, if no other has its fingerprint |
| `GrrOrder.FirstInFirstOut` | pktreceiver/src/modules/simdbatch/cmsketchsimd.c:219-230 | If that sixteenth eviction falls on the same bucket, as it always does with one bucket, it gives up exactly that key word |
| `GrrOrder.SixteenDifferentLanes` | pktreceiver/src/modules/simdbatch/cmsketchsimd.c:219-230 | Any sixteen evictions in a row rewrite sixteen different lanes |
| `MinHeap.DownRestoresOrder` | pktreceiver/src/modules/simdbatch/spacesaving.c:90-119 | The sift-down that recurses and re-enters its own loop restores order wherever only node i was too large |
| `MinHeap.UpRestoresOrder` | pktreceiver/src/modules/simdbatch/spacesaving.c:120-135 | The sift-up orders every edge except the one from the root to node 1 |
| `MinHeap.DownPermutes` | pktreceiver/src/modules/simdbatch/spacesaving.c:90-119 | The sift-down only permutes nodes |
| `MinHeap.UpPermutes` | pktreceiver/src/modules/simdbatch/spacesaving.c:120-135 | The sift-up only permutes nodes |
| `MinHeap.RootIsLeastExactlyWhen` | pktreceiver/src/modules/simdbatch/spacesaving.c:120-135 | With all other edges ordered, the root is least if and only if it is no larger than node 1 |
| `SpaceSavingSimd.SpaceSavingSimd.FindInHeap` | pktreceiver/src/modules/simdbatch/spacesavingsimd.c:185-197 | The search loop returns the first node of the flow, or -1 if there is none |
| `SpaceSavingSimd.SpaceSavingSimd.AdjustDown` | pktreceiver/src/modules/simdbatch/spacesavingsimd.c:137-167 | The recursive sift-down loop terminates, by (n - i, frequency of node i), and computes the specified sift |
| `SpaceSavingSimd.SpaceSavingSimd.AdjustUp` | pktreceiver/src/modules/simdbatch/spacesavingsimd.c:168-183 | The sift-up loop computes the specified sift |
| `SpaceSavingSimd.SpaceSavingSimd.IncSs` | pktreceiver/src/modules/simdbatch/spacesavingsimd.c:198-227 | The in-place weighted step, with 32-bit frequencies that wrap, is the step on values; with weight 1 it is the plain module's step |
| `SpaceSavingSimd.SpaceSavingSimd.Inc` | pktreceiver/src/modules/simdbatch/spacesavingsimd.c:230-336 | One packet is the Agg-Evict step over the weighted heap step |
| `SpaceSaving.EveryRun` | pktreceiver/src/modules/simdbatch/spacesaving.c:149-177 | In every run flow identifiers are distinct, all edges but possibly root to node 1 are ordered, and frequencies sum to the packets |
| `SpaceSaving.SavedKeepsInv` | pktreceiver/src/modules/simdbatch/spacesaving.c:149-177 | A sift from the root makes the order complete, and a full heap never loses order again |
| `SpaceSaving.LaterReplacementsHitMinimum` | pktreceiver/src/modules/simdbatch/spacesaving.c:170-175 | After the first replacement of an epoch the root is a true minimum for the rest of the run |
| `SpaceSaving.ReplacementHitsMinimumExactlyWhen` | pktreceiver/src/modules/simdbatch/spacesaving.c:120-177 | A replacement hits a true minimum if and only if the root is no larger than node 1 |
| `SpaceSaving.FirstReplacementMayMissMinimum` | pktreceiver/src/modules/simdbatch/spacesaving.c:120-177 | A run of four packets in which a replacement drops a flow that is not a minimum and the count bound fails |
| `SpaceSaving.NeverUnderestimates` | pktreceiver/src/modules/simdbatch/spacesaving.c:149-177 | If all replacements hit a minimum, a tracked flow's frequency is at least its true count and an untracked flow's count is at most every frequency |
| `SpaceSaving.ExactUntilReplacement` | pktreceiver/src/modules/simdbatch/spacesaving.c:149-169 | Until the first replacement every frequency is the flow's exact count, and untracked flows have none |
| `SpaceSaving.GuaranteeHoldsExactlyWhen` | pktreceiver/src/modules/simdbatch/spacesaving.c:120-177 | The count guarantee holds throughout a run if and only if its first replacement, if any, finds the root no larger than node 1 |
| `SpaceSaving.OverestimateIsBounded` | pktreceiver/src/modules/simdbatch/spacesaving.c:149-177 | If all replacements hit a minimum, a frequency exceeds the true count by at most the least frequency of a full heap, and not at all before it is full |
| `SpaceSaving.RootTimesSizeBelowTotal` | pktreceiver/src/modules/simdbatch/spacesaving.c:149-177 | A full heap with a minimal root has root frequency times size at most the number of packets |
| `SpaceSaving.FrequenciesFit` | pktreceiver/src/modules/simdbatch/spacesaving.c:149-177 | No frequency exceeds the packets processed, so 32-bit fields do not wrap below 2^32 packets |
| `SpaceSaving.PhantomForgetsExactlyWhen` | pktreceiver/src/modules/simdbatch/spacesavingsimd.c:39-42 | A flushed unused lane enters flow 0, and forgets another flow if and only if the heap is full and did not track flow 0 |
| `SpaceSaving.ZeroIsNeverTracked` | pktreceiver/src/modules/simdbatch/spacesavingsimd.c:198-227 | A run of non-zero flows never tracks flow 0 |
| `SpaceSavingFlush.FirstUnusedLane` | pktreceiver/src/modules/simdbatch/spacesavingsimd.c:31-43 | After every stream of non-zero flows, the step of the first unused lane enters flow 0, and itself forgets a flow if and only if the heap is full |
| `SpaceSaving.AllTrackedExactlyWhen` | pktreceiver/src/modules/simdbatch/spacesaving.c:149-177 | In every run all flows seen are tracked if and only if there are no more of them than nodes |
| `SpaceSaving.AllButOneTrackedExactlyWhen` | pktreceiver/src/modules/simdbatch/spacesaving.c:149-177 | All flows seen but one are tracked if and only if they are fewer than the nodes, or as many and the one is not tracked |
| `SpaceSavingFlush.ReportKeepsAllExactlyWhen` | pktreceiver/src/modules/simdbatch/spacesavingsimd.c:31-55 | After every stream of non-zero flows below 2^32 packets, the heap written out after the whole flush tracks every flow of the stream if and only if there are fewer flows than nodes, or as many and flow 0 is not in it |
| `SpaceSavingFlush.ReportWithLastLaneUnused` | pktreceiver/src/modules/simdbatch/spacesavingsimd.c:31-55 | If the last lane is unused: flow 0 is in it, and all flows are if and only if they are fewer than the nodes |
| `SpaceSavingFlush.ReportWithAllLanesUsed` | pktreceiver/src/modules/simdbatch/spacesavingsimd.c:31-55 | If every lane is used: flow 0 is not in it, and all flows are if and only if they are no more than the nodes |
| `SpaceSavingFlush.DrainKeepsAllExactlyWhen` | pktreceiver/src/modules/simdbatch/spacesavingsimd.c:198-227 | Draining only occupied lanes would keep all flows if and only if they are no more than the nodes |
| `SpaceSavingFlush.ReportedFrequencies` | pktreceiver/src/modules/simdbatch/spacesavingsimd.c:31-55 | If the first replacement of the run and its flush is safe, a written-out frequency is at least the flow's packets and exceeds them by at most the least frequency of a full heap; a flow left out has at most every frequency |
| `SpaceSavingFlush.ReportGuaranteeExactlyWhen` | pktreceiver/src/modules/simdbatch/spacesavingsimd.c:31-55 | The count guarantee holds throughout the run and its flush if and only if that replacement is safe |
| `SpaceSavingFlush.FlushLosesTheOnlyFlow` | pktreceiver/src/modules/simdbatch/spacesavingsimd.c:31-55 | One packet, a heap of one node: the flush reports flow 0 instead of the flow seen |
| `SpaceSavingFlush.FlushLosesAFlowOfTwo` | pktreceiver/src/modules/simdbatch/spacesavingsimd.c:31-55 | Two packets, two buckets, two nodes: a flow is lost although the heap was not full when the first unused lane came |
| `SpaceSavingSimd.DrainIsAfter` | pktreceiver/src/modules/simdbatch/spacesavingsimd.c:198-227 | The heap with 32-bit frequencies is the heap on numbers for pairs whose weights sum to less than 2^32 |
| `SpaceSavingSimd.HeapSeesEvictedPairs` | pktreceiver/src/modules/simdbatch/spacesavingsimd.c:230-336 | On streams below 2^32 packets, Space-Saving behind the cache is Space-Saving on the sequence of evicted pairs, and nothing wraps |
| `SpaceSavingSimd.CachedNeverUnderestimates` | pktreceiver/src/modules/simdbatch/spacesavingsimd.c:198-336 | Behind the cache, if the first replacement is safe, heap frequency plus cached count is at least the true count of every tracked flow, with the matching bound for untracked ones, at every moment before the flush; `ReportGuaranteeExactlyWhen` is the exact condition |
| `LinearMap.HashMapLinear.FindKey` | pktreceiver/src/dss/hashmap_linear.c:89-100 | The wrapping probe starts at the row of the key's hash and goes up: it returns the first row that is empty or holds the key, and every row it passed is taken by another key |
| `LinearMap.HashMapLinear.GetNoCopyKey` | pktreceiver/src/dss/hashmap_linear.c:126-134 | Finds the key's row and value if and only if the key is in the map, otherwise an empty row |
| `LinearMap.HashMapLinear.GetCopyKey` | pktreceiver/src/dss/hashmap_linear.c:102-124 | Enters a missing key with value 0, leaves the map otherwise unchanged, and moves no other key |
| `LinearMap.HashMapLinear.Reset` | pktreceiver/src/dss/hashmap_linear.c:60-65 | Clears all rows but the last; the table is empty if and only if the last row was, and stays sound if and only if a key left there is at its home row |
| `LinearMap.InsertKeepsLinked` | pktreceiver/src/dss/hashmap_linear.c:102-113 | Taking the row where the probe ended keeps keys distinct and reachable from their home rows |
| `LinearMap.FoundIsKeyOrFree` | pktreceiver/src/dss/hashmap_linear.c:89-100 | If the key is anywhere in the table the probe ends at that row, so a key's row never changes |
| `LinearMap.RoomIfFewerKeysThanRows` | pktreceiver/src/dss/hashmap_linear.c:89-113 | Fewer keys than rows leave a free row, so every probe ends |
| `CuckooMap.KickPriConserves` | pktreceiver/src/dss/hashmap_cuckoo.c:158-169 | A half-step into the primary table conserves the multiset of entries with the one in hand, keeps every entry at a place given by its stored hash, and changes no key's value |
| `CuckooMap.KickSecConserves` | pktreceiver/src/dss/hashmap_cuckoo.c:171-180 | The same for the half-step into the secondary table |
| `CuckooMap.HashMapCuckoo.KickChain` | pktreceiver/src/dss/hashmap_cuckoo.c:150-187 | The chain is given up if and only if none of its 64 hands is vacant, the hands being read off the old tables; a vacant primary slot is taken at once.  On normal return every old key keeps its value, the new key maps to 0 and the returned slot holds it, even if the chain displaced it; on giving up all entries are still accounted for with the one in hand |
| `CuckooMap.HashMapCuckoo.FindOrInsertKey` | pktreceiver/src/dss/hashmap_cuckoo.c:131-187 | Finds a present key without changing the tables; inserts an absent one as above, and fails if and only if it is absent and its chain has no vacant hand; a vacant primary slot is the one returned |
| `CuckooMap.LinksAtStep` | pktreceiver/src/dss/hashmap_cuckoo.c:150-187 | After m half-steps the hand and every slot of both tables are what the recursion over the old tables says: the hand last put into a slot, else its old entry |
| `CuckooMap.LinksKeep` | pktreceiver/src/dss/hashmap_cuckoo.c:150-187 | Every half-step of every chain keeps placement, distinctness, what every key maps to, the bag of entries, and the noted slot of the new key |
| `CuckooMap.FirstHands` | pktreceiver/src/dss/hashmap_cuckoo.c:158-180 | The first hand is the entry in the key's primary slot, the second the one in that entry's secondary slot |
| `CuckooMap.RoomInTwoSteps` | pktreceiver/src/dss/hashmap_cuckoo.c:158-180 | An insertion succeeds if the key's primary slot is vacant, or the secondary slot of the entry there |
| `CuckooMap.HashMapCuckoo.Store` | pktreceiver/src/dss/hashmap_cuckoo.c:189-193 | Writing through the returned slot changes that key's value and no other |
| `CuckooBucketMap.FillPri` | pktreceiver/src/dss/hashmap_cuckoo_bucket.c:157-181 | A vacancy in the primary bucket proves the key is not in its secondary one, so inserting there makes no duplicate |
| `CuckooBucketMap.KickPri` | pktreceiver/src/dss/hashmap_cuckoo_bucket.c:262-275 | Displacing from a full primary bucket keeps the invariant and every key's value; what comes out is an entry whose primary bucket is full |
| `CuckooBucketMap.KickSec` | pktreceiver/src/dss/hashmap_cuckoo_bucket.c:271-287 | The same for a secondary bucket, at its first vacancy or its front; so an entry displaced from there always finds its primary bucket full |
| `CuckooBucketMap.HashMapCuckooBucket.SearchBucket` | pktreceiver/src/dss/hashmap_cuckoo_bucket.c:157-181 | The search that stops at the first vacancy decides membership, and otherwise yields the first vacancy or shows the bucket full |
| `CuckooBucketMap.HashMapCuckooBucket.FindEmptyOrFirst` | pktreceiver/src/dss/hashmap_cuckoo_bucket.c:205-220 | The first vacancy, or the first entry if and only if the bucket is full |
| `CuckooBucketMap.HashMapCuckooBucket.KickChain` | pktreceiver/src/dss/hashmap_cuckoo_bucket.c:241-294 | The chain is given up if and only if none of its 64 hands, read off the old buckets, is vacant; it keeps every old key's value, maps the new key to 0 and returns the slot that holds it |
| `CuckooBucketMap.HashMapCuckooBucket.FindOrInsertKey` | pktreceiver/src/dss/hashmap_cuckoo_bucket.c:222-294 | One slot per key, buckets filled from the front, a key in its secondary bucket only behind a full primary one; refines insertion into a finite map, and fails if and only if the key is absent, both its buckets are full and its chain has no vacant hand; a vacancy in the primary bucket is used before one in the secondary |
| `CuckooBucketMap.LinksAtStep` | pktreceiver/src/dss/hashmap_cuckoo_bucket.c:241-294 | After m half-steps the hand and every bucket are what the recursion over the old buckets says: each half-step puts the hand at the first vacancy of its bucket, else at the front, and takes out what was there |
| `CuckooBucketMap.LinksKeep` | pktreceiver/src/dss/hashmap_cuckoo_bucket.c:241-294 | Every half-step of every chain keeps the invariant, what every key maps to and the noted slot of the new key |
| `CuckooBucketMap.HashMapCuckooBucket.Store` | pktreceiver/src/dss/hashmap_cuckoo_bucket.c:296-300 | Writing through the returned slot changes that key's value and no other, and keeps the invariant |
| `BucketGeometry.AndBits` | pktreceiver/src/dss/hashmap_cuckoo_bucket.c:124-127 | The masking of a bucket number, bit by bit: a bit is set if and only if it is in both operands |
| `BucketGeometry.BucketsFitExactlyWhen` | pktreceiver/src/dss/hashmap_cuckoo_bucket.c:92-126 | Every bucket that a hash selects lies inside its own table if and only if the row size divides 16 words and the rows fill whole buckets |
| `BucketGeometry.PowerOfTwoFitsExactlyWhen` | pktreceiver/src/dss/hashmap_cuckoo_bucket.c:92-126 | For power-of-two sizes of at least one bucket: if and only if the row size divides 16 |
| `BucketGeometry.ShippedSizingDoesNotFit` | pktreceiver/src/dss/hashmap_cuckoo_bucket.c:92-126 | 524288 rows of six words do not fit |
| `BucketGeometry.LaidIsOkExactlyWhen` | pktreceiver/src/dss/hashmap_cuckoo_bucket.c:92-126 | The range condition that the map theorems ask of the bucket index holds of the source's geometry under exactly that condition |
| `CountHeap.CountHeap.QueryHash` | pktreceiver/src/modules/heavychange/countheap.c:78-86 | Returns exactly what a linear search of the heap would: the position of the flow, or -1 |
| `CountHeap.EntryIsPosition` | pktreceiver/src/modules/heavychange/countheap.c:78-86 | Under the index invariant the table entry of any flow, tombstones included, is its position by linear search |
| `CountHeap.IndexedAfterSwap` | pktreceiver/src/modules/heavychange/countheap.c:97-137 | Swapping two nodes together with their table entries keeps the index exact |
| `CountHeap.IndexedAfterAppend` | pktreceiver/src/modules/heavychange/countheap.c:216-223 | Appending a node and entering its position keeps the index exact |
| `CountHeap.IndexedAfterReplace` | pktreceiver/src/modules/heavychange/countheap.c:227-232 | Replacing the root, with a tombstone for its flow, keeps the index exact |
| `CountHeap.CountHeap.AdjustDown` | pktreceiver/src/modules/heavychange/countheap.c:107-137 | The sift-down terminates, computes the specified sift, and keeps the index exact through every swap |
| `CountHeap.CountHeap.AdjustUp` | pktreceiver/src/modules/heavychange/countheap.c:138-154 | The same for the sift-up |
| `CountHeap.CountHeap.Count` | pktreceiver/src/modules/heavychange/countheap.c:173-201 | Increments the three signed counters, modulo 2^32, and returns their least value, at most 2^30 |
| `CountHeap.CountHeap.Insert` | pktreceiver/src/modules/heavychange/countheap.c:173-236 | With fewer distinct keys than rows, every packet keeps the index exact through hit, append and root replacement, and the heap changes as specified |
| `CountHeap.InsertedKeepsOrder` | pktreceiver/src/modules/heavychange/countheap.c:173-236 | Heap order is kept on every edge but possibly root to node 1, and is complete after any sift from the root |
| `CountHeap.FrequencyIsBracketed` | pktreceiver/src/modules/heavychange/countheap.c:173-236 | On every stream below 2^30 packets that count one, every frequency in the heap lies between the flow's true count and its current estimate, although flows leave and re-enter |
| `CountHeap.DroppedExactlyWhen` | pktreceiver/src/modules/heavychange/countheap.c:213-235 | On such streams a flow leaves the heap if and only if it is the root of a full heap and the packet is of a flow outside it whose estimate exceeds the root's frequency |
| `CountHeap.EntersExactlyWhen` | pktreceiver/src/modules/heavychange/countheap.c:213-235 | A flow outside the heap enters, with its estimate as frequency, if and only if there is room or its estimate exceeds the root's frequency |
| `CountHeap.KeptExactlyWhen` | pktreceiver/src/modules/heavychange/countheap.c:213-235 | Every other flow's node stays as it is unless it is the displaced root |
| `CountHeap.CountersCountColumns` | pktreceiver/src/modules/heavychange/countheap.c:173-196 | On every run a counter is the number of packets whose flow has its column in that row, modulo 2^32 |
| `RevSketch.ChangedIsDistance` | pktreceiver/src/modules/heavychange/revsketch.c:180-189 | With 32-bit wrap-around, a change is a counter distance modulo 2^32 of more than 1000 either way, except exactly 2^31 |
| `RevSketch.RevSketch.Inc` | pktreceiver/src/modules/heavychange/revsketch.c:144-199 | One packet is counted and its key marked, or the mark of a stored key overwritten, by the signed difference with the last epoch |
| `RevSketch.RevSketch.Reset` | pktreceiver/src/modules/heavychange/revsketch.c:26-70 | Clears both rows; the marks are cleared if the last table row was free, and the table stays sound if and only if a key left there is at its home row |
| `RevSketch.HeavyChangeRevSketch.Execute` | pktreceiver/src/modules/heavychange/revsketch.c:252-274 | A packet changes only the sketch in use |
| `RevSketch.HeavyChangeRevSketch.Reset` | pktreceiver/src/modules/heavychange/revsketch.c:276-295 | The epoch end hands the counters to the idle sketch, switches to it, and clears the old one |
| `RevSketch.EpochStartsClear` | pktreceiver/src/modules/heavychange/revsketch.c:276-295 | In every run each epoch starts with clear counters and with `last` counting exactly the epoch before |
| `RevSketch.RowsCountTheirEpochs` | pktreceiver/src/modules/heavychange/revsketch.c:144-295 | At every packet of every run row1 counts exactly the current epoch and row1_last exactly the previous one |
| `RevSketch.ReportIsHeavyChange` | pktreceiver/src/modules/heavychange/revsketch.c:107-199 | A key seen in the epoch is marked if and only if the counts differed by more than 1000 at its latest packet; an unseen key if and only if an old mark was left over |
| `RevSketch.CleanReportIsHeavyChange` | pktreceiver/src/modules/heavychange/revsketch.c:107-199 | From an empty table a key is marked if and only if it has a latest packet with such a change |
| `RevSketch.RevSketch.Report` | pktreceiver/src/modules/heavychange/revsketch.c:37-58 | The printed keys are exactly the marked ones outside the last table row, which the loop does not reach |
| `CountMinReport.CountMin.Inc` | pktreceiver/src/dss/countmin.c:71-109 | Increments the key's three counters and returns true exactly when their minimum is then the threshold |
| `CountMinReport.CountMin.Reset` | pktreceiver/src/dss/countmin.c:27-36 | Clears all but the last three counters of the table |
| `CountMinReport.EstimatesClimb` | pktreceiver/src/dss/countmin.c:71-109 | A packet raises its own key's minimum by one and any other by at most one |
| `CountMinReport.CountersCountHashes` | pktreceiver/src/dss/countmin.c:71-109 | After every packet, counter c of row r has grown by exactly the number of packets whose r-th hash is c modulo the row size, modulo 2^32 |
| `CountMinReport.EstimateIsLeastColumn` | pktreceiver/src/dss/countmin.c:71-109 | From a cleared table a key's estimate is the least number of packets that fell into its column in one of the three rows |
| `CountMinReport.ReportIsCrossing` | pktreceiver/src/dss/countmin.c:94-108 | A report is the key's own packet moving its minimum from T - 1 to T |
| `CountMinReport.NeverUnderestimates` | pktreceiver/src/dss/countmin.c:71-109 | The minimum never falls below the key's true count |
| `CountMinReport.ReportedAtMostOnce` | pktreceiver/src/dss/countmin.c:71-109 | In every run each key is reported at most once |
| `CountMinReport.ReportedIffOwnPacketCrosses` | pktreceiver/src/dss/countmin.c:71-109 | Exactly one packet brings a key's minimum to the threshold, and the key is reported if and only if that packet is its own |
| `CountMinReport.AloneIsReportedExactly` | pktreceiver/src/dss/countmin.c:71-109 | A key alone in one of its rows is reported once it has sent T packets, and not before |
| `CountMinReport.CollidingHeavyKeyIsMissed` | pktreceiver/src/dss/countmin.c:71-109 | Two colliding keys: one sends T packets and is never reported |
| `CountMinReport.SurvivorsDoNotRaiseEstimates` | pktreceiver/src/dss/countmin.c:27-36 | After the partial reset of a table of two or more columns every key's minimum is 0 nevertheless |
| `SharedCounters.CounterIsSuccesses` | pktreceiver/src/modules/heavyhitter/sharedmap.c:99-108 | For any cores and interleaving a row's counter is its number of successful swaps, modulo 2^32 |
| `SharedCounters.PacketsAreConserved` | pktreceiver/src/modules/heavyhitter/sharedmap.c:99-108 | Packets begun on a row are counted or still waiting: none lost, none counted twice; that no waiting packet waits for good is `EveryRunCanBeCompleted` |
| `SharedCounters.QuiescentCounterIsExact` | pktreceiver/src/modules/heavyhitter/sharedmap.c:99-108 | Whenever no core is in the middle of a packet of the row, the counter has grown by its packets |
| `SharedCounters.SoloProgress` | pktreceiver/src/modules/heavyhitter/sharedmap.c:104-108 | From every state, whatever value a core holds, at most three steps of that core alone get its pending packet counted |
| `SharedCounters.EverySoloRunCounts` | pktreceiver/src/modules/heavyhitter/sharedmap.c:104-108 | Of any three steps that a core with a pending packet can take in a row, one counts it |
| `SharedCounters.EveryRunCanBeCompleted` | pktreceiver/src/modules/heavyhitter/sharedmap.c:99-108 | After every run from idle cores a continuation of at most three steps per core, with no new packet, leaves none pending on the row and the counter grown by exactly the packets begun |
| `SharedCounters.FailedSwapMeansProgress` | pktreceiver/src/modules/heavyhitter/sharedmap.c:104-108 | A failed swap means that another core succeeded on the row since this core's read; the failing core reads anew and can still get through (`SoloProgress`) |
| `SharedCounters.ReportedOnceIfExclusive` | pktreceiver/src/modules/heavyhitter/sharedmap.c:99-114 | If no two cores work on the row at once, it is reported exactly once, at its T-th packet |
| `SharedCounters.ReportCount` | pktreceiver/src/modules/heavyhitter/sharedmap.c:99-114 | With racing cores the number of reports is the number of cores between swap and comparison right after the T-th successful swap, less those that still are at the next one |
| `SharedCounters.ReportedOnceExactlyWhen` | pktreceiver/src/modules/heavyhitter/sharedmap.c:99-114 | It is one if and only if as many cores are left to compare at the next swap as before the T-th; if all compare in time, if and only if the T-th swapper was alone |
| `SharedCounters.NoReportBelowThreshold` | pktreceiver/src/modules/heavyhitter/sharedmap.c:111-113 | A row with fewer than T successful swaps is not reported |
| `SharedCounters.RacingReportCanBeDoubled` | pktreceiver/src/modules/heavyhitter/sharedmap.c:99-114 | A race of two cores that reports a row twice |
| `SharedCounters.RacingReportCanBeMissed` | pktreceiver/src/modules/heavyhitter/sharedmap.c:99-114 | A race of two cores that passes the threshold without a report |
| `HugePage.HugePage.Alloc` | pktreceiver/src/memory.c:45-74 | Grants a block exactly when the end of the placed block, modulo 2^64, is inside the page; a refusal leaves the page unchanged |
| `HugePage.PlacedIsLeast` | pktreceiver/src/memory.c:57-64 | No address between the bump pointer and the granted block would keep the block within a cache line |
| `HugePage.LayoutKeptExactlyWhen` | pktreceiver/src/memory.c:45-74 | A request keeps the layout if and only if the end of its block does not wrap |
| `HugePage.LaidOutThroughoutExactlyWhen` | pktreceiver/src/memory.c:45-74 | The page is laid out throughout a run if and only if no request of the run wraps |
| `HugePage.SmallRequestsNeverWrap` | pktreceiver/src/memory.c:45-74 | Requests below 2^63 bytes in the lower half of the address space never wrap |
| `HugePage.EveryRunIsLaidOut` | pktreceiver/src/memory.c:21-74 | Over every sequence of requests that do not wrap, blocks are disjoint, behind the header, inside the page, and none below 64 bytes straddles a cache line |
| `HugePage.PaddingIsBounded` | pktreceiver/src/memory.c:55-72 | The page's use is the bytes granted plus less than one line of padding per small block |

## Left out

- Packet input and output, DPDK, timers, files, YAML configuration, statistics and `count` fields, prefetching: no effect on the modelled state.
- Murmur3 and the secondary hashes: arbitrary functions; `hash & (size - 1)` appears as a remainder by the number of rows, which is the same for powers of two.
- Raw memory layout: rows, lanes and cells are arrays of their own; FlowRadar's cells are three parallel arrays; words under OR and XOR are sets of bits.
- Buckets of the bucketised cuckoo map are values stored in an array of buckets, so single entries are not separate memory cells; sizes whose buckets leave their tables are described by `BucketsFitExactlyWhen` and not followed further.
- Table entries are modelled with one value word; the shipped hash-map configurations have three, and the further ones move along with the first.
- CuckooBucketMap.HashMapCuckooBucket.FindOrInsertKey: for sizes whose buckets stay inside their tables; the shipped six-word rows are not among them, and what overlapping buckets do to each other is not modelled.
- The 32-round limit of the cuckoo chains, where the code asserts false, is a None result that keeps the entry in hand; when it happens is stated exactly by `KickChain`.
- Batch lookups take all slot pointers first and write through them later; displacement can make such pointers stale, so lookup and write are modelled per packet.
- Signed and pointer overflow, undefined in C, are modelled as wrap-around.
- HugePage.HugePage.Alloc: the static page per socket is not modelled.
- CmSketch.CmSketchSimd.Flush: only the flush of reset is modelled, not the clearing of the tables after it, which is plain zeroing.
- SharedCounters.CounterIsSuccesses: rows are given; the concurrent table lookup that finds a row has no synchronisation to reason from.
- FlowRadar.DrainedFlowRadarIsPlain: equality of all cells is proved from the condition only; different admitted flows can by chance leave equal cells, so the converse holds of admission and not of cells.
- The reset of `twolevelsimd.c` and of `flowradarsimdv.c`, which flush or clear only parts of the cache.
- MRAC, LinearCounting, the simdbatch RevSketch and UnivMon rows: more instances of the same addition and OR theorems.
- `pqueue.c`: it rests on a library hash table that is not part of this model.
- A reset by the statistics core while packets are processed: epochs are sequential here.
