# SC18 Java client: population engine and game helpers

This project models the deterministic core of a Software-Challenge 2018
("Hase und Igel") client. It proves properties of that model.

The core has five parts:

- **The genetic population engine.**
  - A table of genomes in rank order, each with a fitness.
  - The training-run counters and the per-generation tallies.
  - The generation boundary. The table is sorted by fitness, the upper half is copied with mutation into the lower half, and everything is saved.
  - The checkpoint directory. It holds the individual files, the 36-byte counter file, the stats log with its compaction, and the backup folder.
- **The indexed map.** A hash map with a list of its keys beside it.
- **FloatList.** A growable float buffer.
- **Lazy.** A one-slot memo cell in front of a supplier.
- **The game rules the search relies on.**
  - The weight count of a network.
  - The carrot-exchange cycle.
  - The winner and game-over rules.
  - The distances to the next salad and hare fields.
  - The text and action classes of a move.
  - The heuristic rating and the pruning rule of the search.

Modules:

- **Data representations.**
  - `Words`: Java ints, and the 32-bit patterns that DataOutputStream writes big-endian.
  - `Binary32`: the IEEE 754 binary32 layout (section 3.4 of IEEE 754-2008). It models float comparison, Float.compare and the `(int)` cast.
  - `Decimal`: the decimal text of ints.
  - `JavaInts`: Java's truncating division, Math.abs and wrap-around arithmetic.
- **Java library behaviour.** `Sorting` is the stable sort of Collections.sort.
- **The population engine.**
  - `Generations`: the counter state machine.
  - `Checkpoint`: the byte formats and the directory.
  - `Populations`: the Population class.
- **The utility classes.** `IndexedMaps`, `FloatLists` and `Lazies`.
- **The game rules.** `HuiUtils`, `SmartHeuristics` and `LightPruners`.

How the source is represented:

- **Floats** are their 32-bit patterns.
- **Files** form a map from names to byte sequences. A byte is an int in 0..255.
- **Genome identity.** A genome is an `array` of patterns, because Java hashes a `float[]` by identity.
- **Code the core cannot see.** These become parameters of the model:
  - the Gaussian mutation;
  - the spawner;
  - the genetic strategy's line-up;
  - `Constants.ROUND_LIMIT`;
  - the game engine's answers.
- **Engine calls that may fail.** A call that may raise an exception answers either a value or `Raised`.

## Model

| member | source | states |
|---|---|---|
| Words.WordsRoundTrip | src/main/java/fwcd/sc18/geneticneural/Population.java:343-354 | decoding the big-endian words written by writeFloat/writeInt gives the same patterns back |
| Words.BytesWordsRoundTrip | src/main/java/fwcd/sc18/geneticneural/Population.java:405-416 | bytes holding a whole number of words are exactly the encoding of the words read from them |
| Words.Wrap32 | src/main/java/fwcd/sc18/utils/HUIUtils.java:34 | an int result is the unbounded result modulo 2^32 in range, and the value itself when it fits |
| Binary32.Compare | src/main/java/fwcd/sc18/geneticneural/Population.java:427 | Float.compare is negative, zero or positive as the first pattern ranks below, level with or above the second. Two NaNs compare equal, a NaN is above every other pattern, -0.0 is below +0.0, and otherwise the numeric order decides |
| Binary32.CompareAntisymmetric | src/main/java/fwcd/sc18/geneticneural/Population.java:427 | swapping the arguments of Float.compare flips the sign and keeps a zero |
| Binary32.CompareIsTotalOrderOnPatternsExceptNaN | src/main/java/fwcd/sc18/geneticneural/Population.java:427 | outside NaN, Float.compare calls two patterns equal only when they are the same pattern |
| Sorting.InsertionSortStable | src/com/fwcd/sc18/utils/IndexedHashMap.java:107-115 | for a total-preorder comparator, equivalent elements keep their relative order |
| Generations.AdvanceWithoutWrap | src/main/java/fwcd/sc18/geneticneural/Population.java:186 | without overflow, a positive delta adds exactly delta to the counter |
| Checkpoint.EncodeIndividual | src/main/java/fwcd/sc18/geneticneural/Population.java:343-354 | an individual file is the 4-byte fitness followed by 4 bytes per gene, each written with floatToIntBits, so every NaN is stored as 0x7FC00000 |
| Checkpoint.CanonicalisedIsCanonical | src/main/java/fwcd/sc18/geneticneural/Population.java:347-350 | making the NaNs of an individual canonical leaves no other NaN, and changes an individual exactly when it held a non-canonical NaN |
| Populations.Spawned | src/main/java/fwcd/sc18/geneticneural/Population.java:93-102 | the fallback asks the spawner once for each rank below the size |
| Populations.Population.SpawnAll | src/main/java/fwcd/sc18/geneticneural/Population.java:93-102 | the table is emptied and refilled with the spawned genomes at fitness negative infinity, in rank order |
| Words.Inc32 | src/main/java/fwcd/sc18/geneticneural/Population.java:192 | Java's `++` on an int adds one, except that Integer.MAX_VALUE wraps to Integer.MIN_VALUE |
| Words.BitsIntOfIntBits | src/main/java/fwcd/sc18/geneticneural/Population.java:256-264 | the two's-complement pattern of an int read back as an int is the same int |
| Binary32.NegInfIsBottom | src/main/java/fwcd/sc18/geneticneural/Population.java:129-139 | negative infinity is below every other pattern under Float.compare, and only non-NaN patterns other than itself are `>` it |
| Binary32.GreaterAgreesWithCompare | src/main/java/fwcd/sc18/geneticneural/Population.java:426-428 | the primitive `>` that greedy sampling uses agrees with the Float.compare order that sorting uses, except for NaN operands and for +0.0 against -0.0 |
| Binary32.GreaterTransitive | src/main/java/fwcd/sc18/geneticneural/Population.java:135-137 | the primitive `>` on floats is transitive |
| Binary32.FloatToIntBits | src/main/java/fwcd/sc18/geneticneural/Population.java:347-350 | floatToIntBits, which writeFloat uses, maps every NaN to 0x7FC00000 and keeps every other pattern |
| Binary32.FloatToIntBitsKeepsOrder | src/main/java/fwcd/sc18/geneticneural/Population.java:347-350 | floatToIntBits changes neither Float.compare nor `>`, gives a canonical pattern, and fixes exactly the canonical patterns |
| Binary32.FloatToInt | src/main/java/fwcd/sc18/geneticneural/Population.java:308 | the `(int)` cast of the best fitness: NaN gives 0, the infinities saturate to Integer.MIN_VALUE and Integer.MAX_VALUE, a magnitude below 1 gives 0, and the sign is kept |
| Binary32.FloatToIntRoundsTowardZero | src/main/java/fwcd/sc18/geneticneural/Population.java:308 | a finite float below 2^31 in magnitude casts to its value truncated toward zero; larger ones saturate by sign |
| Binary32.TruncatedMagnitudeIsFloor | src/main/java/fwcd/sc18/geneticneural/Population.java:308 | the integer part the cast computes from the significand and exponent is the floor of the float's magnitude |
| Decimal.IntToStringInjective | src/main/java/fwcd/sc18/utils/HUIUtils.java:82 | different ints produce different decimal texts |
| Decimal.NatToStringValue | src/main/java/fwcd/sc18/utils/HUIUtils.java:82 | the decimal text of a non-negative int reads back as that int, and has no leading zero unless it is 0 |
| Sorting.InsertionSortCorrect | src/com/fwcd/sc18/utils/IndexedHashMap.java:107-115 | for a total-preorder comparator, Collections.sort's result is sorted, is a permutation of its input, and keeps equivalent elements in their order |
| Generations.Advance | src/main/java/fwcd/sc18/geneticneural/Population.java:184-193 | a positive delta adds to the counter with wrap-around, records the streak in longestStreak and resets the streak; otherwise the streak grows by one; no tally changes |
| Generations.Tally | src/main/java/fwcd/sc18/geneticneural/Population.java:195-206 | a goal win increments goalWins and brackets the turn count in minGoalMoves/maxGoalMoves; another win increments wins; a loss increments losses; nothing else changes |
| Generations.TallyCountsOneMatch | src/main/java/fwcd/sc18/geneticneural/Population.java:195-206 | each match adds exactly one to exactly one of the three tallies |
| Generations.GoalMovesOnlyOnGoalWins | src/main/java/fwcd/sc18/geneticneural/Population.java:196-200 | only a goal win changes the goal-move extremes, and afterwards they bracket its turn count |
| Generations.FirstGoalWinSetsBothExtremes | src/main/java/fwcd/sc18/geneticneural/Population.java:197-199 | after the first goal win from the reset tallies, both extremes equal its turn count |
| Generations.StartGeneration | src/main/java/fwcd/sc18/geneticneural/Population.java:214-216 | a new generation resets counter and streak to zero and increments the generation; nothing else changes |
| Generations.ResetTallies | src/main/java/fwcd/sc18/geneticneural/Population.java:222-227 | wins, goalWins, losses and longestStreak return to 0, minGoalMoves to Integer.MAX_VALUE and maxGoalMoves to Integer.MIN_VALUE; counter, streak and generation are kept |
| Generations.BoundaryState | src/main/java/fwcd/sc18/geneticneural/Population.java:214-227 | after a boundary, every counter has its initial value except the generation, which is one higher |
| Generations.UnitStepBoundary | src/main/java/fwcd/sc18/geneticneural/Population.java:184-187 | with delta 1 and no skip, a match closes the generation exactly when it was the last individual of the table |
| Generations.NoBoundaryWithoutDelta | src/main/java/fwcd/sc18/geneticneural/Population.java:184-193 | a delta of zero or less never closes a generation |
| Generations.UnitStepsCloseGeneration | src/main/java/fwcd/sc18/geneticneural/Population.java:184-187 | starting from the first individual with one match each, the k-th match closes the generation exactly when k is the table size |
| Checkpoint.IndividualNamesDistinct | src/main/java/fwcd/sc18/geneticneural/Population.java:344 | "Individual" + index names a different file for each index, and none collides with the counter, the stats log or a backup file |
| Checkpoint.BackupNamesDistinct | src/main/java/fwcd/sc18/geneticneural/Population.java:372-389 | backup names are distinct for distinct files and collide with neither the counter file nor the stats log |
| Checkpoint.DecodeIndividual | src/main/java/fwcd/sc18/geneticneural/Population.java:405-416 | a file decodes exactly when it has at least the fitness and a whole number of genes; otherwise the read raises and the rank is respawned |
| Checkpoint.IndividualRoundTrip | src/main/java/fwcd/sc18/geneticneural/Population.java:343-354 | a saved individual loads back as its fitness and genes with every NaN replaced by the canonical NaN, and exactly as saved when it holds no other NaN pattern |
| Checkpoint.IndividualBytesRoundTrip | src/main/java/fwcd/sc18/geneticneural/Population.java:405-416 | a file that loads is saved back byte for byte exactly when what it loads as holds no NaN other than the canonical one |
| Checkpoint.SavingIsIdempotent | src/main/java/fwcd/sc18/geneticneural/Population.java:343-354 | saving an individual writes the same bytes as saving what it loads back as |
| Checkpoint.EncodeCounter | src/main/java/fwcd/sc18/geneticneural/Population.java:252-268 | the counter file is 36 bytes: nine ints, counter first and longestStreak last |
| Checkpoint.DecodeCounter | src/main/java/fwcd/sc18/geneticneural/Population.java:319-341 | loadCounter as written fails exactly when the file has fewer than 4 bytes |
| Checkpoint.DecodeCounterField | src/main/java/fwcd/sc18/geneticneural/Population.java:323-341 | the first field is always read; each later field is read only while more than 4 bytes remain, and is 0 otherwise |
| Checkpoint.CounterPrefixRestored | src/main/java/fwcd/sc18/geneticneural/Population.java:323-341 | from a file of k whole ints, only the first max(1, k-1) fields come back and the rest read as 0 |
| Checkpoint.CounterLosesLongestStreak | src/main/java/fwcd/sc18/geneticneural/Population.java:339-341 | loading a complete counter file as written restores every field except longestStreak, which reads as 0 |
| Checkpoint.DecodeCounterFixed | src/main/java/fwcd/sc18/geneticneural/Population.java:319-341 | the corrected load, which reads a field whenever 4 bytes remain, fails exactly when the file has fewer than 4 bytes |
| Checkpoint.CounterRoundTrip | src/main/java/fwcd/sc18/geneticneural/Population.java:252-268 | with the corrected load, a saved counter file restores all nine fields |
| Checkpoint.StatsRecord | src/main/java/fwcd/sc18/geneticneural/Population.java:302-313 | a stats record is one 28-byte chunk of seven ints; StatsRecordFields gives each field at its offset |
| Checkpoint.StatsRecordFields | src/main/java/fwcd/sc18/geneticneural/Population.java:306-312 | the seven ints of a record, at byte offsets 0, 4, ..., 24, are wins, goalWins, the cast best fitness, losses, minGoalMoves, maxGoalMoves and longestStreak |
| Checkpoint.CompactStatsAsWritten | src/main/java/fwcd/sc18/geneticneural/Population.java:284-299 | the compaction as written keeps maxStatsBytes rounded down to a multiple of 7 bytes; CompactStatsAsWrittenWindow says which window of the log that is |
| Checkpoint.CompactStatsAsWrittenWindow | src/main/java/fwcd/sc18/geneticneural/Population.java:286-298 | the kept bytes are the log from a record boundary on, and they end less than one record before the end of the log |
| Checkpoint.CompactStatsAsWrittenMisaligns | src/main/java/fwcd/sc18/geneticneural/Population.java:286-290 | for a log of 3572 whole records, the compaction as written keeps the first 99995 bytes, which is not a whole number of records |
| Checkpoint.CompactStats | src/main/java/fwcd/sc18/geneticneural/Population.java:284-299 | the corrected compaction keeps maxStatsBytes rounded down to a multiple of the 28-byte record |
| Checkpoint.CompactStatsKeepsNewestRecords | src/main/java/fwcd/sc18/geneticneural/Population.java:281-299 | the corrected compaction of an aligned log keeps exactly its newest whole records that fit in maxStatsBytes |
| Checkpoint.SaveStatsFile | src/main/java/fwcd/sc18/geneticneural/Population.java:270-317 | saveStats as written: a new log is just the record, a log not due for compaction gets the record appended, and a log due for it is compacted as written before the record is appended |
| Checkpoint.StatsLogAsWritten | src/main/java/fwcd/sc18/geneticneural/Population.java:281-313 | as written, a log of whole records stays one after every save except a compacting one, which leaves it 100023 bytes long and 7 bytes past a record boundary |
| Checkpoint.SaveStatsFileFixed | src/main/java/fwcd/sc18/geneticneural/Population.java:270-317 | saveStats with the corrected compaction: a new log is just the record, and every saved log ends with the record |
| Checkpoint.StatsLogStaysAligned | src/main/java/fwcd/sc18/geneticneural/Population.java:281-313 | with the corrected compaction (SaveStatsFileFixed), an aligned stats log stays a whole number of records, and after a compaction it is at most maxStatsBytes plus one record |
| Checkpoint.BackupSchedule | src/main/java/fwcd/sc18/geneticneural/Population.java:366 | backups are taken from generation 300 on, every hundred generations, and not at 200 or 250 |
| Checkpoint.CopyToBackupAt | src/main/java/fwcd/sc18/geneticneural/Population.java:371-395 | the backup copies hold the counter file and every individual file below the size, and files outside the backup folder are untouched |
| Checkpoint.StagedFilesHold | src/main/java/fwcd/sc18/geneticneural/Population.java:356-364 | after the individual files, the counter file and the stats log are written, each holds what the code as written saves there |
| Checkpoint.LoadIndividual | src/main/java/fwcd/sc18/geneticneural/Population.java:405-416 | a file that decodes loads as its record; any other file loads as the spawned genome with fitness negative infinity |
| Checkpoint.SaveAllReadsBack | src/main/java/fwcd/sc18/geneticneural/Population.java:356-369 | after saveAll, the counter file reads back, with the load as written, as the saved counters except longestStreak, which reads 0. Each individual file reads back as its record with NaNs made canonical. When a backup is due the backup files hold the same bytes |
| Populations.SortedByFitnessPermutes | src/main/java/fwcd/sc18/geneticneural/Population.java:426-428 | sorting by fitness keeps exactly the genomes of the table |
| Populations.SortedByFitnessDescends | src/main/java/fwcd/sc18/geneticneural/Population.java:426-428 | after sorting, fitness is non-increasing along the ranks under Float.compare |
| Populations.SortedByFitnessStable | src/main/java/fwcd/sc18/geneticneural/Population.java:426-428 | genomes of equal fitness keep their relative order |
| Populations.FittestFirst | src/main/java/fwcd/sc18/geneticneural/Population.java:211-212 | after sorting, rank 0 holds a maximal fitness, which becomes maxFitness |
| Populations.Mutated | src/main/java/fwcd/sc18/geneticneural/Population.java:430-447 | each gene of the target below the source's length becomes the perturbed source gene; any longer tail of the target keeps its values |
| Populations.CopyMutatedAt | src/main/java/fwcd/sc18/geneticneural/Population.java:453-464 | copyMutate writes only ranks survivors+i for i below the count, each with the mutated genes of rank i; no other rank and no genome length changes |
| Populations.DistinctPermutation | src/main/java/fwcd/sc18/geneticneural/Population.java:426-428 | a permutation of a list without repeats has no repeats |
| Populations.ReadIndividual | src/main/java/fwcd/sc18/geneticneural/Population.java:405-413 | reading an individual file into a FloatList and an array gives a fresh array with the decoded genes, or fails exactly when decoding fails; the list's buffer stays within Java's array bound |
| Populations.Population.constructor | src/main/java/fwcd/sc18/geneticneural/Population.java:77-103 | survivors is size/2. When every individual file below size exists, the files are loaded with the code's own decoders. Otherwise the table is refilled with size spawned genomes of fitness negative infinity |
| Populations.Population.LoadOrSpawn | src/main/java/fwcd/sc18/geneticneural/Population.java:93-102 | the population is either the one loaded by the code as written or size spawned genomes with fitness negative infinity, whichever the constructor's fallback rule gives |
| Populations.Population.LoadAll | src/main/java/fwcd/sc18/geneticneural/Population.java:397-424 | loading succeeds exactly when every individual file below the total exists. On success each rank holds its file's record, or a respawned genome. The counter is decoded as loadCounter does, or written when that load fails |
| Populations.Population.LoadIndividuals | src/main/java/fwcd/sc18/geneticneural/Population.java:398-417 | the loop over the indices puts each file's record, or a respawned genome, at its rank, and stops at the first missing file |
| Populations.Population.PutLoaded | src/main/java/fwcd/sc18/geneticneural/Population.java:405-416 | one loaded or respawned individual is appended as a fresh genome; earlier ranks keep their fitness |
| Populations.Population.LoadCounter | src/main/java/fwcd/sc18/geneticneural/Population.java:319-341 | loading fails exactly when the counter file is missing or shorter than 4 bytes. Otherwise the fields are read with readIntOrZero's guard as written, so the last int present is never read |
| Populations.Population.SaveCounter | src/main/java/fwcd/sc18/geneticneural/Population.java:252-268 | the counter file is replaced by the encoding of the nine fields |
| Populations.Population.Put | src/main/java/fwcd/sc18/geneticneural/Population.java:148-153 | put maps the genome to its fitness; a new genome is appended at the last rank, and an existing one keeps its rank |
| Populations.Population.PutAt | src/main/java/fwcd/sc18/geneticneural/Population.java:159-161 | the indexed put checks the position, inserts a new genome there or keeps an existing one in place, and maps it to its fitness |
| Populations.Population.SelectTrainingGenes | src/main/java/fwcd/sc18/geneticneural/Population.java:115-123 | a counter outside [0, size) is reset to 0; the result is the line-up's entry at trainIndex, or an index error |
| Populations.Population.SelectFittestGenes | src/main/java/fwcd/sc18/geneticneural/Population.java:128-146 | the result has a fitness above negative infinity and at least that of every other genome; NoSuchElement exactly when no fitness is above negative infinity |
| Populations.Population.Sample | src/main/java/fwcd/sc18/geneticneural/Population.java:108-110 | training mode selects the training genes; otherwise the fittest genes are selected and the counter is untouched |
| Populations.Population.SortByFitnessDescending | src/main/java/fwcd/sc18/geneticneural/Population.java:426-428 | the ranks become the stable descending sort by fitness; the mapping is unchanged |
| Populations.Population.Mutate | src/main/java/fwcd/sc18/geneticneural/Population.java:430-447 | the target receives the perturbed source genes; a target shorter than its source raises CorruptedData(targetIndex) after the genes that fit are written |
| Populations.Population.CopyMutate | src/main/java/fwcd/sc18/geneticneural/Population.java:453-464 | targets in the lower half receive mutated copies of their sources with fitness negative infinity; a short target stops the loop with CorruptedData at its rank after partial writes |
| Populations.Population.SaveStats | src/main/java/fwcd/sc18/geneticneural/Population.java:270-317 | the stats log is replaced as saveStats writes it: compacted as written when due, with the current record appended |
| Populations.Population.CreateBackup | src/main/java/fwcd/sc18/geneticneural/Population.java:371-395 | the counter file and the first n individual files are copied into the backup folder |
| Populations.Population.SaveIndividuals | src/main/java/fwcd/sc18/geneticneural/Population.java:357-361 | each genome's record is written to the file named by its rank |
| Populations.Population.SaveStaged | src/main/java/fwcd/sc18/geneticneural/Population.java:356-364 | the individual files, then the counter file, then the stats log are written, each in the code's own format |
| Populations.Population.SaveAll | src/main/java/fwcd/sc18/geneticneural/Population.java:356-369 | saveAll writes the staged files as the code does and takes a backup exactly when it is due |
| Populations.Population.Count | src/main/java/fwcd/sc18/geneticneural/Population.java:184-193 | the counter and streak update of evolve, with the next-individual and next-generation flags |
| Populations.Population.TallyMatch | src/main/java/fwcd/sc18/geneticneural/Population.java:195-206 | the tallies are updated for the match outcome |
| Populations.Population.Play | src/main/java/fwcd/sc18/geneticneural/Population.java:181-206 | evolve's per-match step records the fitness, advances the counters, tallies the match, and reports whether a generation boundary was reached |
| Populations.Population.BeginGeneration | src/main/java/fwcd/sc18/geneticneural/Population.java:211-216 | the table is sorted, maxFitness is the fitness at rank 0, and the next generation starts |
| Populations.Population.SortAndCopy | src/main/java/fwcd/sc18/geneticneural/Population.java:211-219 | the table is sorted, the next generation is started, and the lower half is copied with mutation from the sorted table's genes. A target too short for its source stops the copy with CorruptedData at its rank: every earlier target holds its mutated genes at fitness negative infinity, and the failing one is written as far as it reaches |
| Populations.Population.FinishGeneration | src/main/java/fwcd/sc18/geneticneural/Population.java:220-228 | the copied generation is saved as the code writes it, with the new counters and the best fitness; then the tallies and maxFitness are reset |
| Populations.Population.CloseGeneration | src/main/java/fwcd/sc18/geneticneural/Population.java:208-229 | the whole boundary is performed from the given state and saved as the code writes it, and evolve's result is passed through. A corrupted target aborts it after the copy with nothing saved, leaving the sorted table with the earlier targets copied and the failing target, named by the error, partly written |
| Populations.Population.Evolve | src/main/java/fwcd/sc18/geneticneural/Population.java:176-234 | outside training mode nothing changes and the result is false. In training mode the match is recorded and the result is whether the counter moved on. At a boundary, the generation is closed and saved as the code writes it; a short target propagates CorruptedData, with the table left as the partial copy made it. Off the boundary no genome array is written |
| IndexedMaps.IndexedHashMap.Size | src/com/fwcd/sc18/utils/IndexedHashMap.java:24-27 | size counts the mappings, whatever the key list holds |
| IndexedMaps.IndexedHashMap.IsEmpty | src/com/fwcd/sc18/utils/IndexedHashMap.java:29-32 | isEmpty holds exactly when there is no mapping |
| IndexedMaps.IndexedHashMap.ContainsKey | src/com/fwcd/sc18/utils/IndexedHashMap.java:34-37 | containsKey consults only the map |
| IndexedMaps.IndexedHashMap.ContainsValue | src/com/fwcd/sc18/utils/IndexedHashMap.java:39-42 | containsValue holds exactly when some key maps to the value |
| IndexedMaps.IndexedHashMap.Get | src/com/fwcd/sc18/utils/IndexedHashMap.java:44-47 | get returns the mapped value, or null for a key without a mapping |
| IndexedMaps.IndexedHashMap.Put | src/com/fwcd/sc18/utils/IndexedHashMap.java:49-53 | put maps the key, returns the previous value, and always appends the key to the list, even when it is already listed; the invariant is kept |
| IndexedMaps.IndexedHashMap.Remove | src/com/fwcd/sc18/utils/IndexedHashMap.java:55-59 | remove drops the mapping and only the first listing of the key, and returns the previous value |
| IndexedMaps.RemoveFirstCutsFirst | src/com/fwcd/sc18/utils/IndexedHashMap.java:57 | ArrayList.remove(Object) leaves a list without the key alone, and otherwise cuts out exactly the key's first occurrence |
| IndexedMaps.RemoveFirstMultiset | src/com/fwcd/sc18/utils/IndexedHashMap.java:57 | removing the key takes exactly one copy of it from the list |
| IndexedMaps.IndexedHashMap.PutAll | src/com/fwcd/sc18/utils/IndexedHashMap.java:61-68 | putAll appends the other map's keys in its key-set order and then copies its mappings |
| IndexedMaps.IndexedHashMap.Clear | src/com/fwcd/sc18/utils/IndexedHashMap.java:70-74 | clear empties both the list and the map |
| IndexedMaps.IndexedHashMap.GetKey | src/com/fwcd/sc18/utils/IndexedHashMap.java:91-94 | getKey returns the key at the position, and an index error exactly when the position is outside [0, length) |
| IndexedMaps.IndexedHashMap.PutAt | src/com/fwcd/sc18/utils/IndexedHashMap.java:96-100 | the indexed put inserts the key at a position in [0, length], shifting later keys, maps it and returns the previous value; any other position changes nothing |
| IndexedMaps.IndexedHashMap.RemoveAt | src/com/fwcd/sc18/utils/IndexedHashMap.java:102-105 | the indexed remove takes out the key at the position and its mapping, and returns the value; a position outside [0, length) changes nothing |
| IndexedMaps.IndexedHashMap.SetValue | src/main/java/com/thedroide/sc18/utils/IndexedMap.java:39-41 | setValue is put(index, getKey(index), value): it maps the key, and the key's re-insertion makes it appear twice in a row, growing the list by one |
| IndexedMaps.IndexedHashMap.GetValue | src/main/java/com/thedroide/sc18/utils/IndexedMap.java:43-45 | getValue is get of the key at the position, and an index error outside the list |
| IndexedMaps.IndexedHashMap.SortByValue | src/com/fwcd/sc18/utils/IndexedHashMap.java:107-110 | the map is untouched, and the key list becomes a stable permutation of itself sorted by value under the comparator |
| IndexedMaps.IndexedHashMap.SortByKey | src/com/fwcd/sc18/utils/IndexedHashMap.java:112-115 | the map is untouched, and the key list becomes a stable permutation of itself sorted by the comparator |
| IndexedMaps.SortKeepsKeys | src/com/fwcd/sc18/utils/IndexedHashMap.java:107-115 | every key listed before a sort is still listed after it, so every mapping keeps a position |
| IndexedMaps.IndexedHashMap.constructor | src/com/fwcd/sc18/utils/IndexedHashMap.java:21-22 | a new map has an empty list and no mappings |
| FloatLists.CopyOf | src/main/java/com/fwcd/sc18/utils/FloatList.java:19 | Arrays.copyOf returns a fresh array of the requested length holding the prefix, padded with 0.0f |
| FloatLists.FloatList.constructor | src/main/java/com/fwcd/sc18/utils/FloatList.java:9-11 | a new list is empty with capacity 10 |
| FloatLists.FloatList.WithCapacity | src/main/java/com/fwcd/sc18/utils/FloatList.java:13-15 | a new list is empty with the requested capacity, which is a Java int |
| FloatLists.FloatList.EnsureCapacity | src/main/java/com/fwcd/sc18/utils/FloatList.java:17-22 | the array grows by exactly 10 slots, keeping every stored value and padding with 0.0f, exactly when the size is at least the capacity minus one. A capacity within 10 of Integer.MAX_VALUE makes the int length wrap negative, and the growth fails with NegativeArraySize at that length, leaving the array as it was |
| FloatLists.FloatList.Size | src/main/java/com/fwcd/sc18/utils/FloatList.java:24-26 | size is the number of elements |
| FloatLists.FloatList.Add | src/main/java/com/fwcd/sc18/utils/FloatList.java:28-32 | add appends the value, raising the size by one and keeping a free slot. A growth that overflows fails with NegativeArraySize; otherwise the write fails, with ArrayIndexOutOfBounds, exactly when the size is negative or past the grown array. A sane list below Integer.MAX_VALUE - 10 elements always succeeds |
| FloatLists.FloatList.AddAll | src/main/java/com/fwcd/sc18/utils/FloatList.java:34-39 | addAll first raises the size in wrapping int arithmetic, then grows at most once. An overflowing growth fails with NegativeArraySize. Otherwise the values are appended exactly when the old size is non-negative and the old size plus their number fits the capacity after that growth; else the copy fails with ArrayIndexOutOfBounds and the size stays raised |
| FloatLists.FloatList.RemoveLast | src/main/java/com/fwcd/sc18/utils/FloatList.java:41-43 | removeLast decrements the size without any check, wrapping Integer.MIN_VALUE to Integer.MAX_VALUE; when the list had an element, it drops the last one |
| FloatLists.FloatList.Get | src/main/java/com/fwcd/sc18/utils/FloatList.java:45-51 | get returns the i-th element for 0 <= i < size, IndexOutOfBounds for i >= size, and the array's ArrayIndexOutOfBounds for a negative i |
| FloatLists.FloatList.ToArray | src/main/java/com/fwcd/sc18/utils/FloatList.java:53-55 | toArray returns a fresh array of exactly the elements |
| Lazies.Lazy.constructor | src/main/java/fwcd/sc18/utils/Lazy.java:6-11 | the supplier is fixed and the cache starts empty |
| Lazies.Lazy.Get | src/main/java/fwcd/sc18/utils/Lazy.java:13-19 | with an empty cache, get calls the supplier once and caches its answer, which may be null; with a value cached, it returns it without a call |
| Lazies.FirstAnswer | src/main/java/fwcd/sc18/utils/Lazy.java:14-16 | the first call number whose answer is not null, among the first n calls |
| Lazies.CacheIsFirstAnswer | src/main/java/fwcd/sc18/utils/Lazy.java:13-19 | in a valid cell the cache is empty while every answer so far was null, and afterwards holds the first answer that was not null |
| HuiUtils.GenerateWeights | src/main/java/fwcd/sc18/utils/HUIUtils.java:31-37 | the weight array has length equal to the sum over consecutive layers of (size[i-1]+1)*size[i], in int arithmetic; a negative count raises NegativeArraySize |
| HuiUtils.GenerateWeightsCount | src/main/java/fwcd/sc18/utils/HUIUtils.java:31-37 | for layer sizes that are not negative and a sum that fits an int, the length is exactly the sum; fewer than two layers give no weights |
| HuiUtils.WeightSumGrows | src/main/java/fwcd/sc18/utils/HUIUtils.java:33-35 | with sizes that are not negative, each further layer only adds weights |
| HuiUtils.WeightSumOfThreeLayers | src/main/java/fwcd/sc18/utils/HUIUtils.java:33-35 | an input, a hidden and an output layer of sizes a, b, c need (a+1)b + (b+1)c weights |
| HuiUtils.HasCyclicCarrotExchange | src/main/java/fwcd/sc18/utils/HUIUtils.java:41-54 | true exactly when both last non-skip actions exchange carrots with non-zero values of opposite sign |
| HuiUtils.GetWinnerOrNull | src/main/java/fwcd/sc18/utils/HUIUtils.java:101-114 | at the round limit the player further ahead wins, blue on a tie. Before it, red wins when in the goal, else blue when in the goal, else there is no winner |
| HuiUtils.IsGameOver | src/main/java/fwcd/sc18/utils/HUIUtils.java:136-140 | the game is over exactly when getWinnerOrNull has a winner |
| HuiUtils.TieGoesToBlue | src/main/java/fwcd/sc18/utils/HUIUtils.java:105-106 | a tie at the round limit goes to blue, even when red is in the goal |
| HuiUtils.DistToNextField | src/main/java/fwcd/sc18/utils/HUIUtils.java:116-118 | the distance added to the current index gives the next field of the type, with int wrap-around; without overflow it is the plain difference |
| HuiUtils.DistToNextSalad | src/main/java/fwcd/sc18/utils/HUIUtils.java:124-134 | with an eat-salad card, the smaller of the salad and hare distances; without one, the salad distance |
| HuiUtils.ToString | src/main/java/fwcd/sc18/utils/HUIUtils.java:74-89 | "[Move] " followed by each action's text in order |
| HuiUtils.ActionsTextAppend | src/main/java/fwcd/sc18/utils/HUIUtils.java:77-86 | the text of a move is the concatenation of the texts of its parts |
| HuiUtils.ActionsTextLength | src/main/java/fwcd/sc18/utils/HUIUtils.java:79-85 | each action contributes at least its parentheses and a space |
| HuiUtils.GetActionTypes | src/main/java/fwcd/sc18/utils/HUIUtils.java:142-150 | the set holds the class of every action of the move and nothing else |
| SmartHeuristics.CarrotOptimum | src/com/thedroide/sc18/heuristics/SmartHeuristic.java:72-83 | on the track, the optimum is (70 - f)/2 rounded down |
| SmartHeuristics.CarrotOptimumFalls | src/com/thedroide/sc18/heuristics/SmartHeuristic.java:72-83 | the carrot optimum does not increase along the track |
| SmartHeuristics.RateExact | src/com/thedroide/sc18/heuristics/SmartHeuristic.java:60-70 | for moderate statistics, the rating is 4*field - 256*salads - |carrots - optimum|/4, with truncating division and no wrap-around |
| SmartHeuristics.RateAtMostPosition | src/com/thedroide/sc18/heuristics/SmartHeuristic.java:65-69 | the carrot term is never positive, so the rating is at most 4*field - 256*salads, with equality at the optimum |
| SmartHeuristics.RateSaladCost | src/com/thedroide/sc18/heuristics/SmartHeuristic.java:65 | one more salad lowers the rating by exactly 256 |
| SmartHeuristics.Heuristic | src/com/thedroide/sc18/heuristics/SmartHeuristic.java:31-58 | +infinity exactly for an undiscarded move whose lookups succeed and that reaches the goal. A finite rating exactly when, in addition, the last action was neither ExchangeCarrots nor FallBack, and it is rate(player after). Everything else gives -infinity |
| SmartHeuristics.PruneMove | src/com/thedroide/sc18/heuristics/SmartHeuristic.java:85-103 | a move is pruned exactly when the game after it has a winner, or it exchanges carrots right after an exchange; an exception on the way keeps the move |
| SmartHeuristics.PruneGameEnd | src/com/thedroide/sc18/heuristics/SmartHeuristic.java:93 | once there is a winner, the later lookups are never reached |
| LightPruners.PruneMove | src/com/thedroide/sc18/heuristics/LightPruner.java:18-36 | prunes only when the winner lookup succeeds, always when there is a winner, and otherwise exactly for a carrot exchange right after an exchange |
| LightPruners.PrunersAgree | src/com/thedroide/sc18/heuristics/LightPruner.java:19-36 | LightPruner and SmartHeuristic prune exactly the same moves |
| JavaInts.JavaDiv | src/com/thedroide/sc18/heuristics/SmartHeuristic.java:67 | Java's `/` by a positive divisor rounds toward zero: the remainder has the sign of the dividend |
| JavaInts.Abs32 | src/com/thedroide/sc18/heuristics/SmartHeuristic.java:67 | Math.abs is the magnitude, except that Integer.MIN_VALUE stays itself |
| JavaInts.WrapAdd | src/main/java/fwcd/sc18/utils/HUIUtils.java:34 | an int sum wrapped step by step equals the unbounded sum wrapped once |
| JavaInts.WrapMul | src/main/java/fwcd/sc18/utils/HUIUtils.java:34 | an int product wrapped step by step equals the unbounded product wrapped once |

## Left out

- Float arithmetic and randomness.
  - The Gaussian mutation is a parameter `perturb(generation, rank, gene index, value)`.
  - The weight initialisation of generateWeights (HUIUtils.initWeights) is not part of this model, and neither are normalize and invertNormalize.
- The supplier of new genomes is a function from the rank to genes.
  - The model allocates a fresh array for each genome.
  - The constructor's spawner asks are numbered by rank, not by call.
- GeneticStrategy is not part of this model.
  - selectTrainingGenes is a parameter, the line-up.
  - onPreNextGeneration and onPostNextGeneration are taken to change nothing.
- The file system is a map from names to bytes.
  - Writes always succeed, so the UncheckedIOException on a failed write is not modelled.
  - Only the IOException branches the code handles are modelled: a respawned individual and a failed counter load.
  - Directory creation, Files.copy's metadata and partial channel reads are not modelled.
  - `available()` is the number of bytes left.
- Bytes are ints in 0..255 rather than bit-vectors. The values and the big-endian order are the same.
- Binary32.FloatToInt: the function's own contract states only the special cases and the sign. The truncated value in general is stated separately, by FloatToIntRoundsTowardZero, against the real value of the pattern.
- Populations.Population.constructor: size is a nat. In Java a negative size makes loadAll succeed with an empty table, after the counter is loaded or written, and sets survivorsPerGeneration to size / 2 rounded toward zero. That case is excluded by the parameter type.
- Checkpoint.SaveStatsFile: the `(int)` cast of the stats log's size is not modelled. The model reads a log of 2^31 bytes or more at its full length, where Java would wrap the size.
- Checkpoint.IndividualRoundTrip: readFloat is taken to return the bit pattern it read unchanged, NaN payloads included, as Float.intBitsToFloat does.
- Logging, Population.log and the toString of the population are not modelled.
- The getters getCounter, getStreak and getFitness are not modelled.
- Populations.Population.SelectFittestGenes: the contract does not say which of several equally fit genomes is returned. That depends on HashMap's key-set order, which the model leaves open.
- IndexedMaps.IndexedHashMap.PutAll: the key-set order of the other map is a parameter.
- keySet, values and entrySet of IndexedHashMap are not modelled. They return live views of the map.
- Populations.Population.Put: the table lists each genome once, so putting a known genome, and copyMutate's setValue, only change its fitness. Population uses fwcd.sc18.utils.IndexedHashMap, which is not part of this model; the class's own comments on put say it adds or replaces. The IndexedHashMap of com.fwcd.sc18.utils modelled here would instead list the key again.
- IndexedMaps.IndexedHashMap.SortByValue: the result is insertion sort's order for every comparator. For a comparator that breaks the Comparator contract, Collections.sort may raise IllegalArgumentException or order the keys differently; that case is not modelled. Sortedness and stability are proved for total preorders only.
- IndexedMaps.IndexedHashMap.SortByKey: as for SortByValue, a comparator that breaks the Comparator contract is not modelled.
- LightPruners.PrunersAgree: the two pruners look the player up differently (gameBeforeMove.getSCPlayer(player) in LightPruner, player.getSCPlayer(gameBeforeMove) in SmartHeuristic). Both lookups are taken to answer, and raise, alike, so both pruners receive the same lookup parameter.
- Keys are compared with Dafny equality. For the float[] genomes this is identity, as in Java.
- FloatLists.FloatList.WithCapacity: a negative initial size, which makes the Java allocation throw, is excluded by the parameter type.
- Populations.ReadIndividual: in a file of about 2^31 floats, Java's FloatList fails to grow, and the NegativeArraySizeException escapes loadAll. The model instead decodes the rest of such a file without the list.
- HUIUtils.spawnChild and distToPrevField are not part of this model.
- HUIUtils.toString and getActionTypes name only Advance, ExchangeCarrots and FallBack. Every other action class is known by its simple name.
- The game engine's answers are parameters:
  - the round;
  - the field indices;
  - the goal flags;
  - the last non-skip actions;
  - the next field of a type;
  - the eat-salad card;
  - the players' salads and carrots.
- Constants.ROUND_LIMIT is a parameter.
- SmartHeuristics.Heuristic: only GameRuntimeException is modelled, as `Raised`. Any other exception propagates out of heuristic in Java, and the model leaves it out.
- The heuristic's double result is `NegInf`, `PosInf` or `Finite(int)`. The int a finite rating comes from converts to double exactly.

## Findings

The Population class is modelled as the code is written: it saves the stats log with CompactStatsAsWritten and loads the counter file with DecodeCounter. The corrected definitions, CompactStats and DecodeCounterFixed, sit beside them and carry the intended properties.

| source | as written | input that shows it | evidently intended | confidence | as-written member | corrected member |
|---|---|---|---|---|---|---|
| src/main/java/fwcd/sc18/geneticneural/Population.java:286-290 | the stats log is cut to maxStatsBytes rounded down to a multiple of chunkSize (7 ints), so the kept length is not a whole number of 28-byte records | a log of 3572 records (100016 bytes) at generation 1000: the first 99995 bytes are kept, ending mid-record | round the kept length to chunkBytes (28) so that the newest whole records are kept | not executed | Checkpoint.CompactStatsAsWrittenMisaligns | Checkpoint.CompactStatsKeepsNewestRecords |
| src/main/java/fwcd/sc18/geneticneural/Population.java:339-341 | readIntOrZero reads the next int only while more than 4 bytes remain, so the last int of the counter file is never read | any 36-byte counter file with longestStreak 5 loads with longestStreak 0 | read whenever at least 4 bytes remain | not executed | Checkpoint.CounterLosesLongestStreak | Checkpoint.CounterRoundTrip |
