/** The population's checkpoint directory: one file per individual, the
    counter file, the stats log and the backup folder, kept as a map from
    file names to their bytes. Every value is written with DataOutputStream,
    so each int and float takes four bytes, most significant first. */
module Checkpoint {
  import opened Words
  import opened Decimal
  import opened Binary32
  import opened Generations
  import opened Wrappers

  const IndividualPrefix: string := "Individual"
  const CounterName: string := "Counter"
  const StatsName: string := "Stats"
  const BackupFolder: string := "Backup"

  /** The size above which the stats log is compacted. */
  const MaxStatsBytes: nat := 100000
  /** The ints of one stats record, and its bytes. */
  const StatsChunkInts: nat := 7
  const StatsChunkBytes: nat := 28

  /** individualFilePrefix + index. */
  function IndividualName(i: nat): (name: string)
    ensures |name| > |IndividualPrefix| && name[..|IndividualPrefix|] == IndividualPrefix
  {
    IndividualPrefix + NatToString(i)
  }

  /** A file of the backup folder next to the checkpoint files. */
  function BackupName(name: string): (b: string)
    ensures |b| == |BackupFolder| + 1 + |name| && b[..|BackupFolder| + 1] == BackupFolder + "/"
  {
    BackupFolder + "/" + name
  }

  /** The individual files of different indices are different files, and
      none of them is the counter or the stats file or in the backup folder. */
  lemma IndividualNamesDistinct(i: nat, j: nat)
    ensures IndividualName(i) == IndividualName(j) <==> i == j
    ensures IndividualName(i) != CounterName && IndividualName(i) != StatsName
    ensures forall n :: IndividualName(i) != BackupName(n)
  {
    var a, b := IndividualName(i), IndividualName(j);
    if a == b {
      assert a[|IndividualPrefix|..] == NatToString(i);
      assert b[|IndividualPrefix|..] == NatToString(j);
      NatToStringInjective(i, j);
    }
    assert a[0] == 'I';
    forall n ensures a != BackupName(n) {
      assert BackupName(n)[0] == 'B';
    }
  }

  lemma BackupNamesDistinct(n: string, m: string)
    ensures BackupName(n) == BackupName(m) <==> n == m
    ensures BackupName(n) != CounterName && BackupName(n) != StatsName
  {
    var a, b := BackupName(n), BackupName(m);
    if a == b {
      assert a[|BackupFolder| + 1..] == n;
      assert b[|BackupFolder| + 1..] == m;
    }
    assert a[0] == 'B';
  }

  // ---------------------------------------------------------------------
  // The individual record

  /** One saved individual: its fitness and its genes, as float patterns. */
  datatype Individual = Individual(fitness: Word, genes: seq<Word>)

  /** The record as writeFloat stores it: every pattern passed through
      Float.floatToIntBits, so that each NaN becomes the canonical NaN. */
  function Canonicalised(x: Individual): (y: Individual)
    ensures y.fitness == FloatToIntBits(x.fitness) && |y.genes| == |x.genes|
    ensures forall k :: 0 <= k < |x.genes| ==> y.genes[k] == FloatToIntBits(x.genes[k])
  {
    Individual(FloatToIntBits(x.fitness),
               seq(|x.genes|, k requires 0 <= k < |x.genes| => FloatToIntBits(x.genes[k])))
  }

  /** A record whose NaNs, if it has any, are all the canonical NaN. */
  predicate Canonical(x: Individual) {
    IsCanonical(x.fitness) && forall k :: 0 <= k < |x.genes| ==> IsCanonical(x.genes[k])
  }

  /** Canonicalising gives a canonical record; it changes exactly the
      records that are not canonical already. */
  lemma CanonicalisedIsCanonical(x: Individual)
    ensures Canonical(Canonicalised(x))
    ensures Canonicalised(x) == x <==> Canonical(x)
  {
    var y := Canonicalised(x);
    forall k | 0 <= k < |x.genes| ensures IsCanonical(y.genes[k]) {
      FloatToIntBitsKeepsOrder(x.genes[k], 0);
    }
    FloatToIntBitsKeepsOrder(x.fitness, 0);
    if Canonical(x) {
      forall k | 0 <= k < |x.genes| ensures y.genes[k] == x.genes[k] {
        FloatToIntBitsKeepsOrder(x.genes[k], 0);
      }
      assert y.genes == x.genes;
    }
    if y == x {
      forall k | 0 <= k < |x.genes| ensures IsCanonical(x.genes[k]) {
        assert x.genes[k] == y.genes[k];
      }
    }
  }

  /** save: writeFloat(fitness), then writeFloat of every gene. */
  function EncodeIndividual(x: Individual): (b: seq<Byte>)
    ensures |b| == 4 + 4 * |x.genes|
  {
    var y := Canonicalised(x);
    WordBytes(y.fitness) + EncodeWords(y.genes)
  }

  /** loadAll's reading of one file: readFloat for the fitness, then
      readFloat while bytes remain. A file shorter than four bytes, or with
      a trailing partial float, raises an EOFException. */
  function DecodeIndividual(b: seq<Byte>): (r: Option<Individual>)
    ensures r.None? <==> |b| < 4 || |b| % 4 != 0
    ensures r.Some? ==> |r.value.genes| == (|b| - 4) / 4
  {
    if |b| < 4 || (|b| - 4) % 4 != 0 then None
    else Some(Individual(WordAt(b, 0), DecodeWords(b, 4)))
  }

  lemma {:induction false} DecodeWordsShift(a: seq<Byte>, e: seq<Byte>, i: nat)
    requires i <= |e| && (|e| - i) % 4 == 0
    ensures DecodeWords(a + e, |a| + i) == DecodeWords(e, i)
    decreases |e| - i
  {
    if i < |e| {
      WholeWordsStep(e, i);
      WholeWordsStep(a + e, |a| + i);
      DecodeWordsShift(a, e, i + 4);
      WordAtShift(a, e, i);
    }
  }

  /** Saving and loading gives back every individual with its NaNs made
      canonical, so a canonical individual comes back unchanged. */
  lemma IndividualRoundTrip(x: Individual)
    ensures DecodeIndividual(EncodeIndividual(x)) == Some(Canonicalised(x))
    ensures Canonical(x) ==> DecodeIndividual(EncodeIndividual(x)) == Some(x)
  {
    var y := Canonicalised(x);
    var head, tail := WordBytes(y.fitness), EncodeWords(y.genes);
    var b := head + tail;
    assert WordAt(b, 0) == WordAt(head, 0);
    WordRoundTrip(y.fitness);
    DecodeWordsShift(head, tail, 0);
    WordsRoundTrip(y.genes);
    CanonicalisedIsCanonical(x);
  }

  /** A file that loads is the encoding of what it loads as exactly when
      that individual is canonical; otherwise saving it again rewrites its
      NaNs. */
  lemma IndividualBytesRoundTrip(b: seq<Byte>)
    requires DecodeIndividual(b).Some?
    ensures EncodeIndividual(DecodeIndividual(b).value) == b <==> Canonical(DecodeIndividual(b).value)
  {
    var v := DecodeIndividual(b).value;
    BytesRoundTrip(b, 0);
    BytesWordsRoundTrip(b, 4);
    assert b == b[0..4] + b[4..];
    assert WordBytes(v.fitness) + EncodeWords(v.genes) == b;
    CanonicalisedIsCanonical(v);
    IndividualRoundTrip(v);
  }

  /** Saving a loaded individual again writes the same bytes as saving it
      the first time did. */
  lemma SavingIsIdempotent(x: Individual)
    ensures EncodeIndividual(Canonicalised(x)) == EncodeIndividual(x)
  {
    CanonicalisedIsCanonical(x);
    CanonicalisedIsCanonical(Canonicalised(x));
  }

  // ---------------------------------------------------------------------
  // The counter record

  /** The nine counters in the order saveCounter writes them. */
  function CounterFields(c: Counters): (s: seq<Int32>)
    ensures |s| == 9
  {
    [c.counter, c.streak, c.generation, c.wins, c.goalWins, c.losses,
     c.minGoalMoves, c.maxGoalMoves, c.longestStreak]
  }

  function IntsBits(xs: seq<Int32>): (ws: seq<Word>)
    ensures |ws| == |xs|
    ensures forall k :: 0 <= k < |xs| ==> BitsInt(ws[k]) == xs[k]
  {
    if xs == [] then [] else [IntBits(xs[0])] + IntsBits(xs[1..])
  }

  /** saveCounter: nine writeInt calls. */
  function EncodeCounter(c: Counters): (b: seq<Byte>)
    ensures |b| == 36
  {
    EncodeWords(IntsBits(CounterFields(c)))
  }

  /** readIntOrZero after j ints have been read, as written: the int is read
      only when MORE than four bytes remain. Once a field reads as zero no
      byte is consumed, so every later field finds the same or fewer bytes
      and reads as zero too; field j is therefore read at offset 4 * j. */
  function ReadIntOrZero(b: seq<Byte>, j: nat): Int32 {
    if |b| - 4 * j > 4 then BitsInt(WordAt(b, 4 * j)) else 0
  }

  /** loadCounter as written: the first int must be there, the others are
      read by ReadIntOrZero. */
  function DecodeCounter(b: seq<Byte>): (r: Option<Counters>)
    ensures r.None? <==> |b| < 4
  {
    if |b| < 4 then None
    else Some(Counters(BitsInt(WordAt(b, 0)),
                       ReadIntOrZero(b, 1), ReadIntOrZero(b, 2), ReadIntOrZero(b, 3),
                       ReadIntOrZero(b, 4), ReadIntOrZero(b, 5), ReadIntOrZero(b, 6),
                       ReadIntOrZero(b, 7), ReadIntOrZero(b, 8)))
  }

  /** The evidently intended test: read the int when four bytes remain. */
  function ReadIntIfAvailable(b: seq<Byte>, j: nat): Int32 {
    if |b| - 4 * j >= 4 then BitsInt(WordAt(b, 4 * j)) else 0
  }

  function DecodeCounterFixed(b: seq<Byte>): (r: Option<Counters>)
    ensures r.None? <==> |b| < 4
  {
    if |b| < 4 then None
    else Some(Counters(BitsInt(WordAt(b, 0)),
                       ReadIntIfAvailable(b, 1), ReadIntIfAvailable(b, 2), ReadIntIfAvailable(b, 3),
                       ReadIntIfAvailable(b, 4), ReadIntIfAvailable(b, 5), ReadIntIfAvailable(b, 6),
                       ReadIntIfAvailable(b, 7), ReadIntIfAvailable(b, 8)))
  }

  lemma CounterWordsAt(c: Counters, k: nat)
    requires k < 9
    ensures BitsInt(WordAt(EncodeCounter(c), 4 * k)) == CounterFields(c)[k]
  {
    EncodeWordsAt(IntsBits(CounterFields(c)), k);
  }

  /** With the corrected test every counter survives saving and loading. */
  lemma CounterRoundTrip(c: Counters)
    ensures DecodeCounterFixed(EncodeCounter(c)) == Some(c)
  {
    var b := EncodeCounter(c);
    CounterWordsAt(c, 0); CounterWordsAt(c, 1); CounterWordsAt(c, 2);
    CounterWordsAt(c, 3); CounterWordsAt(c, 4); CounterWordsAt(c, 5);
    CounterWordsAt(c, 6); CounterWordsAt(c, 7); CounterWordsAt(c, 8);
  }

  /** As written, a complete counter file reads its last field,
      longestStreak, as 0 and everything else as saved. */
  lemma CounterLosesLongestStreak(c: Counters)
    ensures DecodeCounter(EncodeCounter(c)) == Some(c.(longestStreak := 0))
  {
    CounterWordsAt(c, 0); CounterWordsAt(c, 1); CounterWordsAt(c, 2);
    CounterWordsAt(c, 3); CounterWordsAt(c, 4); CounterWordsAt(c, 5);
    CounterWordsAt(c, 6); CounterWordsAt(c, 7);
  }

  /** Field j of a counter file as loadCounter reads it. */
  lemma DecodeCounterField(b: seq<Byte>, j: nat)
    requires |b| >= 4 && j < 9
    ensures CounterFields(DecodeCounter(b).value)[j] ==
      if j == 0 then BitsInt(WordAt(b, 0)) else ReadIntOrZero(b, j)
  {
    var f := CounterFields(DecodeCounter(b).value);
    if j == 0 { assert f[0] == BitsInt(WordAt(b, 0)); }
    else if j == 1 { assert f[1] == ReadIntOrZero(b, 1); }
    else if j == 2 { assert f[2] == ReadIntOrZero(b, 2); }
    else if j == 3 { assert f[3] == ReadIntOrZero(b, 3); }
    else if j == 4 { assert f[4] == ReadIntOrZero(b, 4); }
    else if j == 5 { assert f[5] == ReadIntOrZero(b, 5); }
    else if j == 6 { assert f[6] == ReadIntOrZero(b, 6); }
    else if j == 7 { assert f[7] == ReadIntOrZero(b, 7); }
    else { assert f[8] == ReadIntOrZero(b, 8); }
  }

  /** As written, a file of k whole ints (1 <= k <= 9) restores only its first
      max(1, k - 1) fields; the rest read as 0. */
  lemma CounterPrefixRestored(ws: seq<Word>, j: nat)
    requires 1 <= |ws| <= 9 && j < 9
    ensures DecodeCounter(EncodeWords(ws)).Some?
    ensures CounterFields(DecodeCounter(EncodeWords(ws)).value)[j] ==
      if j == 0 || j < |ws| - 1 then BitsInt(ws[j]) else 0
  {
    var b := EncodeWords(ws);
    DecodeCounterField(b, j);
    if j == 0 || j < |ws| - 1 {
      EncodeWordsAt(ws, j);
    }
  }

  // ---------------------------------------------------------------------
  // The stats log

  /** The seven ints of a stats record in the order saveStats writes them. */
  function StatsFields(c: Counters, maxFitness: Word): (s: seq<Int32>)
    ensures |s| == StatsChunkInts
  {
    [c.wins, c.goalWins, FloatToInt(maxFitness), c.losses,
     c.minGoalMoves, c.maxGoalMoves, c.longestStreak]
  }

  /** One stats record: seven writeInt calls. */
  function StatsRecord(c: Counters, maxFitness: Word): (b: seq<Byte>)
    ensures |b| == StatsChunkBytes
  {
    EncodeWords(IntsBits(StatsFields(c, maxFitness)))
  }

  /** Reading the record back int by int gives wins, goal wins, the best
      fitness cast to int, losses, the goal-move extremes and the longest
      streak, at offsets 0, 4, ..., 24. */
  lemma StatsRecordFields(c: Counters, maxFitness: Word)
    ensures var b := StatsRecord(c, maxFitness);
      && BitsInt(WordAt(b, 0)) == c.wins
      && BitsInt(WordAt(b, 4)) == c.goalWins
      && BitsInt(WordAt(b, 8)) == FloatToInt(maxFitness)
      && BitsInt(WordAt(b, 12)) == c.losses
      && BitsInt(WordAt(b, 16)) == c.minGoalMoves
      && BitsInt(WordAt(b, 20)) == c.maxGoalMoves
      && BitsInt(WordAt(b, 24)) == c.longestStreak
  {
    var ws := IntsBits(StatsFields(c, maxFitness));
    EncodeWordsAt(ws, 0); EncodeWordsAt(ws, 1); EncodeWordsAt(ws, 2); EncodeWordsAt(ws, 3);
    EncodeWordsAt(ws, 4); EncodeWordsAt(ws, 5); EncodeWordsAt(ws, 6);
  }

  /** Whether saveStats compacts the log before appending. */
  predicate CompactionDue(generation: Int32, fileExists: bool, fileSize: nat) {
    generation % 1000 == 0 && generation > 1 && fileExists && fileSize > MaxStatsBytes
  }

  /** The compaction as written: the kept length is rounded down to a
      multiple of the ints per record (7) rather than of its bytes (28). The
      bytes from position t on are moved to the front and the file is cut
      to the new length, so it keeps log[t .. t + newBytes]. */
  function CompactStatsAsWritten(log: seq<Byte>, maxBytes: nat): (r: seq<Byte>)
    requires |log| > maxBytes
    ensures |r| == maxBytes - maxBytes % StatsChunkInts
  {
    var newBytes := maxBytes - maxBytes % StatsChunkInts;
    var truncated := (|log| - newBytes) - (|log| - newBytes) % StatsChunkBytes;
    log[truncated .. truncated + newBytes]
  }

  /** The compaction as written keeps a window of the log that starts on a
      record boundary and ends less than one record before the end. */
  lemma CompactStatsAsWrittenWindow(log: seq<Byte>, maxBytes: nat)
    requires |log| > maxBytes
    ensures var r := CompactStatsAsWritten(log, maxBytes);
      var d := (|log| - |r|) - (|log| - |r|) % StatsChunkBytes;
      && d % StatsChunkBytes == 0
      && |log| - StatsChunkBytes < d + |r| <= |log|
      && r == log[d .. d + |r|]
  {
    var newBytes := maxBytes - maxBytes % StatsChunkInts;
    assert |CompactStatsAsWritten(log, maxBytes)| == newBytes;
    RoundDownToRecord(|log| - newBytes);
  }

  /** Rounding a byte count down to a whole number of records moves it back
      by less than one record. */
  lemma RoundDownToRecord(g: nat)
    ensures (g - g % StatsChunkBytes) % StatsChunkBytes == 0
    ensures g - StatsChunkBytes < g - g % StatsChunkBytes <= g
  {
    assert g == (g / StatsChunkBytes) * StatsChunkBytes + g % StatsChunkBytes;
    assert g - g % StatsChunkBytes == (g / StatsChunkBytes) * StatsChunkBytes;
  }


  /** A log of 3572 whole records, compacted as written, keeps its first
      99995 bytes: it drops the newest record's last 21 bytes and no longer
      ends on a record boundary. */
  lemma CompactStatsAsWrittenMisaligns(log: seq<Byte>)
    requires |log| == 3572 * StatsChunkBytes
    ensures CompactStatsAsWritten(log, MaxStatsBytes) == log[..99995]
    ensures |CompactStatsAsWritten(log, MaxStatsBytes)| % StatsChunkBytes != 0
  {
  }

  /** The compaction with the kept length rounded to whole records. */
  function CompactStats(log: seq<Byte>, maxBytes: nat): (r: seq<Byte>)
    requires |log| > maxBytes
    ensures |r| == maxBytes - maxBytes % StatsChunkBytes
  {
    var newBytes := maxBytes - maxBytes % StatsChunkBytes;
    var truncated := (|log| - newBytes) - (|log| - newBytes) % StatsChunkBytes;
    log[truncated .. truncated + newBytes]
  }

  /** On a log of whole records the corrected compaction keeps the newest
      whole records that fit in maxBytes. */
  lemma CompactStatsKeepsNewestRecords(log: seq<Byte>, maxBytes: nat)
    requires |log| > maxBytes && |log| % StatsChunkBytes == 0
    ensures var r := CompactStats(log, maxBytes);
      && r == log[|log| - |r|..]
      && |r| % StatsChunkBytes == 0
      && |r| <= maxBytes < |r| + StatsChunkBytes
  {
    var newBytes := maxBytes - maxBytes % StatsChunkBytes;
    var gap := |log| - newBytes;
    assert newBytes % StatsChunkBytes == 0;
    assert gap % StatsChunkBytes == 0;
  }

  /** saveStats on the log as written: created empty when missing,
      compacted when due, then one record appended. */
  function SaveStatsFile(prev: Option<seq<Byte>>, generation: Int32, record: seq<Byte>): (r: seq<Byte>)
    ensures prev.None? ==> r == record
    ensures |r| >= |record| && r[|r| - |record|..] == record
    ensures prev.Some? && !CompactionDue(generation, true, |prev.value|) ==> r == prev.value + record
    ensures prev.Some? && CompactionDue(generation, true, |prev.value|) ==>
      r == CompactStatsAsWritten(prev.value, MaxStatsBytes) + record
  {
    match prev
    case None => record
    case Some(s) =>
      (if CompactionDue(generation, true, |s|) then CompactStatsAsWritten(s, MaxStatsBytes) else s) + record
  }

  /** As written, a log of whole records stays one after every save except
      a compacting one, which leaves it 7 bytes past a record boundary. */
  lemma StatsLogAsWritten(prev: Option<seq<Byte>>, generation: Int32, c: Counters, maxFitness: Word)
    requires prev.Some? ==> |prev.value| % StatsChunkBytes == 0
    ensures var r := SaveStatsFile(prev, generation, StatsRecord(c, maxFitness));
      && (prev.Some? && CompactionDue(generation, true, |prev.value|) ==>
            |r| == MaxStatsBytes - MaxStatsBytes % StatsChunkInts + StatsChunkBytes && |r| % StatsChunkBytes == 7)
      && (|r| % StatsChunkBytes == 0 <==> !(prev.Some? && CompactionDue(generation, true, |prev.value|)))
  {
    StatsLogLength(prev, generation, StatsRecord(c, maxFitness));
  }

  /** StatsLogAsWritten for any record of the right length. */
  lemma StatsLogLength(prev: Option<seq<Byte>>, generation: Int32, record: seq<Byte>)
    requires prev.Some? ==> |prev.value| % StatsChunkBytes == 0
    requires |record| == StatsChunkBytes
    ensures var n := |SaveStatsFile(prev, generation, record)|;
      && (prev.Some? && CompactionDue(generation, true, |prev.value|) ==> n == 100023 && n % StatsChunkBytes == 7)
      && (n % StatsChunkBytes == 0 <==> !(prev.Some? && CompactionDue(generation, true, |prev.value|)))
  {
    var r := SaveStatsFile(prev, generation, record);
    if prev.Some? {
      var s := prev.value;
      if CompactionDue(generation, true, |s|) {
        assert |r| == |CompactStatsAsWritten(s, MaxStatsBytes)| + |record|;
        assert 100023 == 3572 * 28 + 7;
      } else {
        assert |r| == |s| + StatsChunkBytes;
        var k := |s| / StatsChunkBytes;
        assert |s| == k * StatsChunkBytes;
        assert |r| == (k + 1) * StatsChunkBytes;
      }
    }
  }


  /** saveStats with the corrected compaction. */
  function SaveStatsFileFixed(prev: Option<seq<Byte>>, generation: Int32, record: seq<Byte>): (r: seq<Byte>)
    ensures prev.None? ==> r == record
    ensures |r| >= |record| && r[|r| - |record|..] == record
  {
    match prev
    case None => record
    case Some(s) =>
      (if CompactionDue(generation, true, |s|) then CompactStats(s, MaxStatsBytes) else s) + record
  }

  /** With the corrected compaction a log of whole records stays one after
      every save, and it exceeds MaxStatsBytes by at most one record after a
      compaction. */
  lemma StatsLogStaysAligned(prev: Option<seq<Byte>>, generation: Int32, c: Counters, maxFitness: Word)
    requires prev.Some? ==> |prev.value| % StatsChunkBytes == 0
    ensures |SaveStatsFileFixed(prev, generation, StatsRecord(c, maxFitness))| % StatsChunkBytes == 0
    ensures prev.Some? && CompactionDue(generation, true, |prev.value|) ==>
      |SaveStatsFileFixed(prev, generation, StatsRecord(c, maxFitness))| <= MaxStatsBytes + StatsChunkBytes
  {
    var record := StatsRecord(c, maxFitness);
    var r := SaveStatsFileFixed(prev, generation, record);
    if prev.Some? {
      var s := prev.value;
      var base := if CompactionDue(generation, true, |s|) then CompactStats(s, MaxStatsBytes) else s;
      if CompactionDue(generation, true, |s|) {
        CompactStatsKeepsNewestRecords(s, MaxStatsBytes);
      }
      assert |base| % StatsChunkBytes == 0;
      assert r == base + record;
      assert |r| == |base| + StatsChunkBytes;
    }
  }

  // ---------------------------------------------------------------------
  // The backup schedule

  /** saveAll's condition for copying the checkpoint into the backup folder. */
  predicate BackupDue(generation: Int32) {
    generation > 200 && generation % 100 == 0
  }

  /** The first backup is taken at generation 300, then one every hundred. */
  lemma BackupSchedule(generation: Int32)
    ensures BackupDue(generation) ==> generation >= 300
    ensures BackupDue(300) && !BackupDue(200) && !BackupDue(250)
    ensures BackupDue(generation) && generation <= MaxInt32 - 100 ==> BackupDue(generation + 100)
  {
  }

  // ---------------------------------------------------------------------
  // The directory

  /** save(i, ...) for the records in rank order. */
  function WriteIndividuals(dir: map<string, seq<Byte>>, recs: seq<Individual>): map<string, seq<Byte>> {
    if recs == [] then dir
    else WriteIndividuals(dir, recs[..|recs| - 1])[IndividualName(|recs| - 1) := EncodeIndividual(recs[|recs| - 1])]
  }

  lemma {:induction false} WriteIndividualsAt(dir: map<string, seq<Byte>>, recs: seq<Individual>, i: nat)
    requires i < |recs|
    ensures var d := WriteIndividuals(dir, recs);
      IndividualName(i) in d && d[IndividualName(i)] == EncodeIndividual(recs[i])
  {
    if i < |recs| - 1 {
      WriteIndividualsAt(dir, recs[..|recs| - 1], i);
      IndividualNamesDistinct(i, |recs| - 1);
    }
  }

  /** Files whose names do not start like an individual file are not touched. */
  lemma {:induction false} WriteIndividualsKeeps(dir: map<string, seq<Byte>>, recs: seq<Individual>, name: string)
    requires |name| == 0 || name[0] != 'I'
    ensures var d := WriteIndividuals(dir, recs);
      (name in d <==> name in dir) && (name in dir ==> d[name] == dir[name])
  {
    if recs != [] {
      WriteIndividualsKeeps(dir, recs[..|recs| - 1], name);
      assert IndividualName(|recs| - 1)[0] == 'I';
    }
  }

  /** createBackup(n): copies the counter file and the first n individual
      files into the backup folder. */
  function CopyToBackup(dir: map<string, seq<Byte>>, n: nat): (d: map<string, seq<Byte>>)
    requires CounterName in dir
    requires forall i :: 0 <= i < n ==> IndividualName(i) in dir
    ensures forall name :: name in dir ==> name in d
    ensures BackupName(CounterName) in d
    ensures forall i :: 0 <= i < n ==> BackupName(IndividualName(i)) in d
  {
    if n == 0 then dir[BackupName(CounterName) := dir[CounterName]]
    else
      var d := CopyToBackup(dir, n - 1);
      d[BackupName(IndividualName(n - 1)) := dir[IndividualName(n - 1)]]
  }

  lemma {:induction false} CopyToBackupAt(dir: map<string, seq<Byte>>, n: nat, name: string)
    requires CounterName in dir
    requires forall i :: 0 <= i < n ==> IndividualName(i) in dir
    ensures var d := CopyToBackup(dir, n);
      && d[BackupName(CounterName)] == dir[CounterName]
      && (forall i :: 0 <= i < n ==> d[BackupName(IndividualName(i))] == dir[IndividualName(i)])
      && (name in dir && (|name| == 0 || name[0] != 'B') ==> d[name] == dir[name])
  {
    if n > 0 {
      var prev, key := CopyToBackup(dir, n - 1), BackupName(IndividualName(n - 1));
      var d := prev[key := dir[IndividualName(n - 1)]];
      assert CopyToBackup(dir, n) == d;
      CopyToBackupAt(dir, n - 1, name);
      IndividualNamesDistinct(n - 1, n - 1);
      BackupNamesDistinct(CounterName, IndividualName(n - 1));
      forall i | 0 <= i < n ensures d[BackupName(IndividualName(i))] == dir[IndividualName(i)] {
        if i < n - 1 {
          IndividualNamesDistinct(i, n - 1);
          BackupNamesDistinct(IndividualName(i), IndividualName(n - 1));
        }
      }
      assert key[0] == 'B';
    }
  }

  /** One step of createBackup's loop. */
  lemma CopyToBackupStep(dir: map<string, seq<Byte>>, i: nat)
    requires CounterName in dir
    requires forall j :: 0 <= j <= i ==> IndividualName(j) in dir
    ensures var d := CopyToBackup(dir, i);
      IndividualName(i) in d &&
      CopyToBackup(dir, i + 1) == d[BackupName(IndividualName(i)) := d[IndividualName(i)]]
  {
    CopyToBackupAt(dir, i, IndividualName(i));
    assert IndividualName(i)[0] == 'I';
  }

  function StatsFileOf(dir: map<string, seq<Byte>>): Option<seq<Byte>> {
    if StatsName in dir then Some(dir[StatsName]) else None
  }

  /** The files saveAll writes before the backup: the individual files in
      rank order, then the counter file, then the stats log. */
  function StagedFiles(dir: map<string, seq<Byte>>, recs: seq<Individual>, c: Counters, maxFitness: Word): map<string, seq<Byte>> {
    var written := WriteIndividuals(dir, recs);
    var withCounter := written[CounterName := EncodeCounter(c)];
    withCounter[StatsName := SaveStatsFile(StatsFileOf(dir), c.generation, StatsRecord(c, maxFitness))]
  }

  /** The staged files hold the counters, the new stats log and every
      record at its rank. */
  lemma StagedFilesHold(dir: map<string, seq<Byte>>, recs: seq<Individual>, c: Counters, maxFitness: Word)
    ensures var d := StagedFiles(dir, recs, c, maxFitness);
      && CounterName in d && d[CounterName] == EncodeCounter(c)
      && StatsName in d && d[StatsName] == SaveStatsFile(StatsFileOf(dir), c.generation, StatsRecord(c, maxFitness))
      && forall i :: 0 <= i < |recs| ==> IndividualName(i) in d && d[IndividualName(i)] == EncodeIndividual(recs[i])
  {
    var d := StagedFiles(dir, recs, c, maxFitness);
    forall i | 0 <= i < |recs| ensures IndividualName(i) in d && d[IndividualName(i)] == EncodeIndividual(recs[i]) {
      WriteIndividualsAt(dir, recs, i);
      IndividualNamesDistinct(i, i);
    }
  }

  /** The staged files include the counter file and one file per record. */
  lemma StagedFilesNamed(dir: map<string, seq<Byte>>, recs: seq<Individual>, c: Counters, maxFitness: Word)
    ensures var d := StagedFiles(dir, recs, c, maxFitness);
      CounterName in d && forall i :: 0 <= i < |recs| ==> IndividualName(i) in d
  {
    StagedFilesHold(dir, recs, c, maxFitness);
  }

  /** saveStats reads the stats log after the individual and counter files
      are written, which leaves the log as it was before them. */
  lemma StagedFilesSteps(dir: map<string, seq<Byte>>, recs: seq<Individual>, c: Counters, maxFitness: Word)
    ensures var withCounter := WriteIndividuals(dir, recs)[CounterName := EncodeCounter(c)];
      withCounter[StatsName := SaveStatsFile(StatsFileOf(withCounter), c.generation, StatsRecord(c, maxFitness))]
        == StagedFiles(dir, recs, c, maxFitness)
  {
    WriteIndividualsKeeps(dir, recs, StatsName);
  }

  /** saveAll: the staged files and, when due, the backup. */
  function SaveAllFiles(dir: map<string, seq<Byte>>, recs: seq<Individual>, c: Counters, maxFitness: Word): map<string, seq<Byte>> {
    var staged := StagedFiles(dir, recs, c, maxFitness);
    StagedFilesNamed(dir, recs, c, maxFitness);
    if BackupDue(c.generation) then CopyToBackup(staged, |recs|) else staged
  }

  /** What loadAll makes of file i: the saved individual, or a spawned one
      with fitness negative infinity when the file does not decode. */
  function LoadIndividual(bytes: seq<Byte>, spawned: seq<Word>): (x: Individual)
    ensures DecodeIndividual(bytes).Some? ==> x == DecodeIndividual(bytes).value
    ensures DecodeIndividual(bytes).None? ==> x == Individual(NegInf, spawned)
  {
    match DecodeIndividual(bytes)
    case Some(x) => x
    case None => Individual(NegInf, spawned)
  }

  /** What loadAll and loadCounter read back after saveAll: every individual
      in its rank with its NaNs made canonical, the counters except
      longestStreak, which reads as 0, and, when a backup was due, the same
      counter and individual files in the backup folder. */
  lemma {:induction false} SaveAllReadsBack(dir: map<string, seq<Byte>>, recs: seq<Individual>, c: Counters, maxFitness: Word)
    ensures var d := SaveAllFiles(dir, recs, c, maxFitness);
      && CounterName in d && DecodeCounter(d[CounterName]) == Some(c.(longestStreak := 0))
      && (forall i :: 0 <= i < |recs| ==>
            IndividualName(i) in d && DecodeIndividual(d[IndividualName(i)]) == Some(Canonicalised(recs[i])))
      && StatsName in d
      && (BackupDue(c.generation) ==>
            && d[BackupName(CounterName)] == EncodeCounter(c)
            && forall i :: 0 <= i < |recs| ==> d[BackupName(IndividualName(i))] == EncodeIndividual(recs[i]))
  {
    var staged := StagedFiles(dir, recs, c, maxFitness);
    var d := SaveAllFiles(dir, recs, c, maxFitness);
    StagedFilesHold(dir, recs, c, maxFitness);
    CounterLosesLongestStreak(c);
    if BackupDue(c.generation) {
      CopyToBackupAt(staged, |recs|, CounterName);
    }
    forall i | 0 <= i < |recs|
      ensures IndividualName(i) in d && DecodeIndividual(d[IndividualName(i)]) == Some(Canonicalised(recs[i]))
    {
      IndividualNamesDistinct(i, i);
      IndividualRoundTrip(recs[i]);
      if BackupDue(c.generation) {
        CopyToBackupAt(staged, |recs|, IndividualName(i));
      }
    }
  }
}
