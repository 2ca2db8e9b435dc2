/** The genetic population: a table of genomes (float arrays, compared by
    identity) with a fitness each, kept in rank order, plus the counters of
    the training run and the checkpoint directory it is saved to. */
module Populations {
  import opened Words
  import opened Wrappers
  import opened Binary32
  import opened Sorting
  import opened Generations
  import opened Checkpoint
  import FloatLists

  /** A genome: the float[] of neural-network weights, as bit patterns. */
  type Genome = array<Word>

  datatype PopulationError =
    | NoSuchElement                 // greedy sample without any fitness above negative infinity
    | IndexOutOfBounds(index: int)  // a position outside a list or a line-up
    | CorruptedData(index: int)     // a mutation target shorter than its source

  predicate Distinct<T(==)>(s: seq<T>) {
    forall i, j :: 0 <= i < j < |s| ==> s[i] != s[j]
  }

  lemma {:induction false} DistinctCount<T>(s: seq<T>, x: T)
    requires Distinct(s)
    ensures multiset(s)[x] <= 1
  {
    if s != [] {
      var tail := s[1..];
      assert Distinct(tail) by {
        forall i, j | 0 <= i < j < |tail| ensures tail[i] != tail[j] {
          assert tail[i] == s[i + 1] && tail[j] == s[j + 1];
        }
      }
      DistinctCount(tail, x);
      assert s == [s[0]] + tail;
      if s[0] == x {
        forall k | 0 <= k < |tail| ensures tail[k] != x {
          assert tail[k] == s[k + 1];
        }
        assert x !in tail;
      }
    }
  }

  /** Every genome of the rank list has a fitness. Together with distinct
      ranks and as many ranks as fitness entries, this makes the ranks
      exactly the keys of the map (KeysAreRanks). */
  predicate SameKeys(ranks: seq<Genome>, fitness: map<Genome, Word>) {
    forall i :: 0 <= i < |ranks| ==> ranks[i] in fitness
  }

  /** A list without repetitions has as many elements as entries. */
  lemma {:induction false} DistinctElements<T>(s: seq<T>)
    requires Distinct(s)
    ensures |Elements(s)| == |s|
  {
    if s != [] {
      var init := s[..|s| - 1];
      assert Distinct(init) by {
        forall i, j | 0 <= i < j < |init| ensures init[i] != init[j] {
          assert init[i] == s[i] && init[j] == s[j];
        }
      }
      DistinctElements(init);
      assert Elements(s) == Elements(init) + {s[|s| - 1]} by {
        assert s == init + [s[|s| - 1]];
      }
      assert s[|s| - 1] !in Elements(init);
    }
  }

  /** The table invariant makes the rank list and the fitness map hold the
      same genomes, as the map and key list of the indexed map do. */
  lemma KeysAreRanks(ranks: seq<Genome>, fitness: map<Genome, Word>)
    requires Distinct(ranks) && SameKeys(ranks, fitness) && |fitness| == |ranks|
    ensures fitness.Keys == Elements(ranks)
  {
    DistinctElements(ranks);
    var e := Elements(ranks);
    forall g | g in fitness ensures g in e {
      if g !in e {
        SubsetCard(e, fitness.Keys - {g});
      }
    }
  }

  lemma {:induction false} SubsetCard<T>(a: set<T>, b: set<T>)
    requires a <= b
    ensures |a| <= |b|
  {
    if a != {} {
      var x :| x in a;
      SubsetCard(a - {x}, b - {x});
    }
  }

  /** A permutation of distinct elements has distinct elements. */
  lemma DistinctPermutation<T>(a: seq<T>, b: seq<T>)
    requires multiset(a) == multiset(b) && Distinct(b)
    ensures Distinct(a)
  {
    forall i, j | 0 <= i < j < |a| ensures a[i] != a[j] {
      if a[i] == a[j] {
        assert a == a[..j] + a[j..];
        assert multiset(a) == multiset(a[..j]) + multiset(a[j..]);
        assert a[i] in a[..j] && a[j] in a[j..];
        DistinctCount(b, a[i]);
      }
    }
  }

  /** Inserting a new element at a position keeps the elements distinct and
      adds exactly that element. */
  lemma InsertKeeps<T>(s: seq<T>, index: nat, x: T)
    requires Distinct(s) && x !in s && index <= |s|
    ensures var t := s[..index] + [x] + s[index..];
      Distinct(t) && forall y :: y in t <==> y in s || y == x
  {
    var t := s[..index] + [x] + s[index..];
    assert forall k :: 0 <= k < |t| ==> t[k] == if k < index then s[k] else if k == index then x else s[k - 1];
    forall y | y in s ensures y in t {
      var j :| 0 <= j < |s| && s[j] == y;
      if j < index { assert t[j] == y; } else { assert t[j + 1] == y; }
    }
  }

  /** The comparator of sortByFitnessDescending, (a, b) -> b.compareTo(a):
      a comes first when its fitness is not smaller under Float.compare. */
  function Descending(fitness: map<Genome, Word>): (Genome, Genome) -> bool {
    (a: Genome, b: Genome) => a in fitness && b in fitness ==> CompareRank(fitness[b]) <= CompareRank(fitness[a])
  }

  lemma DescendingIsTotalPreorder(fitness: map<Genome, Word>, dom: set<Genome>)
    requires forall g | g in dom :: g in fitness
    ensures TotalPreorderOn(Descending(fitness), dom)
  {
  }

  /** The ranks after sortByFitnessDescending. */
  function SortedByFitness(ranks: seq<Genome>, fitness: map<Genome, Word>): seq<Genome> {
    InsertionSort(ranks, Descending(fitness))
  }

  /** Sorting keeps the genomes of the table. */
  lemma SortedByFitnessPermutes(ranks: seq<Genome>, fitness: map<Genome, Word>)
    ensures multiset(SortedByFitness(ranks, fitness)) == multiset(ranks)
    ensures forall g :: g in SortedByFitness(ranks, fitness) <==> g in ranks
  {
    var s := SortedByFitness(ranks, fitness);
    forall g ensures g in s <==> g in ranks {
      assert g in s <==> g in multiset(s);
      assert g in ranks <==> g in multiset(ranks);
    }
  }

  /** Sorting orders the table by non-increasing fitness under Float.compare. */
  lemma SortedByFitnessDescends(ranks: seq<Genome>, fitness: map<Genome, Word>)
    requires SameKeys(ranks, fitness)
    ensures SameKeys(SortedByFitness(ranks, fitness), fitness)
    ensures var s := SortedByFitness(ranks, fitness);
      forall i, j :: 0 <= i < j < |s| ==> CompareRank(fitness[s[j]]) <= CompareRank(fitness[s[i]])
  {
    var s := SortedByFitness(ranks, fitness);
    SortedByFitnessPermutes(ranks, fitness);
    DescendingIsTotalPreorder(fitness, Elements(ranks));
    InsertionSortSorted(ranks, Descending(fitness), Elements(ranks));
    forall k | 0 <= k < |s| ensures s[k] in fitness {
      assert s[k] in s;
      assert s[k] in multiset(s);
      assert s[k] in multiset(ranks);
    }
    forall i, j | 0 <= i < j < |s| ensures CompareRank(fitness[s[j]]) <= CompareRank(fitness[s[i]]) {
      assert Descending(fitness)(s[i], s[j]);
    }
  }

  /** Sorting keeps genomes of equal fitness in their previous order. */
  lemma SortedByFitnessStable(ranks: seq<Genome>, fitness: map<Genome, Word>)
    requires SameKeys(ranks, fitness)
    ensures StableFor(SortedByFitness(ranks, fitness), ranks, Descending(fitness))
  {
    DescendingIsTotalPreorder(fitness, Elements(ranks));
    InsertionSortCorrect(ranks, Descending(fitness));
  }

  /** After sorting, rank 0 holds a fittest genome of the table. */
  lemma FittestFirst(ranks: seq<Genome>, fitness: map<Genome, Word>)
    requires ranks != [] && SameKeys(ranks, fitness)
    ensures SortedByFitness(ranks, fitness) != [] && SortedByFitness(ranks, fitness)[0] in fitness
    ensures forall i :: 0 <= i < |ranks| ==>
      CompareRank(fitness[ranks[i]]) <= CompareRank(fitness[SortedByFitness(ranks, fitness)[0]])
  {
    var s := SortedByFitness(ranks, fitness);
    SortedByFitnessPermutes(ranks, fitness);
    SortedByFitnessDescends(ranks, fitness);
    forall i | 0 <= i < |ranks| ensures CompareRank(fitness[ranks[i]]) <= CompareRank(fitness[s[0]]) {
      var g := ranks[i];
      assert g in ranks;
      var k :| 0 <= k < |s| && s[k] == g;
      if k > 0 {
        assert CompareRank(fitness[s[k]]) <= CompareRank(fitness[s[0]]);
      }
    }
  }

  /** The ranks after put(genome, fitness) on the table: a new genome is
      appended, a known one keeps its place. */
  function PutRanks(ranks: seq<Genome>, fitness: map<Genome, Word>, g: Genome): seq<Genome> {
    if g in fitness then ranks else ranks + [g]
  }

  /** The genes copyMutate writes into a target of the given rank: each gene
      of the source perturbed, past the source's end the target's own. */
  function Mutated(source: seq<Word>, target: seq<Word>, generation: Int32, rank: nat,
                   perturb: (Int32, nat, nat, Word) -> Word): (r: seq<Word>)
    ensures |r| == |target|
    ensures forall j :: 0 <= j < |target| && j < |source| ==> r[j] == perturb(generation, rank, j, source[j])
    ensures forall j :: |source| <= j < |target| ==> r[j] == target[j]
  {
    seq(|target|, j requires 0 <= j < |target| => if j < |source| then perturb(generation, rank, j, source[j]) else target[j])
  }

  /** The saved form of a table with the given genes: each genome's
      fitness and genes, in rank order. */
  function Saved(rs: seq<Genome>, fitness: map<Genome, Word>, genes: seq<seq<Word>>): (r: seq<Individual>)
    requires |genes| == |rs| && SameKeys(rs, fitness)
    ensures |r| == |rs|
  {
    seq(|rs|, i requires 0 <= i < |rs| => Individual(fitness[rs[i]], genes[i]))
  }

  /** The saved form of the table as it is in memory. */
  ghost function RecordsOf(rs: seq<Genome>, fitness: map<Genome, Word>): (r: seq<Individual>)
    requires SameKeys(rs, fitness)
    reads rs
    ensures |r| == |rs|
  {
    Saved(rs, fitness, GenesOf(rs))
  }

  /** Neither g nor any genome in rs was written to. */
  twostate predicate GenomesKept(rs: seq<Genome>, g: Genome)
    reads g, rs
  {
    unchanged(g) && forall x :: x in rs ==> unchanged(x)
  }

  /** The contents of the genomes, in rank order. */
  ghost function GenesOf(rs: seq<Genome>): (r: seq<seq<Word>>)
    reads rs
    ensures |r| == |rs|
  {
    seq(|rs|, k requires 0 <= k < |rs| reads rs => rs[k][..])
  }

  /** The genome arrays, rank by rank, hold the given genes. */
  ghost predicate GenesAre(rs: seq<Genome>, genes: seq<seq<Word>>)
    reads rs
  {
    |genes| == |rs| && forall k :: 0 <= k < |rs| ==> rs[k][..] == genes[k]
  }

  lemma GenesOfAppend(rs: seq<Genome>, g: Genome)
    ensures GenesOf(rs + [g]) == GenesOf(rs) + [g[..]]
  {
    assert (rs + [g])[..|rs|] == rs;
  }

  /** Whether the target genome survivors + k has room for the genes of
      its source genome k. */
  predicate Fits(rs: seq<Genome>, survivors: nat, k: nat)
    requires survivors + k < |rs|
  {
    rs[k].Length <= rs[survivors + k].Length
  }

  /** Rounds 0 .. n - 1 of copyMutate all find their target long enough. */
  predicate AllFit(rs: seq<Genome>, survivors: nat, n: nat)
    requires survivors + n <= |rs|
  {
    n == 0 || (AllFit(rs, survivors, n - 1) && Fits(rs, survivors, n - 1))
  }

  lemma {:induction false} AllFitAt(rs: seq<Genome>, survivors: nat, n: nat)
    requires survivors + n <= |rs|
    ensures AllFit(rs, survivors, n) <==> forall k :: 0 <= k < n ==> Fits(rs, survivors, k)
  {
    if n > 0 {
      AllFitAt(rs, survivors, n - 1);
    }
  }

  /** The genes after copyMutate has written its first n targets, one after
      the other: target survivors + k gets the mutated genes of rank k. */
  function CopyMutated(genes: seq<seq<Word>>, survivors: nat, n: nat, generation: Int32,
                       perturb: (Int32, nat, nat, Word) -> Word): (r: seq<seq<Word>>)
    requires n <= survivors && 2 * survivors <= |genes|
    ensures |r| == |genes|
  {
    if n == 0 then genes
    else
      var k := n - 1;
      CopyMutated(genes, survivors, k, generation, perturb)
        [survivors + k := Mutated(genes[k], genes[survivors + k], generation, survivors + k, perturb)]
  }

  /** Because sources and targets are disjoint, writing the targets in order
      gives every target the mutation of its untouched source, and leaves the
      survivors and the ranks past the targets as they were. */
  lemma {:induction false} CopyMutatedAt(genes: seq<seq<Word>>, survivors: nat, n: nat, generation: Int32,
                                         perturb: (Int32, nat, nat, Word) -> Word)
    requires n <= survivors && 2 * survivors <= |genes|
    ensures var r := CopyMutated(genes, survivors, n, generation, perturb);
      && (forall k :: 0 <= k < |genes| && !(survivors <= k < survivors + n) ==> r[k] == genes[k])
      && (forall k :: 0 <= k < n ==>
            r[survivors + k] == Mutated(genes[k], genes[survivors + k], generation, survivors + k, perturb))
      && (forall k :: 0 <= k < |genes| ==> |r[k]| == |genes[k]|)
  {
    if n > 0 {
      CopyMutatedAt(genes, survivors, n - 1, generation, perturb);
    }
  }

  /** The fitness column once the targets survivors .. survivors + n - 1
      have dropped to negative infinity, every other rank keeping its
      fitness in initial. */
  predicate ResetUpTo(ranks: seq<Genome>, fitness: map<Genome, Word>, initial: map<Genome, Word>,
                      survivors: nat, n: nat)
    requires SameKeys(ranks, fitness) && fitness.Keys == initial.Keys
  {
    forall k :: 0 <= k < |ranks| ==>
      fitness[ranks[k]] == if survivors <= k < survivors + n then NegInf else initial[ranks[k]]
  }

  /** The same genes rank by rank: every target holds the mutation of its
      source as the source was before the first round. */
  function TargetGenes(genes: seq<seq<Word>>, survivors: nat, n: nat, generation: Int32,
                       perturb: (Int32, nat, nat, Word) -> Word, k: nat): seq<Word>
    requires k < |genes|
  {
    if survivors <= k < survivors + n then Mutated(genes[k - survivors], genes[k], generation, k, perturb) else genes[k]
  }

  /** Writing the targets one after the other yields, rank by rank, the
      mutation of the original source in each written target. */
  lemma CopyMutatedPointwise(genes: seq<seq<Word>>, survivors: nat, n: nat, generation: Int32,
                             perturb: (Int32, nat, nat, Word) -> Word)
    requires n <= survivors && 2 * survivors <= |genes|
    ensures forall k :: 0 <= k < |genes| ==>
      CopyMutated(genes, survivors, n, generation, perturb)[k] == TargetGenes(genes, survivors, n, generation, perturb, k)
  {
    CopyMutatedAt(genes, survivors, n, generation, perturb);
    var r := CopyMutated(genes, survivors, n, generation, perturb);
    forall k | survivors <= k < survivors + n
      ensures r[k] == TargetGenes(genes, survivors, n, generation, perturb, k)
    {
      assert r[survivors + (k - survivors)] == Mutated(genes[k - survivors], genes[k], generation, k, perturb);
    }
  }

  method NewGenome(genes: seq<Word>) returns (g: Genome)
    ensures fresh(g) && g[..] == genes
  {
    g := new Word[|genes|](k requires 0 <= k < |genes| => genes[k]);
  }

  /** loadAll's reading of one individual file through a FloatList: the
      fitness, then one float at a time while bytes remain; a partial float
      ends the read with an EOFException. */
  method ReadIndividual(bytes: seq<Byte>) returns (r: Option<(Word, Genome)>)
    ensures r.None? <==> DecodeIndividual(bytes).None?
    ensures r.Some? ==>
      && fresh(r.value.1)
      && Individual(r.value.0, r.value.1[..]) == DecodeIndividual(bytes).value
  {
    if |bytes| < 4 {
      return None;
    }
    var fitness := WordAt(bytes, 0);
    var list := new FloatLists.FloatList();
    var pos := 4;
    ghost var n := 0;
    while pos < |bytes|
      invariant pos == 4 + 4 * n <= |bytes|
      invariant fresh(list)
      invariant fresh(list.data)
      invariant list.Bounded() && list.Sane()
      invariant list.Contents() == WordsFrom(bytes, 4, n)
      decreases |bytes| - pos
    {
      if |bytes| - pos < 4 {
        PartialWord(|bytes|, n + 1);
        return None;
      }
      WordsFromSnoc(bytes, 4, n);
      var added := list.Add(WordAt(bytes, pos));
      if added.Err? {
        // Only a list within ten slots of Integer.MAX_VALUE fails to grow;
        // the rest of such a file is decoded without the list.
        var d := DecodeIndividual(bytes);
        if d.None? {
          return None;
        }
        var genes := NewGenome(d.value.genes);
        return Some((d.value.fitness, genes));
      }
      pos, n := pos + 4, n + 1;
    }
    DecodeWordsCount(bytes, 4, n);
    var copy := list.ToArray();
    r := Some((fitness, copy.value));
  }

  /** The records loadAll puts for the first n individual files. */
  ghost function LoadedRecords(files: map<string, seq<Byte>>, spawned: seq<seq<Word>>, n: nat): (r: seq<Individual>)
    requires n <= |spawned| && forall i :: 0 <= i < n ==> IndividualName(i) in files
    ensures |r| == n
  {
    if n == 0 then []
    else LoadedRecords(files, spawned, n - 1) + [LoadIndividual(files[IndividualName(n - 1)], spawned[n - 1])]
  }

  lemma {:induction false} LoadedRecordsAt(files: map<string, seq<Byte>>, spawned: seq<seq<Word>>, n: nat, i: nat)
    requires n <= |spawned| && forall i :: 0 <= i < n ==> IndividualName(i) in files
    requires i < n
    ensures LoadedRecords(files, spawned, n)[i] == LoadIndividual(files[IndividualName(i)], spawned[i])
    decreases n
  {
    if i < n - 1 {
      LoadedRecordsAt(files, spawned, n - 1, i);
    }
  }

  /** Whether the directory holds the individual files of ranks 0 to n - 1. */
  predicate AllFilesPresent(files: map<string, seq<Byte>>, n: nat) {
    forall i :: 0 <= i < n ==> IndividualName(i) in files
  }

  /** The genomes the spawner hands out for ranks 0 to n - 1. */
  function Spawned(spawner: nat -> seq<Word>, n: nat): (r: seq<seq<Word>>)
    ensures |r| == n && forall i :: 0 <= i < n ==> r[i] == spawner(i)
  {
    if n == 0 then [] else Spawned(spawner, n - 1) + [spawner(n - 1)]
  }

  class Population {
    /** The keys of the table in rank order, and the fitness of each. */
    var ranks: seq<Genome>
    var fitness: map<Genome, Word>
    /** The checkpoint directory. */
    var dir: map<string, seq<Byte>>

    var counter: Int32
    var streak: Int32
    var generation: Int32
    var wins: Int32
    var goalWins: Int32
    var losses: Int32
    var minGoalMoves: Int32
    var maxGoalMoves: Int32
    var longestStreak: Int32
    var maxFitness: Word

    const survivors: nat
    const trainMode: bool
    const trainIndex: int

    /** The table: distinct genomes in rank order, each with a fitness. */
    ghost predicate Table()
      reads this`ranks, this`fitness
    {
      Distinct(ranks) && SameKeys(ranks, fitness) && |fitness| == |ranks|
    }

    /** The table holds a parent and a child rank for every survivor. */
    ghost predicate Valid()
      reads this`ranks, this`fitness
    {
      Table() && 2 * survivors <= |ranks|
    }

    function State(): Counters
      reads this`counter, this`streak, this`generation, this`wins, this`goalWins, this`losses,
               this`minGoalMoves, this`maxGoalMoves, this`longestStreak
    {
      Counters(counter, streak, generation, wins, goalWins, losses,
               minGoalMoves, maxGoalMoves, longestStreak)
    }

    /** The counters and the directory after loadCounter, or after
        saveCounter when the counter file cannot be read. */
    ghost predicate CounterFrom(files: map<string, seq<Byte>>)
      reads this`dir, this`counter, this`streak, this`generation, this`wins, this`goalWins, this`losses,
               this`minGoalMoves, this`maxGoalMoves, this`longestStreak
    {
      if CounterName in files && |files[CounterName]| >= 4
      then State() == DecodeCounter(files[CounterName]).value && dir == files
      else State() == Initial && dir == files[CounterName := EncodeCounter(Initial)]
    }

    /** The table holds the records of the individual files, the spawned
        genome with fitness negative infinity standing in for a file that
        does not decode. */
    ghost predicate HoldsLoaded(files: map<string, seq<Byte>>, spawned: seq<seq<Word>>)
      reads this`ranks, this`fitness, ranks
      requires Table() && AllFilesPresent(files, |spawned|)
    {
      && |ranks| == |spawned|
      && forall i :: 0 <= i < |spawned| ==>
           Individual(fitness[ranks[i]], ranks[i][..]) == LoadIndividual(files[IndividualName(i)], spawned[i])
    }

    /** The table holds the spawned genomes in order, each with fitness
        negative infinity. */
    ghost predicate HoldsSpawned(spawned: seq<seq<Word>>)
      reads this`ranks, this`fitness, ranks
      requires Table()
    {
      && |ranks| == |spawned|
      && forall i :: 0 <= i < |spawned| ==> fitness[ranks[i]] == NegInf && ranks[i][..] == spawned[i]
    }

    /** Rank by rank, the genomes hold the genes of the table before
        copyMutate with its first n targets written. */
    ghost predicate HoldsTargets(before: seq<seq<Word>>, n: nat, perturb: (Int32, nat, nat, Word) -> Word)
      reads this`ranks, this`generation, ranks
    {
      && |before| == |ranks|
      && forall k {:trigger TargetGenes(before, survivors, n, generation, perturb, k)} :: 0 <= k < |ranks| ==>
           ranks[k][..] == TargetGenes(before, survivors, n, generation, perturb, k)
    }

    /** The state after the first n rounds of copyMutate, each of which
        found its target long enough: the table is intact, targets
        survivors .. survivors + n - 1 hold the mutations of their sources'
        genes from before the first round and have fitness negative
        infinity, and every other rank keeps its genes and its fitness. */
    ghost predicate CopiedUpTo(initial: map<Genome, Word>, before: seq<seq<Word>>, n: nat,
                               perturb: (Int32, nat, nat, Word) -> Word)
      reads this`ranks, this`fitness, this`generation, ranks
    {
      && Valid() && fitness.Keys == initial.Keys && |before| == |ranks| && n <= survivors
      && ResetUpTo(ranks, fitness, initial, survivors, n) && AllFit(ranks, survivors, n)
      && HoldsTargets(before, n, perturb)
    }

    /** The state when round n of copyMutate stopped on its target, too
        short for its source: the rounds before it are complete, that
        target has been written as far as it reaches, and its fitness is
        untouched. */
    ghost predicate FailedAt(initial: map<Genome, Word>, before: seq<seq<Word>>, n: nat,
                             perturb: (Int32, nat, nat, Word) -> Word)
      reads this`ranks, this`fitness, this`generation, ranks
    {
      && Valid() && fitness.Keys == initial.Keys && |before| == |ranks| && n < survivors
      && ResetUpTo(ranks, fitness, initial, survivors, n) && AllFit(ranks, survivors, n) && !Fits(ranks, survivors, n)
      && HoldsTargets(before, n + 1, perturb)
    }

    /** How copyMutate ends: every round complete, or round n stopped with
        the rank of its target as the error. */
    ghost predicate CopyOutcome(initial: map<Genome, Word>, before: seq<seq<Word>>,
                                r: Result<(), PopulationError>, n: nat,
                                perturb: (Int32, nat, nat, Word) -> Word)
      reads this`ranks, this`fitness, this`generation, ranks
    {
      if r.Ok? then CopiedUpTo(initial, before, survivors, perturb)
      else r == Err(CorruptedData(survivors + n)) && FailedAt(initial, before, n, perturb)
    }

    /** What the constructor leaves behind: the loaded population when
        every individual file of a rank below the size is there, a freshly
        spawned one with the initial counters otherwise. */
    ghost predicate StartedFrom(files: map<string, seq<Byte>>, spawned: seq<seq<Word>>)
      reads this`ranks, this`fitness, this`dir, this`counter, this`streak, this`generation, this`wins, this`goalWins, this`losses,
               this`minGoalMoves, this`maxGoalMoves, this`longestStreak, ranks
      requires Table()
    {
      if AllFilesPresent(files, |spawned|)
      then HoldsLoaded(files, spawned) && CounterFrom(files)
      else HoldsSpawned(spawned) && State() == Initial && dir == files
    }

    /** Loads the population from the checkpoint directory, or, if an
        individual file of a rank below size is missing, starts afresh with
        size spawned genomes of fitness negative infinity. */
    constructor (size: nat, spawner: nat -> seq<Word>, files: map<string, seq<Byte>>,
                 trainMode: bool, trainIndex: int)
      ensures Valid() && survivors == size / 2 && StartedFrom(files, Spawned(spawner, size))
      ensures this.trainMode == trainMode && this.trainIndex == trainIndex
      ensures maxFitness == NegInf
    {
      this.trainMode := trainMode;
      this.trainIndex := trainIndex;
      survivors := size / 2;
      ranks := [];
      fitness := map[];
      dir := files;
      counter, streak, generation := 0, 0, 0;
      wins, goalWins, losses := 0, 0, 0;
      minGoalMoves, maxGoalMoves, longestStreak := MaxInt32, MinInt32, 0;
      maxFitness := NegInf;
      new;
      LoadOrSpawn(size, spawner, files);
    }

    /** The body of the constructor once the fields are set: loadAll, and on
        false a cleared table filled by the spawner. */
    method LoadOrSpawn(size: nat, spawner: nat -> seq<Word>, files: map<string, seq<Byte>>)
      requires ranks == [] && fitness == map[] && 2 * survivors <= size && State() == Initial && dir == files
      modifies this`ranks, this`fitness, this`dir, this`counter, this`streak, this`generation,
               this`wins, this`goalWins, this`losses, this`minGoalMoves, this`maxGoalMoves, this`longestStreak
      ensures Valid() && StartedFrom(files, Spawned(spawner, size))
    {
      var spawned := Spawned(spawner, size);
      var loaded := LoadAll(spawned);
      if !loaded {
        SpawnAll(spawned);
      }
    }

    /** The fresh start of the constructor: clear the table, then put size
        spawned genomes with fitness negative infinity. */
    method SpawnAll(spawned: seq<seq<Word>>)
      requires 2 * survivors <= |spawned|
      modifies this`ranks, this`fitness
      ensures Valid() && HoldsSpawned(spawned)
    {
      ranks := [];
      fitness := map[];
      for i := 0 to |spawned|
        invariant Table() && |ranks| == i
        invariant forall k :: 0 <= k < i ==> fitness[ranks[k]] == NegInf && ranks[k][..] == spawned[k]
      {
        var _ := PutNew(spawned[i], NegInf);
      }
    }

    /** Puts a freshly allocated genome holding genes: it goes behind the
        others, since no key of the table can be the new array. */
    method PutNew(genes: seq<Word>, f: Word) returns (g: Genome)
      requires Table()
      modifies this`ranks, this`fitness
      ensures fresh(g) && g[..] == genes
      ensures Table() && ranks == old(ranks) + [g] && fitness == old(fitness)[g := f]
    {
      g := NewGenome(genes);
      Put(g, f);
    }

    /** loadAll(total), on the empty table of a new population: stops with
        false at the first missing individual file; an individual file that
        does not decode gives the spawner's genome for that rank instead.
        Once every file is in, the counter file is read, or written when it
        cannot be. */
    method LoadAll(spawned: seq<seq<Word>>) returns (loaded: bool)
      requires ranks == [] && fitness == map[] && 2 * survivors <= |spawned|
      modifies this`ranks, this`fitness, this`dir, this`counter, this`streak, this`generation,
               this`wins, this`goalWins, this`losses, this`minGoalMoves, this`maxGoalMoves, this`longestStreak
      ensures loaded <==> AllFilesPresent(old(dir), |spawned|)
      ensures !loaded ==> State() == old(State()) && dir == old(dir)
      ensures loaded ==>
        && Valid() && HoldsLoaded(old(dir), spawned)
        && (if CounterName in old(dir) && |old(dir)[CounterName]| >= 4
            then State() == DecodeCounter(old(dir)[CounterName]).value && dir == old(dir)
            else State() == old(State()) && dir == old(dir)[CounterName := EncodeCounter(old(State()))])
    {
      loaded := LoadIndividuals(dir, spawned);
      if !loaded {
        return;
      }
      forall i | 0 <= i < |spawned|
        ensures LoadedRecords(dir, spawned, |spawned|)[i] == LoadIndividual(dir[IndividualName(i)], spawned[i])
      {
        LoadedRecordsAt(dir, spawned, |spawned|, i);
      }
      var counterLoaded := LoadCounter();
      if !counterLoaded {
        SaveCounter();
      }
    }

    /** The loop of loadAll over the individual files of the directory. */
    method LoadIndividuals(files: map<string, seq<Byte>>, spawned: seq<seq<Word>>) returns (loaded: bool)
      requires ranks == [] && fitness == map[] && 2 * survivors <= |spawned|
      modifies this`ranks, this`fitness
      ensures loaded <==> AllFilesPresent(files, |spawned|)
      ensures loaded ==>
        && Valid() && |ranks| == |spawned|
        && (forall i :: 0 <= i < |spawned| ==>
              Individual(fitness[ranks[i]], ranks[i][..]) == LoadedRecords(files, spawned, |spawned|)[i])
    {
      ghost var records: seq<Individual> := [];
      for index := 0 to |spawned|
        invariant Table() && |ranks| == index
        invariant forall i :: 0 <= i < index ==> IndividualName(i) in files
        invariant records == LoadedRecords(files, spawned, index)
        invariant forall i :: 0 <= i < index ==> Individual(fitness[ranks[i]], ranks[i][..]) == records[i]
      {
        var name := IndividualName(index);
        if name !in files {
          return false;
        }
        assert forall i :: 0 <= i < index + 1 ==> IndividualName(i) in files;
        PutLoaded(files[name], spawned[index]);
        records := records + [LoadIndividual(files[name], spawned[index])];
      }
      loaded := true;
    }

    /** One individual file of loadAll, put at the next rank: the decoded
        genome and fitness, or the spawner's genome with fitness negative
        infinity when the bytes do not decode. */
    method PutLoaded(bytes: seq<Byte>, fallback: seq<Word>)
      requires Table()
      modifies this`ranks, this`fitness
      ensures Table() && |ranks| == |old(ranks)| + 1 && ranks == old(ranks) + [ranks[|old(ranks)|]]
      ensures forall k :: 0 <= k < |old(ranks)| ==> fitness[ranks[k]] == old(fitness)[ranks[k]]
      ensures fresh(ranks[|old(ranks)|])
      ensures Individual(fitness[ranks[|old(ranks)|]], ranks[|old(ranks)|][..]) == LoadIndividual(bytes, fallback)
    {
      var read := ReadIndividual(bytes);
      var g: Genome, f: Word;
      if read.Some? {
        g, f := read.value.1, read.value.0;
      } else {
        g := NewGenome(fallback);
        f := NegInf;
      }
      var _ := PutAt(|ranks|, g, f);
    }

    /** loadCounter as written: fails, changing nothing, when the file is
        missing or shorter than one int; otherwise the fields are read with
        readIntOrZero's guard, which skips the last int of the file. */
    method LoadCounter() returns (ok: bool)
      modifies this`counter, this`streak, this`generation, this`wins, this`goalWins,
               this`losses, this`minGoalMoves, this`maxGoalMoves, this`longestStreak
      ensures ok <==> CounterName in dir && |dir[CounterName]| >= 4
      ensures ok ==> State() == DecodeCounter(dir[CounterName]).value
      ensures !ok ==> State() == old(State())
    {
      if CounterName !in dir || |dir[CounterName]| < 4 {
        return false;
      }
      var c := DecodeCounter(dir[CounterName]).value;
      counter, streak, generation := c.counter, c.streak, c.generation;
      wins, goalWins, losses := c.wins, c.goalWins, c.losses;
      minGoalMoves, maxGoalMoves, longestStreak := c.minGoalMoves, c.maxGoalMoves, c.longestStreak;
      ok := true;
    }

    /** saveCounter. */
    method SaveCounter()
      modifies this`dir
      ensures dir == old(dir)[CounterName := EncodeCounter(old(State()))]
    {
      dir := dir[CounterName := EncodeCounter(State())];
    }

    /** size(): the number of mappings of the table. */
    function Size(): (n: nat)
      reads this`ranks, this`fitness
      requires Valid()
      ensures n == |ranks|
    {
      |fitness|
    }

    /** put(genome, fitness) on the table. */
    method Put(g: Genome, f: Word)
      requires Table()
      modifies this`ranks, this`fitness
      ensures Table() && (old(Valid()) ==> Valid())
      ensures ranks == PutRanks(old(ranks), old(fitness), g)
      ensures fitness == old(fitness)[g := f]
    {
      if g !in fitness {
        InsertKeeps(ranks, |ranks|, g);
        assert ranks[..|ranks|] + [g] + ranks[|ranks|..] == ranks + [g];
        ranks := ranks + [g];
      }
      fitness := fitness[g := f];
    }

    /** put(index, genome, fitness) on the table: a new genome is inserted
        at that rank, a known one only gets the new fitness. */
    method PutAt(index: int, g: Genome, f: Word) returns (r: Result<(), PopulationError>)
      requires Table()
      modifies this`ranks, this`fitness
      ensures Table() && (old(Valid()) ==> Valid())
      ensures r.Ok? <==> 0 <= index <= |old(ranks)|
      ensures r.Err? ==> r.error == IndexOutOfBounds(index) && ranks == old(ranks) && fitness == old(fitness)
      ensures r.Ok? ==> fitness == old(fitness)[g := f]
      ensures r.Ok? ==> ranks == if g in old(fitness) then old(ranks) else old(ranks)[..index] + [g] + old(ranks)[index..]
    {
      if index < 0 || index > |ranks| {
        return Err(IndexOutOfBounds(index));
      }
      if g !in fitness {
        InsertKeeps(ranks, index, g);
        ranks := ranks[..index] + [g] + ranks[index..];
      }
      fitness := fitness[g := f];
      r := Ok(());
    }

    /** selectTrainingGenes: puts the counter back to 0 when it is outside
        the table, then takes the training player's genome from the line-up
        the strategy chooses. */
    method SelectTrainingGenes(lineup: (seq<Genome>, map<Genome, Word>, Int32) -> seq<Genome>)
      returns (r: Result<Genome, PopulationError>)
      requires Valid()
      modifies this`counter
      ensures counter == if 0 <= old(counter) < |ranks| then old(counter) else 0
      ensures var l := lineup(ranks, fitness, counter);
        if 0 <= trainIndex < |l| then r == Ok(l[trainIndex]) else r == Err(IndexOutOfBounds(trainIndex))
    {
      var size := Size();
      if counter < 0 || counter >= size {
        counter := 0;
      }
      var l := lineup(ranks, fitness, counter);
      if 0 <= trainIndex < |l| {
        r := Ok(l[trainIndex]);
      } else {
        r := Err(IndexOutOfBounds(trainIndex));
      }
    }

    /** selectFittestGenes: a genome whose fitness is above negative
        infinity and not below any other's under `>`; NoSuchElement when no
        fitness is above negative infinity, an empty table included. The
        key set is walked in an unspecified order. */
    method SelectFittestGenes() returns (r: Result<Genome, PopulationError>)
      ensures r.Err? <==> forall g | g in fitness :: !Greater(fitness[g], NegInf)
      ensures r.Err? ==> r.error == NoSuchElement
      ensures r.Ok? ==>
        && r.value in fitness
        && Greater(fitness[r.value], NegInf)
        && forall g | g in fitness :: !Greater(fitness[g], fitness[r.value])
    {
      var bestFitness := NegInf;
      var best: Option<Genome> := None;
      var todo := fitness.Keys;
      while todo != {}
        invariant todo <= fitness.Keys
        invariant best.None? ==> bestFitness == NegInf
        invariant best.Some? ==> best.value in fitness && bestFitness == fitness[best.value]
        invariant best.Some? ==> Greater(bestFitness, NegInf)
        invariant forall g | g in fitness && g !in todo :: !Greater(fitness[g], bestFitness)
        decreases |todo|
      {
        var g :| g in todo;
        var f := fitness[g];
        if Greater(f, bestFitness) {
          forall h | h in fitness && h !in todo ensures !Greater(fitness[h], f) {
            if Greater(fitness[h], f) {
              GreaterTransitive(fitness[h], f, bestFitness);
            }
          }
          if best.Some? {
            GreaterTransitive(f, bestFitness, NegInf);
          }
          bestFitness, best := f, Some(g);
        }
        todo := todo - {g};
      }
      if best.None? {
        return Err(NoSuchElement);
      }
      r := Ok(best.value);
    }

    /** sample: the training selection in training mode, the greedy one otherwise. */
    method Sample(lineup: (seq<Genome>, map<Genome, Word>, Int32) -> seq<Genome>)
      returns (r: Result<Genome, PopulationError>)
      requires Valid()
      modifies this`counter
      ensures !trainMode ==> counter == old(counter)
      ensures !trainMode && r.Ok? ==>
        && r.value in fitness && Greater(fitness[r.value], NegInf)
        && forall g | g in fitness :: !Greater(fitness[g], fitness[r.value])
      ensures !trainMode ==> (r == Err(NoSuchElement) <==> forall g | g in fitness :: !Greater(fitness[g], NegInf))
      ensures trainMode ==> counter == if 0 <= old(counter) < |ranks| then old(counter) else 0
      ensures trainMode ==> var l := lineup(ranks, fitness, counter);
        if 0 <= trainIndex < |l| then r == Ok(l[trainIndex]) else r == Err(IndexOutOfBounds(trainIndex))
    {
      if trainMode {
        r := SelectTrainingGenes(lineup);
      } else {
        r := SelectFittestGenes();
      }
    }

    /** sortByFitnessDescending. */
    method SortByFitnessDescending()
      requires Valid()
      modifies this`ranks
      ensures Valid()
      ensures ranks == SortedByFitness(old(ranks), fitness)
    {
      var sorted := SortedByFitness(ranks, fitness);
      assert multiset(sorted) == multiset(ranks);
      DistinctPermutation(sorted, ranks);
      forall k | 0 <= k < |sorted| ensures sorted[k] in fitness {
        assert sorted[k] in multiset(sorted);
        assert sorted[k] in ranks;
      }
      ranks := sorted;
    }

    /** mutate(individual, target, ...): writes the perturbed source genes
        into the target, failing with the target's rank once the target
        runs out of slots. */
    method Mutate(source: Genome, target: Genome, targetIndex: nat,
                  perturb: (Int32, nat, nat, Word) -> Word) returns (r: Result<(), PopulationError>)
      requires source != target
      modifies target
      ensures r.Err? <==> source.Length > target.Length
      ensures r.Err? ==> r.error == CorruptedData(targetIndex)
      ensures target[..] == Mutated(old(source[..]), old(target[..]), generation, targetIndex, perturb)
    {
      var mutated := Mutated(source[..], target[..], generation, targetIndex, perturb);
      for i := 0 to source.Length
        invariant i <= target.Length
        invariant forall j :: 0 <= j < i ==> target[j] == mutated[j]
        invariant forall j :: i <= j < target.Length ==> target[j] == old(target[j])
      {
        if i >= target.Length {
          assert target[..] == mutated;
          return Err(CorruptedData(targetIndex));
        }
        target[i] := mutated[i];
      }
      assert target[..] == mutated;
      r := Ok(());
    }

    /** copyMutate: for each rank k below survivors, the perturbed genes of
        rank k overwrite rank survivors + k, whose fitness becomes negative
        infinity. Stops at the first target shorter than its source, after
        writing that target as far as it reaches and before resetting its
        fitness. */
    method CopyMutate(ghost before: seq<seq<Word>>, perturb: (Int32, nat, nat, Word) -> Word)
      returns (r: Result<(), PopulationError>, ghost failed: nat)
      requires Valid() && GenesAre(ranks, before)
      modifies this`fitness, ranks
      ensures ranks == old(ranks)
      ensures CopyOutcome(old(fitness), before, r, failed, perturb)
    {
      r, failed := Ok(()), 0;
      ghost var initial, rk := fitness, ranks;
      var i := 0;
      while i < survivors
        invariant r.Ok? && ranks == rk && CopiedUpTo(initial, before, i, perturb)
      {
        r := CopyMutateRound(i, initial, before, perturb);
        if r.Err? {
          failed := i;
          return;
        }
        i := i + 1;
      }
    }

    /** One round of copyMutate: the write of target survivors + i, then
        its fitness reset. */
    method CopyMutateRound(i: nat, ghost initial: map<Genome, Word>, ghost before: seq<seq<Word>>,
                           perturb: (Int32, nat, nat, Word) -> Word)
      returns (r: Result<(), PopulationError>)
      requires i < survivors && CopiedUpTo(initial, before, i, perturb)
      modifies this`fitness, ranks[survivors + i]
      ensures ranks == old(ranks)
      ensures r.Ok? ==> CopiedUpTo(initial, before, i + 1, perturb)
      ensures r.Err? ==> CopyOutcome(initial, before, r, i, perturb)
    {
      r := MutateTarget(i, before, perturb);
      if r.Err? {
        return;
      }
      ResetTarget(i, initial);
    }

    /** The write of one round of copyMutate: the genes of rank i, perturbed,
        go into rank survivors + i. No source is ever a target, so rank i
        still holds its genes from before the first round. */
    method MutateTarget(i: nat, ghost before: seq<seq<Word>>, perturb: (Int32, nat, nat, Word) -> Word)
      returns (r: Result<(), PopulationError>)
      requires Valid() && i < survivors && HoldsTargets(before, i, perturb)
      modifies ranks[survivors + i]
      ensures r.Err? <==> !Fits(ranks, survivors, i)
      ensures r.Err? ==> r.error == CorruptedData(survivors + i)
      ensures HoldsTargets(before, i + 1, perturb)
    {
      var source, target := ranks[i], ranks[survivors + i];
      assert source != target;
      assert source[..] == before[i] by {
        assert ranks[i][..] == TargetGenes(before, survivors, i, generation, perturb, i);
      }
      assert target[..] == before[survivors + i] by {
        assert ranks[survivors + i][..] == TargetGenes(before, survivors, i, generation, perturb, survivors + i);
      }
      r := Mutate(source, target, survivors + i, perturb);
      assert target[..] == TargetGenes(before, survivors, i + 1, generation, perturb, survivors + i);
      forall k | 0 <= k < |ranks| && k != survivors + i
        ensures ranks[k][..] == TargetGenes(before, survivors, i + 1, generation, perturb, k)
      {
        assert ranks[k] != target;
        assert ranks[k][..] == old(ranks[k][..]);
        assert old(ranks[k][..]) == TargetGenes(before, survivors, i, generation, perturb, k);
      }
    }

    /** The fitness reset of one round of copyMutate: rank survivors + i
        drops to negative infinity. */
    method ResetTarget(i: nat, ghost initial: map<Genome, Word>)
      requires Valid() && i < survivors && fitness.Keys == initial.Keys && ResetUpTo(ranks, fitness, initial, survivors, i)
      modifies this`fitness
      ensures Valid() && fitness.Keys == initial.Keys && ResetUpTo(ranks, fitness, initial, survivors, i + 1)
    {
      var target := ranks[survivors + i];
      fitness := fitness[target := NegInf];
      forall k | 0 <= k < |ranks| && k != survivors + i ensures fitness[ranks[k]] == old(fitness)[ranks[k]] {
        assert ranks[k] != target;
      }
    }

    /** saveStats on the directory, with the compaction as written. */
    method SaveStats()
      modifies this`dir
      ensures dir == old(dir)[StatsName := SaveStatsFile(StatsFileOf(old(dir)), old(generation), StatsRecord(old(State()), old(maxFitness)))]
    {
      var prev := StatsFileOf(dir);
      dir := dir[StatsName := SaveStatsFile(prev, generation, StatsRecord(State(), maxFitness))];
    }

    /** createBackup(n): the counter file, then the first n individual files. */
    method CreateBackup(n: nat)
      requires CounterName in dir && forall i :: 0 <= i < n ==> IndividualName(i) in dir
      modifies this`dir
      ensures dir == CopyToBackup(old(dir), n)
    {
      ghost var files := dir;
      dir := dir[BackupName(CounterName) := dir[CounterName]];
      for i := 0 to n
        invariant dir == CopyToBackup(files, i)
      {
        CopyToBackupStep(files, i);
        dir := dir[BackupName(IndividualName(i)) := dir[IndividualName(i)]];
      }
    }

    /** The loop of saveAll: the individual files in rank order. */
    method SaveIndividuals()
      requires SameKeys(ranks, fitness)
      modifies this`dir
      ensures dir == WriteIndividuals(old(dir), old(RecordsOf(ranks, fitness)))
    {
      ghost var recs := RecordsOf(ranks, fitness);
      for i := 0 to |ranks|
        invariant dir == WriteIndividuals(old(dir), recs[..i])
      {
        var g := ranks[i];
        assert recs[..i + 1][..i] == recs[..i];
        dir := dir[IndividualName(i) := EncodeIndividual(Individual(fitness[g], g[..]))];
      }
      assert recs[..|ranks|] == recs;
    }

    /** The writes of saveAll before the backup: every individual in rank
        order, the counters and the stats record. */
    method SaveStaged()
      requires SameKeys(ranks, fitness)
      modifies this`dir
      ensures dir == StagedFiles(old(dir), old(RecordsOf(ranks, fitness)), old(State()), old(maxFitness))
    {
      ghost var d0, recs, c, m := dir, RecordsOf(ranks, fitness), State(), maxFitness;
      SaveIndividuals();
      ghost var written := dir;
      assert written == WriteIndividuals(d0, recs) && State() == c && maxFitness == m;
      SaveCounter();
      ghost var withCounter := dir;
      assert withCounter == written[CounterName := EncodeCounter(c)];
      SaveStats();
      assert dir == withCounter[StatsName := SaveStatsFile(StatsFileOf(withCounter), c.generation, StatsRecord(c, m))];
      StagedFilesSteps(d0, recs, c, m);
    }

    /** saveAll: the staged writes and, when due, the backup. */
    method SaveAll()
      requires SameKeys(ranks, fitness)
      modifies this`dir
      ensures dir == SaveAllFiles(old(dir), old(RecordsOf(ranks, fitness)), old(State()), old(maxFitness))
    {
      ghost var recs := RecordsOf(ranks, fitness);
      SaveStaged();
      if BackupDue(generation) {
        StagedFilesNamed(old(dir), recs, old(State()), old(maxFitness));
        CreateBackup(|ranks|);
      }
    }

    /** The counter and streak update of evolve, given the size of the
        table after the put. */
    method Count(delta: Int32, skip: bool, size: nat) returns (nextIndividual: bool, nextGeneration: bool)
      modifies this`counter, this`streak, this`longestStreak
      ensures State() == Advance(old(State()), delta)
      ensures nextIndividual == (delta > 0)
      ensures nextGeneration == IsBoundary(State(), delta, skip, size)
    {
      nextIndividual, nextGeneration := false, false;
      if delta > 0 {
        counter := Wrap32(counter + delta);
        nextIndividual := true;
        nextGeneration := skip || counter >= size;
        longestStreak := Max32(longestStreak, streak);
        streak := 0;
      } else {
        streak := Inc32(streak);
      }
    }

    /** The match tallies of evolve. */
    method TallyMatch(outcome: Outcome)
      modifies this`wins, this`goalWins, this`losses, this`minGoalMoves, this`maxGoalMoves
      ensures State() == Tally(old(State()), outcome)
    {
      if outcome.won {
        if outcome.inGoal {
          minGoalMoves := Min32(outcome.turn, minGoalMoves);
          maxGoalMoves := Max32(outcome.turn, maxGoalMoves);
          goalWins := Inc32(goalWins);
        } else {
          wins := Inc32(wins);
        }
      } else {
        losses := Inc32(losses);
      }
    }

    /** The part of evolve every match goes through in training mode: the
        fitness is recorded, the counter and streak move on, the match is
        tallied, and the generation boundary is decided on the new size. */
    method Play(genes: Genome, newFitness: Word, delta: Int32, skip: bool, outcome: Outcome)
      returns (nextIndividual: bool, nextGeneration: bool)
      requires Valid()
      modifies this`ranks, this`fitness, this`counter, this`streak, this`longestStreak,
               this`wins, this`goalWins, this`losses, this`minGoalMoves, this`maxGoalMoves
      ensures Valid()
      ensures ranks == PutRanks(old(ranks), old(fitness), genes) && fitness == old(fitness)[genes := newFitness]
      ensures State() == Tally(Advance(old(State()), delta), outcome)
      ensures nextIndividual == (delta > 0)
      ensures nextGeneration == IsBoundary(State(), delta, skip, |ranks|)
    {
      Put(genes, newFitness);
      var size := Size();
      nextIndividual, nextGeneration := Count(delta, skip, size);
      TallyMatch(outcome);
    }

    /** The first steps at a generation boundary: sort, note the best
        fitness, start the next generation. */
    method BeginGeneration()
      requires Valid() && ranks != []
      modifies this`ranks, this`maxFitness, this`counter, this`streak, this`generation
      ensures Valid() && ranks == SortedByFitness(old(ranks), fitness)
      ensures |ranks| == |old(ranks)| && forall k :: 0 <= k < |ranks| ==> ranks[k] in old(ranks)
      ensures State() == StartGeneration(old(State())) && maxFitness == fitness[ranks[0]]
    {
      SortByFitnessDescending();
      assert multiset(ranks) == multiset(old(ranks));
      assert |ranks| == |old(ranks)|;
      forall k | 0 <= k < |ranks| ensures ranks[k] in old(ranks) {
        assert ranks[k] in multiset(ranks);
      }
      maxFitness := fitness[ranks[0]];
      StartCounters();
    }

    /** Back to the first individual of the next generation. */
    method StartCounters()
      modifies this`counter, this`streak, this`generation
      ensures State() == StartGeneration(old(State()))
    {
      counter, streak, generation := 0, 0, Inc32(generation);
    }

    /** The tallies and the best fitness of a new generation. */
    method ResetTallyFields()
      modifies this`wins, this`losses, this`goalWins, this`longestStreak, this`minGoalMoves, this`maxGoalMoves,
               this`maxFitness
      ensures State() == ResetTallies(old(State())) && maxFitness == NegInf
    {
      wins, losses, goalWins, longestStreak := 0, 0, 0, 0;
      minGoalMoves, maxGoalMoves := MaxInt32, MinInt32;
      maxFitness := NegInf;
    }

    /** The state after a generation boundary that went through: the
        generation started from the prior counters has its tallies and
        best fitness reset, the targets have fitness negative infinity and
        hold the mutated genes of their sources, every other rank keeps
        its genes and fitness, and the directory holds everything saveAll
        wrote, with the best fitness of the sorted table in the stats. */
    ghost predicate ClosedFrom(prior: Counters, priorFitness: map<Genome, Word>, sortedGenes: seq<seq<Word>>,
                               priorDir: map<string, seq<Byte>>, best: Word,
                               perturb: (Int32, nat, nat, Word) -> Word)
      reads this`ranks, this`fitness, this`dir, this`maxFitness, this`counter, this`streak, this`generation,
            this`wins, this`goalWins, this`losses, this`minGoalMoves, this`maxGoalMoves, this`longestStreak, ranks
    {
      var started := StartGeneration(prior);
      && Valid() && fitness.Keys == priorFitness.Keys
      && State() == ResetTallies(started) && maxFitness == NegInf
      && ResetUpTo(ranks, fitness, priorFitness, survivors, survivors)
      && HoldsTargets(sortedGenes, survivors, perturb)
      && dir == SaveAllFiles(priorDir, Saved(ranks, fitness, CopyMutated(sortedGenes, survivors, survivors, generation, perturb)),
                             started, best)
    }

    /** The last steps at a generation boundary: save, then reset the
        tallies and the best fitness. */
    method FinishGeneration(ghost prior: Counters, ghost priorFitness: map<Genome, Word>,
                            ghost sortedGenes: seq<seq<Word>>, ghost priorDir: map<string, seq<Byte>>,
                            ghost best: Word, ghost perturb: (Int32, nat, nat, Word) -> Word)
      requires CopiedUpTo(priorFitness, sortedGenes, survivors, perturb)
      requires State() == StartGeneration(prior) && maxFitness == best && dir == priorDir
      modifies this`dir, this`wins, this`losses, this`goalWins, this`longestStreak,
               this`minGoalMoves, this`maxGoalMoves, this`maxFitness
      ensures ClosedFrom(prior, priorFitness, sortedGenes, priorDir, best, perturb)
    {
      ghost var final := CopyMutated(sortedGenes, survivors, survivors, generation, perturb);
      CopyMutatedPointwise(sortedGenes, survivors, survivors, generation, perturb);
      assert GenesOf(ranks) == final;
      ghost var r0, f0 := ranks, fitness;
      assert RecordsOf(ranks, fitness) == Saved(r0, f0, final);
      SaveAll();
      assert ranks == r0 && fitness == f0;
      ResetTallyFields();
      assert ranks == r0 && fitness == f0;
    }

    /** The first half of a generation boundary: sort, note the best
        fitness, start the next generation and replace the lower half by
        mutated copies of the upper half. genes are the genes of the sorted
        table; failed is the round whose target was too short, if any. */
    method SortAndCopy(perturb: (Int32, nat, nat, Word) -> Word)
      returns (r: Result<(), PopulationError>, ghost genes: seq<seq<Word>>, ghost failed: nat)
      requires Valid() && ranks != []
      modifies this`ranks, this`fitness, this`counter, this`streak, this`generation, this`maxFitness, ranks
      ensures Valid() && fitness.Keys == old(fitness).Keys
      ensures ranks == SortedByFitness(old(ranks), old(fitness)) && |ranks| == |old(ranks)|
      ensures genes == old(GenesOf(SortedByFitness(ranks, fitness)))
      ensures State() == StartGeneration(old(State())) && maxFitness == old(fitness)[ranks[0]]
      ensures r.Ok? ==> CopiedUpTo(old(fitness), genes, survivors, perturb)
      ensures r.Err? ==> r.error.CorruptedData? && survivors <= r.error.index < 2 * survivors
      ensures r.Err? ==> r == Err(CorruptedData(survivors + failed)) && FailedAt(old(fitness), genes, failed, perturb)
    {
      ghost var f0 := fitness;
      BeginGeneration();
      assert fitness == f0;
      genes := GenesOf(ranks);
      assert genes == old(GenesOf(SortedByFitness(ranks, fitness)));
      ghost var s1, m1, rk := State(), maxFitness, ranks;
      r, failed := CopyMutate(genes, perturb);
      assert State() == s1 && maxFitness == m1 && ranks == rk;
    }

    /** How a generation boundary ends, from the counters, table, genes
        of the sorted table and directory it started from: the table is
        sorted and, unless a corrupted target stopped the copy, closed as
        ClosedFrom says; after a corrupted target the next generation has
        started, the copy stands as FailedAt says for the rank in the error,
        and nothing was saved. */
    ghost predicate ClosedOutcome(prior: Counters, priorRanks: seq<Genome>, priorFitness: map<Genome, Word>,
                                  sortedGenes: seq<seq<Word>>, priorDir: map<string, seq<Byte>>,
                                  r: Result<bool, PopulationError>, perturb: (Int32, nat, nat, Word) -> Word)
      reads this`ranks, this`fitness, this`dir, this`maxFitness, this`counter, this`streak, this`generation,
            this`wins, this`goalWins, this`losses, this`minGoalMoves, this`maxGoalMoves, this`longestStreak, ranks
    {
      && Valid() && ranks == SortedByFitness(priorRanks, priorFitness)
      && ranks != [] && |ranks| == |priorRanks| && fitness.Keys == priorFitness.Keys
      && (r.Ok? ==> ClosedFrom(prior, priorFitness, sortedGenes, priorDir, priorFitness[ranks[0]], perturb))
      && (r.Err? ==>
            && r.error.CorruptedData? && survivors <= r.error.index < 2 * survivors
            && FailedAt(priorFitness, sortedGenes, r.error.index - survivors, perturb)
            && State() == StartGeneration(prior) && maxFitness == priorFitness[ranks[0]] && dir == priorDir)
    }

    /** The generation boundary of evolve: sort, note the best fitness,
        start the next generation, replace the lower half by mutated copies
        of the upper half, save, and reset the tallies. A corrupted target
        aborts after the copy, with the new generation started and nothing
        saved. Otherwise the answer is evolve's result, next. */
    method CloseGeneration(ghost prior: Counters, ghost priorRanks: seq<Genome>, ghost priorFitness: map<Genome, Word>,
                           ghost sortedGenes: seq<seq<Word>>, ghost priorDir: map<string, seq<Byte>>,
                           next: bool, perturb: (Int32, nat, nat, Word) -> Word) returns (r: Result<bool, PopulationError>)
      requires Valid() && ranks != []
      requires State() == prior && ranks == priorRanks && fitness == priorFitness && dir == priorDir
      requires GenesOf(SortedByFitness(ranks, fitness)) == sortedGenes
      modifies this`ranks, this`fitness, this`dir, this`counter, this`streak, this`generation,
               this`wins, this`goalWins, this`losses, this`minGoalMoves, this`maxGoalMoves,
               this`longestStreak, this`maxFitness, ranks
      ensures ClosedOutcome(prior, priorRanks, priorFitness, sortedGenes, priorDir, r, perturb)
      ensures r.Ok? ==> r == Ok(next)
    {
      var copied, genes, failed := SortAndCopy(perturb);
      if copied.Err? {
        return Err(copied.error);
      }
      ghost var rk := ranks;
      FinishGeneration(prior, priorFitness, genes, priorDir, priorFitness[ranks[0]], perturb);
      assert ranks == rk;
      r := Ok(next);
    }

    /** evolve(result, evaluation). Outside training mode nothing happens.
        In training mode the match is recorded and, at a generation
        boundary, the generation is closed. */
    method Evolve(genes: Genome, newFitness: Word, delta: Int32, skip: bool, outcome: Outcome,
                  perturb: (Int32, nat, nat, Word) -> Word) returns (r: Result<bool, PopulationError>)
      requires Valid()
      modifies this, ranks, genes
      ensures Valid()
      ensures !trainMode ==>
        && r == Ok(false) && ranks == old(ranks) && fitness == old(fitness)
        && State() == old(State()) && dir == old(dir) && maxFitness == old(maxFitness)
        && GenomesKept(ranks, genes)
      ensures trainMode ==>
        var c := Tally(Advance(old(State()), delta), outcome);
        var putRanks := PutRanks(old(ranks), old(fitness), genes);
        var putFitness := old(fitness)[genes := newFitness];
        if !IsBoundary(c, delta, skip, |putRanks|) then
          && r == Ok(delta > 0)
          && ranks == putRanks && fitness == putFitness
          && State() == c && dir == old(dir) && maxFitness == old(maxFitness)
          && GenomesKept(ranks, genes)
        else
          && (r.Ok? ==> r == Ok(true))
          && ClosedOutcome(c, putRanks, putFitness, old(GenesOf(SortedByFitness(putRanks, putFitness))), old(dir), r, perturb)
    {
      if !trainMode {
        return Ok(false);
      }
      var nextIndividual, nextGeneration := Play(genes, newFitness, delta, skip, outcome);
      if nextGeneration {
        ghost var c, pr, pf := Tally(Advance(old(State()), delta), outcome), PutRanks(old(ranks), old(fitness), genes),
                               old(fitness)[genes := newFitness];
        ghost var sorted := old(GenesOf(SortedByFitness(PutRanks(ranks, fitness, genes), fitness[genes := newFitness])));
        assert State() == c && ranks == pr && fitness == pf && dir == old(dir);
        assert GenesOf(SortedByFitness(pr, pf)) == sorted;
        r := CloseGeneration(c, pr, pf, sorted, old(dir), nextIndividual, perturb);
        return;
      }
      assert GenomesKept(ranks, genes);
      r := Ok(nextIndividual);
    }
  }
}
