/** The generational bookkeeping of the population engine as a state
    machine on its nine int counters: the position of the individual under
    test, the streak of matches it has played, the generation number and the
    per-generation tallies. All of them are Java ints, so every increment
    wraps around. */
module Generations {
  import opened Words

  datatype Counters = Counters(
    counter: Int32,
    streak: Int32,
    generation: Int32,
    wins: Int32,
    goalWins: Int32,
    losses: Int32,
    minGoalMoves: Int32,
    maxGoalMoves: Int32,
    longestStreak: Int32)

  /** What evolve learns about the match just played. */
  datatype Outcome = Outcome(won: bool, inGoal: bool, turn: Int32)

  /** The field values of a new population. */
  const Initial: Counters :=
    Counters(0, 0, 0, 0, 0, 0, MaxInt32, MinInt32, 0)

  /** The counter and streak update of evolve: a positive counter delta moves
      on to the next individual, closing the streak; otherwise the streak
      grows. */
  function Advance(c: Counters, delta: Int32): (r: Counters)
    ensures delta > 0 ==>
      && r.counter == Wrap32(c.counter + delta)
      && r.streak == 0
      && r.longestStreak == Max32(c.longestStreak, c.streak)
    ensures delta <= 0 ==>
      r.counter == c.counter && r.streak == Inc32(c.streak) && r.longestStreak == c.longestStreak
    ensures r.generation == c.generation && r.wins == c.wins && r.goalWins == c.goalWins
    ensures r.losses == c.losses && r.minGoalMoves == c.minGoalMoves && r.maxGoalMoves == c.maxGoalMoves
  {
    if delta > 0 then
      c.(counter := Wrap32(c.counter + delta),
         longestStreak := Max32(c.longestStreak, c.streak),
         streak := 0)
    else
      c.(streak := Inc32(c.streak))
  }

  /** The match tallies of evolve: a win in the goal, another win, or a loss. */
  function Tally(c: Counters, o: Outcome): (r: Counters)
    ensures o.won && o.inGoal ==>
      && r.goalWins == Inc32(c.goalWins) && r.wins == c.wins && r.losses == c.losses
      && r.minGoalMoves == Min32(o.turn, c.minGoalMoves)
      && r.maxGoalMoves == Max32(o.turn, c.maxGoalMoves)
    ensures o.won && !o.inGoal ==>
      r == c.(wins := Inc32(c.wins))
    ensures !o.won ==>
      r == c.(losses := Inc32(c.losses))
    ensures r.counter == c.counter && r.streak == c.streak && r.generation == c.generation
    ensures r.longestStreak == c.longestStreak
  {
    if o.won then
      if o.inGoal then
        c.(minGoalMoves := Min32(o.turn, c.minGoalMoves),
           maxGoalMoves := Max32(o.turn, c.maxGoalMoves),
           goalWins := Inc32(c.goalWins))
      else c.(wins := Inc32(c.wins))
    else c.(losses := Inc32(c.losses))
  }

  /** Whether the match closes the generation: the counter moved on and
      either the evaluation asked to skip ahead or every individual of the
      table has played its matches. */
  predicate IsBoundary(advanced: Counters, delta: Int32, skip: bool, size: nat) {
    delta > 0 && (skip || advanced.counter >= size)
  }

  /** The start of a new generation: back to the first individual. */
  function StartGeneration(c: Counters): (r: Counters)
    ensures r.counter == 0 && r.streak == 0 && r.generation == Inc32(c.generation)
    ensures r.wins == c.wins && r.goalWins == c.goalWins && r.losses == c.losses
    ensures r.minGoalMoves == c.minGoalMoves && r.maxGoalMoves == c.maxGoalMoves
    ensures r.longestStreak == c.longestStreak
  {
    c.(counter := 0, streak := 0, generation := Inc32(c.generation))
  }

  /** The tallies once the generation has been saved. */
  function ResetTallies(c: Counters): (r: Counters)
    ensures r.wins == 0 && r.goalWins == 0 && r.losses == 0 && r.longestStreak == 0
    ensures r.minGoalMoves == MaxInt32 && r.maxGoalMoves == MinInt32
    ensures r.counter == c.counter && r.streak == c.streak && r.generation == c.generation
  {
    c.(wins := 0, losses := 0, goalWins := 0, longestStreak := 0,
       minGoalMoves := MaxInt32, maxGoalMoves := MinInt32)
  }

  /** The number of matches a generation's tallies account for. */
  function Matches(c: Counters): int {
    c.wins + c.goalWins + c.losses
  }

  /** Every match adds one to exactly one of the three tallies (short of
      wrap-around), and the counters evolve does not touch stay as they were. */
  lemma TallyCountsOneMatch(c: Counters, o: Outcome)
    requires c.wins < MaxInt32 && c.goalWins < MaxInt32 && c.losses < MaxInt32
    ensures Matches(Tally(c, o)) == Matches(c) + 1
    ensures var r := Tally(c, o);
      (if r.goalWins != c.goalWins then 1 else 0)
      + (if r.wins != c.wins then 1 else 0)
      + (if r.losses != c.losses then 1 else 0) == 1
  {
  }

  /** The goal-move extremes only change on a win in the goal, and then
      they bracket the turn count. */
  lemma GoalMovesOnlyOnGoalWins(c: Counters, o: Outcome)
    ensures !(o.won && o.inGoal) ==>
      Tally(c, o).minGoalMoves == c.minGoalMoves && Tally(c, o).maxGoalMoves == c.maxGoalMoves
    ensures o.won && o.inGoal ==>
      Tally(c, o).minGoalMoves <= o.turn <= Tally(c, o).maxGoalMoves
  {
  }

  /** After one goal win from the initial tallies, both extremes equal its turn count. */
  lemma FirstGoalWinSetsBothExtremes(turn: Int32)
    ensures var r := Tally(ResetTallies(Initial), Outcome(true, true, turn));
      r.minGoalMoves == turn && r.maxGoalMoves == turn
  {
  }

  /** Testing the individuals one match each, with delta 1 and no skip, the
      generation closes exactly at the last individual of the table. */
  lemma UnitStepBoundary(c: Counters, size: nat)
    requires 0 <= c.counter < size <= MaxInt32
    ensures IsBoundary(Advance(c, 1), 1, false, size) <==> c.counter == size - 1
    ensures !IsBoundary(Advance(c, 1), 1, false, size) ==> Advance(c, 1).counter == c.counter + 1
  {
  }

  /** The counter never closes a generation when it does not move. */
  lemma NoBoundaryWithoutDelta(c: Counters, delta: Int32, skip: bool, size: nat)
    requires delta <= 0
    ensures !IsBoundary(Advance(c, delta), delta, skip, size)
  {
  }

  /** Advancing from a counter that cannot overflow adds the delta. */
  lemma AdvanceWithoutWrap(c: Counters, delta: Int32)
    requires delta > 0 && c.counter + delta <= MaxInt32
    ensures Advance(c, delta).counter == c.counter + delta
  {
  }

  /** The two steps of a boundary leave the population at the start of a
      fresh generation whatever the tallies were. */
  lemma BoundaryState(c: Counters)
    ensures var r := ResetTallies(StartGeneration(c));
      r == Initial.(generation := Inc32(c.generation))
  {
  }

  /** k matches in a row that each move the counter on by one. */
  function UnitSteps(c: Counters, k: nat): Counters {
    if k == 0 then c else Advance(UnitSteps(c, k - 1), 1)
  }

  lemma {:induction false} UnitStepsCount(c: Counters, k: nat)
    requires 0 <= c.counter && c.counter + k <= MaxInt32
    ensures UnitSteps(c, k).counter == c.counter + k
    ensures UnitSteps(c, k).generation == c.generation
    ensures k > 0 ==> UnitSteps(c, k).streak == 0
  {
    if k > 0 {
      UnitStepsCount(c, k - 1);
    }
  }

  /** From the first individual, with one match per individual and no skip,
      the k-th match closes the generation exactly when k reaches the table
      size. */
  lemma UnitStepsCloseGeneration(c: Counters, size: nat, k: nat)
    requires c.counter == 0 && 1 <= k <= size <= MaxInt32
    ensures IsBoundary(UnitSteps(c, k), 1, false, size) <==> k == size
  {
    UnitStepsCount(c, k);
  }
}
