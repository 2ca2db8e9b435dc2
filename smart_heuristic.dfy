/** SmartHeuristic: the rating of a move from the statistics of the player
    who made it, and the rule that prunes moves from the search. Calls into
    the game engine that can fail are modelled by what they answer, or by
    the exception they raise. */
module SmartHeuristics {
  import opened Words
  import opened Wrappers
  import opened JavaInts
  import opened HuiUtils

  /** A rating: a double that is one of the two infinities or the value of
      an int. */
  datatype Rating = NegInf | PosInf | Finite(value: int)

  /** The answer of an engine call, or the exception it raised. */
  datatype Lookup<T> = Found(value: T) | Raised

  /** What the heuristic reads from a player. */
  datatype Player = Player(salads: Int32, carrots: Int32, fieldIndex: Int32, inGoal: bool,
                           lastNonSkipAction: Option<Action>)

  const CarrotWeight: Int32 := 1
  const SaladWeight: Int32 := 256
  const FieldIndexWeight: Int32 := 4

  /** The carrots worth holding on the given field: a linear function that
      falls from 35 at the start to 3 at the goal field, 64. */
  function CarrotOptimum(fieldIndex: Int32): (r: Int32)
    ensures 0 <= fieldIndex <= 70 ==> 0 <= 70 - fieldIndex - 2 * r <= 1
  {
    var fieldsToGoal := Wrap32(64 - fieldIndex);
    JavaDiv(Wrap32(fieldsToGoal + 6), 2)
  }

  /** Further along the track, fewer carrots are worth holding. */
  lemma CarrotOptimumFalls(f: Int32, g: Int32)
    requires 0 <= f <= g <= 70
    ensures CarrotOptimum(g) <= CarrotOptimum(f)
  {
  }

  /** |x| on unbounded integers. */
  function Abs(x: int): (r: nat)
    ensures r == x || r == -x
  {
    if x < 0 then -x else x
  }

  /** rate(player): fewer salads, a higher field and a carrot count close
      to the optimum are better, with every step in int arithmetic. */
  function Rate(p: Player): (r: Int32) {
    var saladRating := Wrap32(-(Wrap32(p.salads * SaladWeight) as int));
    var fieldRating := Wrap32(p.fieldIndex * FieldIndexWeight);
    var carrotRating := JavaDiv(Wrap32(-(Abs32(Wrap32(Wrap32(p.carrots - CarrotOptimum(p.fieldIndex)) * CarrotWeight)) as int)), 4);
    Wrap32(Wrap32(saladRating + fieldRating) + carrotRating)
  }

  /** Statistics of a real game, far from any int overflow. */
  predicate Moderate(p: Player) {
    0 <= p.salads <= 0x10_0000 && 0 <= p.carrots <= 0x10_0000 && 0 <= p.fieldIndex <= 70
  }

  /** For moderate statistics, no step of the rating wraps around: a salad
      costs 256, a field gains 4 and every four carrots away from the
      optimum cost 1. */
  lemma RateExact(p: Player)
    requires Moderate(p)
    ensures Rate(p) == 4 * p.fieldIndex - 256 * p.salads - Abs(p.carrots - CarrotOptimum(p.fieldIndex)) / 4
  {
    var opt := CarrotOptimum(p.fieldIndex);
    assert 0 <= opt <= 35;
    var d := p.carrots - opt;
    assert Wrap32(Wrap32(d) * CarrotWeight) == d;
    assert Abs32(d) == Abs(d);
    assert JavaDiv(-(Abs(d) as int), 4) == -(Abs(d) / 4);
  }

  /** The carrot term never raises the rating above what salads and field
      give. */
  lemma RateAtMostPosition(p: Player)
    requires Moderate(p)
    ensures Rate(p) <= 4 * p.fieldIndex - 256 * p.salads
    ensures p.carrots == CarrotOptimum(p.fieldIndex) ==> Rate(p) == 4 * p.fieldIndex - 256 * p.salads
  {
    RateExact(p);
  }

  /** One salad more costs exactly 256, whatever else the player holds. */
  lemma RateSaladCost(p: Player)
    requires Moderate(p) && p.salads < 0x10_0000
    ensures Rate(p.(salads := p.salads + 1)) == Rate(p) - 256
  {
    RateExact(p);
    RateExact(p.(salads := p.salads + 1));
  }

  /** An ExchangeCarrots or FallBack action. */
  predicate Backtracks(a: Option<Action>) {
    a.Some? && (a.value.ExchangeCarrots? || a.value.FallBack?)
  }

  /** heuristic(gameBeforeMove, gameAfterMove, move, player), given whether
      the move was discarded and the player looked up in the two states:
      reaching the goal is as good as it gets; a discarded move, a move
      after carrots were exchanged or after falling back, and a failed
      lookup are as bad as it gets; any other move is rated by the player's
      statistics after it. */
  function Heuristic(discarded: bool, before: Lookup<Player>, after: Lookup<Player>): (r: Rating)
    ensures r == PosInf <==> !discarded && before.Found? && after.Found? && after.value.inGoal
    ensures r.Finite? <==>
      !discarded && before.Found? && after.Found? && !after.value.inGoal && !Backtracks(before.value.lastNonSkipAction)
    ensures r.Finite? ==> r.value == Rate(after.value)
  {
    if discarded then NegInf
    else match (before, after)
      case (Found(playerBeforeMove), Found(playerAfterMove)) =>
        var lastAction := playerBeforeMove.lastNonSkipAction;
        if playerAfterMove.inGoal then PosInf
        else if lastAction.Some? && (lastAction.value.ExchangeCarrots? || lastAction.value.FallBack?) then NegInf
        else Finite(Rate(playerAfterMove))
      case _ => NegInf
  }

  /** pruneMove(gameBeforeMove, gameAfterMove, move, player), given the
      winner after the move, whether the move exchanges carrots and the
      player's last non-skip action before it: prune a move that ends the
      game, and a carrot exchange right after another. The conditions are
      evaluated left to right and stop at the first that decides; an
      exception keeps the move. */
  function PruneMove(winner: Lookup<Option<PlayerColor>>, isCarrotExchange: Lookup<bool>,
                     lastBefore: Lookup<Option<Action>>): (r: bool)
    ensures r <==> (winner.Found? &&
                    (winner.value.Some? ||
                     (isCarrotExchange == Found(true) && lastBefore.Found? && ExchangeValue(lastBefore.value).Some?)))
  {
    if winner.Raised? then false
    else if winner.value.Some? then true
    else if isCarrotExchange.Raised? || !isCarrotExchange.value then false
    else if lastBefore.Raised? then false
    else lastBefore.value.Some? && lastBefore.value.value.ExchangeCarrots?
  }

  /** Once the game has a winner, nothing later in the condition is
      evaluated, so its exceptions cannot keep the move. */
  lemma PruneGameEnd(winner: PlayerColor, isCarrotExchange: Lookup<bool>, lastBefore: Lookup<Option<Action>>)
    ensures PruneMove(Found(Some(winner)), isCarrotExchange, lastBefore)
  {
  }
}
