/** LightPruner: the pruning rule of SmartHeuristic on its own. The player
    is found through the state (HUIGameState.getSCPlayer) rather than
    through the colour, which answers the same player. */
module LightPruners {
  import opened Wrappers
  import opened HuiUtils
  import SmartHeuristics

  type Lookup<T> = SmartHeuristics.Lookup<T>

  /** pruneMove(gameBeforeMove, gameAfterMove, move, player): a move that
      ends the game, or a carrot exchange right after another, is pruned;
      an exception raised on the way keeps the move. */
  function PruneMove(winner: Lookup<Option<PlayerColor>>, isCarrotExchange: Lookup<bool>,
                     lastBefore: Lookup<Option<Action>>): (r: bool)
    ensures r ==> winner.Found?
    ensures winner.Found? && winner.value.Some? ==> r
    ensures winner == SmartHeuristics.Found(None) ==>
      (r <==> isCarrotExchange == SmartHeuristics.Found(true) && lastBefore.Found? &&
              lastBefore.value.Some? && lastBefore.value.value.ExchangeCarrots?)
  {
    match winner
    case Raised => false
    case Found(w) =>
      if w.Some? then true
      else match isCarrotExchange
        case Raised => false
        case Found(exchange) =>
          exchange && match lastBefore
            case Raised => false
            case Found(last) => last.Some? && last.value.ExchangeCarrots?
  }

  /** The two heuristics prune exactly the same moves. */
  lemma PrunersAgree(winner: Lookup<Option<PlayerColor>>, isCarrotExchange: Lookup<bool>,
                     lastBefore: Lookup<Option<Action>>)
    ensures PruneMove(winner, isCarrotExchange, lastBefore) ==
            SmartHeuristics.PruneMove(winner, isCarrotExchange, lastBefore)
  {
  }
}
