/** The game helpers of HUIUtils: the weight count of a network, the
    carrot-exchange cycle test, the winner and game-over rules, the
    distances to the next field of a type, and the text and class set of
    a move. The game engine's objects are reduced to the values these
    helpers read from them. */
module HuiUtils {
  import opened Words
  import opened Wrappers
  import opened Decimal
  import opened JavaInts
  import Sorting

  /** An action of a move. Only an Advance's distance and an
      ExchangeCarrots' value are read; any other action class is known by
      its simple name. */
  datatype Action =
    | Advance(distance: Int32)
    | ExchangeCarrots(value: Int32)
    | FallBack
    | Other(simpleName: string)

  /** The runtime class of an action. */
  datatype ActionClass = AdvanceClass | ExchangeCarrotsClass | FallBackClass | OtherClass(simpleName: string)

  datatype PlayerColor = Red | Blue

  /** What the helpers read from a player. */
  datatype PlayerView = PlayerView(fieldIndex: Int32, inGoal: bool, lastNonSkipAction: Option<Action>,
                                   ownsEatSalad: bool)

  /** What the helpers read from a game state. */
  datatype GameView = GameView(round: Int32, red: PlayerView, blue: PlayerView)

  /** The NegativeArraySizeException of `new float[n]`. */
  datatype WeightsError = NegativeArraySize(size: int)

  // ---------------------------------------------------------------------
  // generateWeights

  /** The number of weights of a fully connected network with the given
      layer sizes: every neuron of a layer after the first has one weight
      per neuron of the layer before it and one bias weight. */
  function WeightSum(layers: seq<Int32>): int {
    if |layers| < 2 then 0
    else WeightSum(layers[..|layers| - 1]) + LayerWeights(layers[|layers| - 2], layers[|layers| - 1])
  }

  /** The weights into a layer of `size` neurons from one of `before`. */
  function LayerWeights(before: int, size: int): int {
    (before + 1) * size
  }

  /** With layer sizes that are not negative, every further layer adds
      weights and none are taken away. */
  lemma {:induction false} WeightSumGrows(layers: seq<Int32>, n: nat)
    requires n <= |layers|
    requires forall i :: 0 <= i < |layers| ==> layers[i] >= 0
    ensures 0 <= WeightSum(layers[..n]) <= WeightSum(layers)
  {
    if n < |layers| {
      var init := layers[..|layers| - 1];
      assert layers[..n] == init[..n];
      WeightSumGrows(init, n);
      if |layers| >= 2 {
        LayerWeightsNonNegative(layers[|layers| - 2], layers[|layers| - 1]);
      }
    } else {
      assert layers[..n] == layers;
      if |layers| >= 2 {
        WeightSumGrows(layers[..|layers| - 1], |layers| - 1);
        assert layers[..|layers| - 1][..|layers| - 1] == layers[..|layers| - 1];
      }
    }
  }

  lemma LayerWeightsNonNegative(before: int, size: int)
    requires before >= 0 && size >= 0
    ensures LayerWeights(before, size) >= 0
  {
  }

  /** An input layer of a, a hidden layer of b and an output layer of c
      neurons. */
  lemma WeightSumOfThreeLayers(a: Int32, b: Int32, c: Int32)
    ensures WeightSum([a, b, c]) == (a + 1) * b + (b + 1) * c
  {
    assert [a, b, c][..2] == [a, b];
    assert [a, b][..1] == [a];
    assert WeightSum([a]) == 0;
    assert WeightSum([a, b]) == LayerWeights(a, b);
  }

  /** generateWeights(layerSizes), without the Gaussian initialisation of
      the weights: the length of the new weight array. The count is
      accumulated in an int, so it wraps around, and a negative count
      makes the allocation fail. */
  method GenerateWeights(layers: seq<Int32>) returns (r: Result<nat, WeightsError>)
    ensures Wrap32(WeightSum(layers)) >= 0 ==> r == Ok(Wrap32(WeightSum(layers)))
    ensures Wrap32(WeightSum(layers)) < 0 ==> r == Err(NegativeArraySize(Wrap32(WeightSum(layers))))
  {
    var count: Int32 := 0;
    var i := 1;
    while i < |layers|
      invariant 1 <= i
      invariant i <= |layers| ==> count == Wrap32(WeightSum(layers[..i]))
      invariant i > |layers| ==> i == 1 && count == 0
      decreases |layers| - i
    {
      var product := Wrap32(Wrap32(layers[i - 1] as int + 1) * layers[i]);
      ghost var before := WeightSum(layers[..i]);
      assert layers[..i + 1][..i] == layers[..i];
      assert WeightSum(layers[..i + 1]) == before + LayerWeights(layers[i - 1], layers[i]);
      WrapMul(layers[i - 1] as int + 1, layers[i]);
      assert product == Wrap32(LayerWeights(layers[i - 1], layers[i]));
      WrapAdd(before, product);
      WrapAdd(LayerWeights(layers[i - 1], layers[i]), before);
      count := Wrap32(count + product);
      i := i + 1;
    }
    if |layers| > 0 {
      assert layers[..|layers|] == layers;
    }
    if count < 0 {
      return Err(NegativeArraySize(count));
    }
    r := Ok(count);
  }

  /** Layer sizes that are not negative and a count that fits an int give
      exactly the sum; fewer than two layers give no weights. */
  lemma GenerateWeightsCount(layers: seq<Int32>)
    requires forall i :: 0 <= i < |layers| ==> layers[i] >= 0
    requires WeightSum(layers) <= MaxInt32
    ensures Wrap32(WeightSum(layers)) == WeightSum(layers) >= 0
    ensures |layers| < 2 ==> WeightSum(layers) == 0
  {
    WeightSumGrows(layers, 0);
  }

  // ---------------------------------------------------------------------
  // hasCyclicCarrotExchange

  /** The carrots an ExchangeCarrots action takes (positive) or drops
      (negative); None for any other action or no action at all. */
  function ExchangeValue(a: Option<Action>): Option<Int32> {
    if a.Some? && a.value.ExchangeCarrots? then Some(a.value.value) else None
  }

  /** hasCyclicCarrotExchange(beforeMove, afterMove): both players' last
      non-skip actions exchange carrots, one taking and the other
      dropping. */
  function HasCyclicCarrotExchange(beforeMove: PlayerView, afterMove: PlayerView): (r: bool)
    ensures var v1, v2 := ExchangeValue(beforeMove.lastNonSkipAction), ExchangeValue(afterMove.lastNonSkipAction);
      r <==> v1.Some? && v2.Some? && v1.value != 0 && v2.value != 0 && (v1.value < 0 <==> v2.value > 0)
  {
    match (beforeMove.lastNonSkipAction, afterMove.lastNonSkipAction)
    case (Some(ExchangeCarrots(value1)), Some(ExchangeCarrots(value2))) =>
      (value1 > 0 && value2 < 0) || (value1 < 0 && value2 > 0)
    case _ => false
  }

  // ---------------------------------------------------------------------
  // getWinnerOrNull, isGameOver

  /** getWinnerOrNull(state): at the round limit the player further ahead,
      blue on a tie; before it the first of red and blue that is in the
      goal; null otherwise. roundLimit is Constants.ROUND_LIMIT. */
  function GetWinnerOrNull(state: GameView, roundLimit: int): (r: Option<PlayerColor>)
    ensures state.round >= roundLimit ==>
      (r == Some(Red) <==> state.red.fieldIndex > state.blue.fieldIndex) && r.Some?
    ensures state.round < roundLimit ==>
      && (r == Some(Red) <==> state.red.inGoal)
      && (r == Some(Blue) <==> !state.red.inGoal && state.blue.inGoal)
  {
    if state.round >= roundLimit then
      Some(if state.red.fieldIndex > state.blue.fieldIndex then Red else Blue)
    else if state.red.inGoal then Some(Red)
    else if state.blue.inGoal then Some(Blue)
    else None
  }

  /** isGameOver(state): the round limit is reached or a player is in the
      goal, which is exactly when there is a winner. */
  function IsGameOver(state: GameView, roundLimit: int): (r: bool)
    ensures r <==> GetWinnerOrNull(state, roundLimit).Some?
  {
    state.round >= roundLimit || state.red.inGoal || state.blue.inGoal
  }

  /** A tie at the round limit goes to blue, even when red is in the goal. */
  lemma TieGoesToBlue(state: GameView, roundLimit: int)
    requires state.round >= roundLimit && state.red.fieldIndex == state.blue.fieldIndex
    ensures GetWinnerOrNull(state, roundLimit) == Some(Blue)
  {
  }

  // ---------------------------------------------------------------------
  // distToNextField, distToNextSalad

  /** distToNextField(type, currentIndex, state), given the index of the
      next field of that type: the int difference, which added back to
      the current index gives that field. */
  function DistToNextField(nextIndex: Int32, currentIndex: Int32): (d: Int32)
    ensures Wrap32(currentIndex + d) == nextIndex
    ensures MinInt32 <= nextIndex - currentIndex <= MaxInt32 ==> d == nextIndex - currentIndex
  {
    WrapAdd(nextIndex - currentIndex, currentIndex);
    Wrap32(nextIndex - currentIndex)
  }

  /** distToNextSalad(me, state), given the indices of the next salad and
      the next hare field: the nearer of the two for a player holding an
      eat-salad card, the salad field's otherwise. */
  function DistToNextSalad(me: PlayerView, nextSalad: Int32, nextHare: Int32): (d: Int32)
    ensures var toSalad, toHare := DistToNextField(nextSalad, me.fieldIndex), DistToNextField(nextHare, me.fieldIndex);
      d == if me.ownsEatSalad then Min32(toSalad, toHare) else toSalad
  {
    var distToSaladField := DistToNextField(nextSalad, me.fieldIndex);
    var distToHareField := DistToNextField(nextHare, me.fieldIndex);
    if distToHareField < distToSaladField && me.ownsEatSalad then distToHareField else distToSaladField
  }

  // ---------------------------------------------------------------------
  // toString(Move), getActionTypes

  function ClassOf(a: Action): ActionClass {
    match a
    case Advance(_) => AdvanceClass
    case ExchangeCarrots(_) => ExchangeCarrotsClass
    case FallBack => FallBackClass
    case Other(name) => OtherClass(name)
  }

  function SimpleName(a: Action): string {
    match a
    case Advance(_) => "Advance"
    case ExchangeCarrots(_) => "ExchangeCarrots"
    case FallBack => "FallBack"
    case Other(name) => name
  }

  /** The text of one action: its simple name in parentheses, with the
      distance of an Advance, and a trailing space. */
  function ActionText(a: Action): string {
    "(" + SimpleName(a) + (if a.Advance? then " -> " + IntToString(a.distance) else "") + ") "
  }

  function ActionsText(actions: seq<Action>): string {
    if actions == [] then "" else ActionsText(actions[..|actions| - 1]) + ActionText(actions[|actions| - 1])
  }

  /** The text of a move: the actions' texts in order, concatenated. */
  lemma {:induction false} ActionsTextAppend(a: seq<Action>, b: seq<Action>)
    ensures ActionsText(a + b) == ActionsText(a) + ActionsText(b)
    decreases |b|
  {
    if b == [] {
      assert a + b == a;
    } else {
      var init, last := b[..|b| - 1], b[|b| - 1];
      assert (a + b)[..|a + b| - 1] == a + init;
      assert ActionsText(a + b) == ActionsText(a + init) + ActionText(last);
      ActionsTextAppend(a, init);
      Sorting.AppendAssoc(ActionsText(a), ActionsText(init), ActionText(last));
    }
  }

  /** Every action contributes its parentheses and trailing space. */
  lemma {:induction false} ActionsTextLength(actions: seq<Action>)
    ensures |ActionsText(actions)| >= 3 * |actions|
  {
    if actions != [] {
      ActionsTextLength(actions[..|actions| - 1]);
    }
  }

  lemma ActionsTextSnoc(actions: seq<Action>, i: nat)
    requires i < |actions|
    ensures ActionsText(actions[..i + 1]) == ActionsText(actions[..i]) + ActionText(actions[i])
  {
    assert actions[..i + 1][..i] == actions[..i];
  }

  /** toString(move): "[Move] " and then the text of every action, in order. */
  method ToString(actions: seq<Action>) returns (s: string)
    ensures s == "[Move] " + ActionsText(actions)
  {
    s := "[Move] ";
    for i := 0 to |actions|
      invariant s == "[Move] " + ActionsText(actions[..i])
    {
      var action := actions[i];
      ActionsTextSnoc(actions, i);
      var text := "(" + SimpleName(action);
      if action.Advance? {
        text := text + (" -> " + IntToString(action.distance));
      }
      text := text + ") ";
      assert text == ActionText(action);
      Sorting.AppendAssoc("[Move] ", ActionsText(actions[..i]), text);
      s := s + text;
    }
    assert actions[..|actions|] == actions;
  }

  /** getActionTypes(move): the classes of the move's actions. */
  method GetActionTypes(actions: seq<Action>) returns (types: set<ActionClass>)
    ensures forall i :: 0 <= i < |actions| ==> ClassOf(actions[i]) in types
    ensures forall t :: t in types ==> exists i :: 0 <= i < |actions| && ClassOf(actions[i]) == t
  {
    types := {};
    for i := 0 to |actions|
      invariant forall j :: 0 <= j < i ==> ClassOf(actions[j]) in types
      invariant forall t :: t in types ==> exists j :: 0 <= j < i && ClassOf(actions[j]) == t
    {
      types := types + {ClassOf(actions[i])};
    }
  }
}
