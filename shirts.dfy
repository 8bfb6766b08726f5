/** The shirt-giveaway exercise: a factory's stock of shirts, and a
    giveaway that honours a user's preferred colour or else hands out the
    colour the factory has most of. */
module Shirts {
  import opened Common

  datatype ShirtColor = Red | Blue

  datatype Factory = Factory(store: seq<ShirtColor>)

  /** How many shirts of colour `c` the store holds. */
  function Count(store: seq<ShirtColor>, c: ShirtColor): (n: nat)
    ensures n <= |store|
  {
    if store == [] then 0
    else (if store[0] == c then 1 else 0) + Count(store[1..], c)
  }

  /** Every shirt is red or blue, so the two counts add up to the stock. */
  lemma {:induction false} CountsPartition(store: seq<ShirtColor>)
    ensures Count(store, Red) + Count(store, Blue) == |store|
  {
    if store != [] {
      CountsPartition(store[1..]);
    }
  }

  lemma CountSnoc(store: seq<ShirtColor>, x: ShirtColor, c: ShirtColor)
    ensures Count(store + [x], c) == Count(store, c) + (if x == c then 1 else 0)
  {
    if store != [] {
      assert (store + [x])[1..] == store[1..] + [x];
    }
  }

  /** `Factory::most_stocked`: counts both colours in one pass; Red wins
      only with strictly more shirts, so a tie (the empty store included)
      gives Blue. The store is only read. */
  method MostStocked(factory: Factory) returns (color: ShirtColor)
    ensures color == Red <==> Count(factory.store, Red) > Count(factory.store, Blue)
  {
    var redCount := 0;
    var blueCount := 0;
    for i := 0 to |factory.store|
      invariant redCount == Count(factory.store[..i], Red)
      invariant blueCount == Count(factory.store[..i], Blue)
      invariant redCount + blueCount == i
    {
      CountSnoc(factory.store[..i], factory.store[i], Red);
      CountSnoc(factory.store[..i], factory.store[i], Blue);
      assert factory.store[..i + 1] == factory.store[..i] + [factory.store[i]];
      match factory.store[i]
      case Red => redCount := redCount + 1;
      case Blue => blueCount := blueCount + 1;
    }
    assert factory.store[..|factory.store|] == factory.store;
    if redCount > blueCount {
      color := Red;
    } else {
      color := Blue;
    }
  }

  /** `Factory::giveaway`: the preference if there is one, otherwise the
      most stocked colour. */
  method Giveaway(factory: Factory, preference: Option<ShirtColor>) returns (color: ShirtColor)
    ensures preference.Some? ==> color == preference.value
    ensures preference.None? ==>
              (color == Red <==> Count(factory.store, Red) > Count(factory.store, Blue))
  {
    match preference
    case Some(c) =>
      color := c;
    case None =>
      color := MostStocked(factory);
  }

  /** The program's `main`: with two reds and one blue in stock, each
      user's preference is honoured and the user without one gets Red. */
  method MainGiveaways() returns (first: ShirtColor, second: ShirtColor, third: ShirtColor)
    ensures first == Blue && second == Red && third == Red
  {
    var factory := Factory([Red, Red, Blue]);
    first := Giveaway(factory, Some(Blue));
    second := Giveaway(factory, Some(Red));
    third := Giveaway(factory, None);
  }
}
