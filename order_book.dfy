/** The values the exchange fetchers hand to the engine. Prices and amounts are
    Python `Decimal`s, which are exact, so they are modelled as `real`. */
module OrderBook {

  /** One resting order: the `[price, amount]` pair a fetcher appends to its list. */
  datatype Level = Level(price: real, amount: real)

  /** What one fetcher returns: its bid list and its ask list, in the vendor's order. */
  datatype Book = Book(bids: seq<Level>, asks: seq<Level>)

  /** The quantity offered by all `levels` together. */
  function TotalAmount(levels: seq<Level>): real
  {
    if levels == [] then 0.0 else TotalAmount(levels[..|levels| - 1]) + levels[|levels| - 1].amount
  }

  /** Exchanges never quote a negative amount; the lemmas that need this say so. */
  predicate NonNegativeAmounts(levels: seq<Level>)
  {
    forall i :: 0 <= i < |levels| ==> levels[i].amount >= 0.0
  }

  predicate NonNegativePrices(levels: seq<Level>)
  {
    forall i :: 0 <= i < |levels| ==> levels[i].price >= 0.0
  }
}
