/** The quoting pass of the script once both fetches succeeded: aggregate the two
    books, then price a buy of `qty` against the asks and a sell of `qty`
    against the bids. */
module Quote {
  import opened OrderBook
  import opened Execution
  import opened Aggregation

  method Quote(gemini: Book, coinbase: Book, qty: real) returns (buyCost: real, sellRevenue: real)
    ensures buyCost == Walk(SortByPrice(gemini.asks + coinbase.asks, false), qty).value
    ensures sellRevenue == Walk(SortByPrice(gemini.bids + coinbase.bids, true), qty).value
  {
    var bids, asks := Aggregate(gemini, coinbase);
    buyCost := ExecAsk(asks[..], qty);
    sellRevenue := ExecBid(bids[..], qty);
  }
}
