# coinRoute order-book engine, modelled in Dafny

coinRoute is a script that prices a market order for BTC-USD against the
combined order books of Gemini and Coinbase. This project models its engine,
all of which is in `main.py`:

- **Execution simulator** (`exec_ask`, `exec_bid`): walk the levels of one side
  of the book in list order. At each level take the smaller of the level's
  amount and what is still needed, and add `price * take` to the total. Stop
  as soon as the target is reached. Python `Decimal` values are modelled as
  `real`.
- **Book aggregator** (main.py lines 132-136): concatenate the Gemini list and
  the Coinbase list. Sort the bids by price with `reverse=True` and the asks
  by price ascending, both with the stable `list.sort`, in place.
- **Rate-limit gate** (`rate_limiter`): a wrapper that remembers the time of the
  last call it let through (initially 0). It refuses a call that comes less
  than `period` after that time and leaves the state unchanged. Any other call
  records its time and runs the wrapped fetch. The clock reading is a
  parameter `now`.

Files and modules:

- `order_book.dfy` (`OrderBook`): the `[price, amount]` level, a fetched book,
  and the total amount offered.
- `execution.dfy` (`Execution`): the specification function `Walk`, the two
  loop methods `ExecAsk` and `ExecBid`, and the lemmas about the walk.
- `aggregation.dfy` (`Aggregation`): the stable sort. It has a reference
  insertion sort `SortByPrice`, an in-place array sort `SortInPlace` proved
  equal to it, and `Aggregate`.
- `rate_limit.dfy` (`RateLimit`): the class `RateLimiter` with its `lastCall`
  field, and the trace function `Admitted` with its spacing lemmas.
- `quote.dfy` (`Quote`): aggregation followed by both walks, as the script
  runs them once both fetches succeed.

`Walk` is defined level by level on prefixes of the list. Each step adds
`price * take`, where `take` is 0 once the target is reached and otherwise
`min(amount, target - filled)`. The loop invariant of both methods is
`Walk(levels[..i]) == Fill(totalBtc, total)`. The lemma `Saturated` shows that
the early `break` changes nothing.

A stable sort by price is characterised by `StableSortOf`: the result is sorted,
and at every price it holds the same levels in the same order as the input.
`StableSortUnique` shows that this fixes the result completely. So the
insertion sort used here gives the same list as CPython's Timsort.

The design description of this system and its code differ in places; the model
follows the code:

- The design description has the adapters skip malformed entries. The fetchers in
  `main.py` do not.
- The design description has the simulator return the filled quantity as well. The
  code returns only the total value. So `ExecAsk` and `ExecBid` return the
  value, and the filled quantity is the `filled` field of `Walk`.
- The design description has a zero target return before walking any level. The code
  enters the loop and breaks at the first level. The result is the same
  (`NothingToFill`).
- The design description treats rate limiting as outside the engine. In the code it
  is a decorator in `main.py`, and it is modelled here.

## Model

| member | source | states |
|---|---|---|
| `Execution.Min` | main.py:88 | Python's `min(amount, needed)`: the result is at most both arguments and equals one of them |
| `Execution.ExecAsk` | main.py:76-96 | the returned cost is the value of the greedy walk over `asks` for `target_btc`, early break included |
| `Execution.ExecBid` | main.py:98-116 | the returned revenue is the value of the same greedy walk over `bids`, so `exec_bid` computes the same function as `exec_ask` |
| `Execution.Saturated` | main.py:84-85 | once the filled quantity reaches the target, no later level changes the quantity or the value (the `break`) |
| `Execution.FilledAtMostTarget` | main.py:84-91 | for a non-negative target the filled quantity never exceeds the target, whatever the amounts |
| `Execution.NothingToFill` | main.py:78-85 | with a target of 0 or less, or no levels, the result is quantity 0 and value 0, and every level's take is 0 |
| `Execution.LevelsTakenInOrder` | main.py:82-91 | price priority: if a level contributes a positive amount, every earlier level was taken in full |
| `Execution.FilledIsAvailableUpToTarget` | main.py:82-92 | with non-negative amounts the filled quantity is min(target, total amount). It equals the target exactly when the total is at least the target, and otherwise it is the whole total (a partial fill) |
| `Execution.MonotoneFilled` | main.py:82-92 | a larger target never fills less |
| `Execution.MonotoneValue` | main.py:82-92 | with non-negative prices and amounts, a larger target never gives a smaller cost or revenue |
| `Execution.BuyExample` | main.py:76-96 | asks (100, 2), (101, 3) with target 4 fill 4 for a cost of 402 |
| `Execution.PartialSellExample` | main.py:98-116 | bids (99, 1) with target 5 fill only 1, for a revenue of 99 |
| `Aggregation.AtPriceConcat` | main.py:132-133 | the levels at one price in a concatenation are those of the first list followed by those of the second |
| `Aggregation.StableSortIsPermutation` | main.py:135-136 | a stable sort by price is a permutation of its input and has the same length |
| `Aggregation.SortedWithSameClassesAreEqual` | main.py:135-136 | two lists sorted by price that hold the same levels in the same order at every price are equal |
| `Aggregation.StableSortUnique` | main.py:135-136 | a stable sort is deterministic: any two stable sorts of the same list are equal |
| `Aggregation.InsertSorted` | main.py:135-136 | inserting a level into a list sorted by price keeps it sorted |
| `Aggregation.InsertAppendsAtPrice` | main.py:135-136 | inserting a level after all levels not later in priority puts it last among the levels at its price |
| `Aggregation.SortByPriceIsStableSort` | main.py:135-136 | the reference sort is sorted (ascending, or descending for `reverse=True`), keeps the order of equal-price levels, and is a permutation |
| `Aggregation.SortIdempotent` | main.py:135-136 | sorting an already sorted book changes nothing |
| `Aggregation.GeminiBeforeCoinbase` | main.py:132-136 | in the aggregated book, at every price the Gemini levels come first and then the Coinbase levels, each in its exchange's order. The level count is the sum of the two books' counts |
| `Aggregation.SwapKeepsClasses` | main.py:135-136 | swapping two neighbouring levels at different prices keeps the order of the levels at every price |
| `Aggregation.InsertDown` | main.py:135-136 | one insertion step of the in-place sort: the sorted prefix grows by one level, and the order at each price is unchanged |
| `Aggregation.SortInPlace` | main.py:135-136 | the array after `list.sort(key=price, reverse=...)` is exactly the stable sort of the array before |
| `Aggregation.Aggregate` | main.py:132-136 | the combined bids are the stable descending sort of Gemini bids followed by Coinbase bids. The combined asks are the stable ascending sort of the ask concatenation |
| `RateLimit.RateLimiter.constructor` | main.py:7-9 | a fresh gate has `last_call` 0 and has seen no calls |
| `RateLimit.RateLimiter.Call` | main.py:11-22 | a call with `now - last_call < period` returns `None` and leaves `last_call` unchanged. Any other call sets `last_call` to `now` and returns the wrapped fetch's result |
| `RateLimit.AdmittedSpaced` | main.py:16-20 | over any sequence of calls, each admitted call comes at least `period` after the previous admitted one (the first at least `period` after 0), and only calls that were made are admitted |
| `RateLimit.SpacedPairwise` | main.py:16-20 | with a non-negative period, any two admitted calls are at least `period` apart |
| `Quote.Quote` | main.py:129-139 | the buy cost is the walk over the aggregated asks, and the sell revenue is the walk over the aggregated bids |

## Left out

- `fetch_gemini` and `fetch_coinbase` (main.py:29-74): HTTP requests and JSON decoding of vendor payloads. Their output is taken as given `Book` values.
- `time.time()` (main.py:14): the wall clock is the parameter `now`. The float arithmetic on clock readings is modelled as exact `real` arithmetic.
- `Decimal` context rounding: Python rounds `Decimal` results to 28 significant digits. The model computes exactly, which agrees whenever the products and sums fit in 28 digits.
- The "Rate limited!" message (main.py:17), the top-level wiring and its message (main.py:118-122), `argparse` (main.py:124-127), and the currency formatting and printing (main.py:141-149): these are input/output only.
- CPython's Timsort: the sort is modelled by a stable insertion sort. `StableSortUnique` shows that every stable sort gives the same result.
- `RateLimit.RateLimiter.Call` takes the wrapped fetch as a function value. Side effects of the fetch are not modelled.
- `Execution.FilledIsAvailableUpToTarget`, `Execution.MonotoneFilled`, `Execution.MonotoneValue`: these assume non-negative amounts (and, for the value, non-negative prices), as exchanges quote them. The code itself does not check this.
