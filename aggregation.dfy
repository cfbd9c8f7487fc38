/** The book aggregator: the Gemini and Coinbase lists are concatenated and then
    sorted in place by price with Python's stable `list.sort`, bids with
    `reverse=True` (best bid first) and asks ascending (best ask first). */
module Aggregation {
  import opened OrderBook

  /** The sort key: the price, negated when sorting with `reverse=True`, so that
      both directions are "ascending by key". */
  function Key(level: Level, descending: bool): real
  {
    if descending then -level.price else level.price
  }

  /** Every level is at or before every later level in price priority. */
  predicate SortedByPrice(s: seq<Level>, descending: bool)
  {
    forall i, j :: 0 <= i < j < |s| ==> Key(s[i], descending) <= Key(s[j], descending)
  }

  /** The levels of `s` quoted at price `p`, in their order in `s`. A stable sort
      keeps each of these subsequences as it was. */
  function AtPrice(s: seq<Level>, p: real): seq<Level>
  {
    if s == [] then []
    else (if s[0].price == p then [s[0]] else []) + AtPrice(s[1..], p)
  }

  /** `r` is what a stable sort by price makes of `s`: sorted, and the levels at
      each price are those of `s` in the order `s` has them. */
  ghost predicate StableSortOf(r: seq<Level>, s: seq<Level>, descending: bool)
  {
    SortedByPrice(r, descending) && forall p :: AtPrice(r, p) == AtPrice(s, p)
  }

  lemma {:induction false} AtPriceConcat(s: seq<Level>, t: seq<Level>, p: real)
    ensures AtPrice(s + t, p) == AtPrice(s, p) + AtPrice(t, p)
  {
    if s == [] {
      assert s + t == t;
    } else {
      var head := if s[0].price == p then [s[0]] else [];
      assert (s + t)[0] == s[0];
      assert (s + t)[1..] == s[1..] + t;
      AtPriceConcat(s[1..], t, p);
      calc {
        AtPrice(s + t, p);
        head + AtPrice(s[1..] + t, p);
        head + (AtPrice(s[1..], p) + AtPrice(t, p));
        (head + AtPrice(s[1..], p)) + AtPrice(t, p);
        AtPrice(s, p) + AtPrice(t, p);
      }
    }
  }

  /** Every level picked out by `AtPrice` comes from `s` and has that price. */
  lemma {:induction false} AtPriceMembers(s: seq<Level>, p: real)
    ensures forall l :: l in AtPrice(s, p) ==> l in s && l.price == p
  {
    if s != [] {
      AtPriceMembers(s[1..], p);
    }
  }

  /** A level's multiplicity in `s` is its multiplicity among the levels at its own price. */
  lemma {:induction false} CountAtOwnPrice(s: seq<Level>, x: Level)
    ensures multiset(s)[x] == multiset(AtPrice(s, x.price))[x]
  {
    if s != [] {
      CountAtOwnPrice(s[1..], x);
      assert s == [s[0]] + s[1..];
    }
  }

  /** Same levels at every price means same multiset: a stable sort is a permutation. */
  lemma StableSortIsPermutation(r: seq<Level>, s: seq<Level>, descending: bool)
    requires StableSortOf(r, s, descending)
    ensures multiset(r) == multiset(s)
    ensures |r| == |s|
  {
    forall x ensures multiset(r)[x] == multiset(s)[x] {
      CountAtOwnPrice(r, x);
      CountAtOwnPrice(s, x);
    }
    assert multiset(r) == multiset(s);
    assert |multiset(r)| == |multiset(s)|;
  }

  lemma HeadAtOwnPrice(s: seq<Level>)
    ensures s != [] ==> AtPrice(s, s[0].price) != []
  {
  }

  /** Two sorted sequences with the same levels at every price are equal: the
      outcome of a stable sort does not depend on the sorting algorithm. */
  lemma {:induction false} SortedWithSameClassesAreEqual(x: seq<Level>, y: seq<Level>, descending: bool)
    requires SortedByPrice(x, descending) && SortedByPrice(y, descending)
    requires forall p :: AtPrice(x, p) == AtPrice(y, p)
    ensures x == y
    decreases |x|
  {
    if x == [] || y == [] {
      if x != [] {
        HeadAtOwnPrice(x);
        assert false;
      } else if y != [] {
        HeadAtOwnPrice(y);
        assert false;
      }
    } else {
      var k, m := x[0].price, y[0].price;
      AtPriceMembers(x, m);
      AtPriceMembers(y, k);
      assert AtPrice(y, k) != [] && AtPrice(x, m) != [];
      assert AtPrice(y, k)[0] in y;
      assert AtPrice(x, m)[0] in x;
      assert k == m;
      forall p ensures AtPrice(x[1..], p) == AtPrice(y[1..], p) {
        if p == k {
          assert AtPrice(x, p)[1..] == AtPrice(x[1..], p);
          assert AtPrice(y, p)[1..] == AtPrice(y[1..], p);
        } else {
          assert AtPrice(x, p) == AtPrice(x[1..], p);
          assert AtPrice(y, p) == AtPrice(y[1..], p);
        }
      }
      assert x[0] == y[0] by {
        assert AtPrice(x, k)[0] == x[0];
        assert AtPrice(y, k)[0] == y[0];
      }
      SortedWithSameClassesAreEqual(x[1..], y[1..], descending);
      assert x == [x[0]] + x[1..] && y == [y[0]] + y[1..];
    }
  }

  /** Stable sorting is deterministic: any two stable sorts of `s` coincide. */
  lemma StableSortUnique(r1: seq<Level>, r2: seq<Level>, s: seq<Level>, descending: bool)
    requires StableSortOf(r1, s, descending) && StableSortOf(r2, s, descending)
    ensures r1 == r2
  {
    SortedWithSameClassesAreEqual(r1, r2, descending);
  }

  /** Inserts `x` after every level that does not come after it in price priority. */
  function Insert(x: Level, s: seq<Level>, descending: bool): seq<Level>
  {
    if s == [] then [x]
    else if Key(x, descending) < Key(s[0], descending) then [x] + s
    else [s[0]] + Insert(x, s[1..], descending)
  }

  /** Stable insertion sort by price: a reference definition of what `list.sort`
      computes. */
  function SortByPrice(s: seq<Level>, descending: bool): seq<Level>
  {
    if s == [] then [] else Insert(s[|s| - 1], SortByPrice(s[..|s| - 1], descending), descending)
  }

  lemma {:induction false} NoneAtPrice(s: seq<Level>, p: real)
    requires forall i :: 0 <= i < |s| ==> s[i].price != p
    ensures AtPrice(s, p) == []
  {
    if s != [] {
      NoneAtPrice(s[1..], p);
    }
  }

  /** Inserting adds exactly `x`. */
  lemma {:induction false} InsertAddsOne(x: Level, s: seq<Level>, descending: bool)
    ensures multiset(Insert(x, s, descending)) == multiset(s) + multiset{x}
  {
    if s != [] && Key(x, descending) >= Key(s[0], descending) {
      InsertAddsOne(x, s[1..], descending);
      assert s == [s[0]] + s[1..];
    }
  }

  lemma SortedTail(s: seq<Level>, descending: bool)
    requires s != [] && SortedByPrice(s, descending)
    ensures SortedByPrice(s[1..], descending)
    ensures forall i :: 0 <= i < |s| ==> Key(s[0], descending) <= Key(s[i], descending)
    ensures forall l :: l in s ==> Key(s[0], descending) <= Key(l, descending)
  {
    forall i, j | 0 <= i < j < |s| - 1 ensures Key(s[1..][i], descending) <= Key(s[1..][j], descending) {
      assert s[1..][i] == s[i + 1] && s[1..][j] == s[j + 1];
    }
  }

  lemma ConsSorted(head: Level, rest: seq<Level>, descending: bool)
    requires SortedByPrice(rest, descending)
    requires forall l :: l in multiset(rest) ==> Key(head, descending) <= Key(l, descending)
    ensures SortedByPrice([head] + rest, descending)
  {
    var r := [head] + rest;
    forall i, j | 0 <= i < j < |r| ensures Key(r[i], descending) <= Key(r[j], descending) {
      assert r[j] == rest[j - 1];
      if i == 0 {
        assert rest[j - 1] in multiset(rest);
      } else {
        assert r[i] == rest[i - 1];
      }
    }
  }

  /** Inserting into a sorted sequence keeps it sorted. */
  lemma {:induction false} InsertSorted(x: Level, s: seq<Level>, descending: bool)
    requires SortedByPrice(s, descending)
    ensures SortedByPrice(Insert(x, s, descending), descending)
  {
    if s != [] && Key(x, descending) >= Key(s[0], descending) {
      var rest := Insert(x, s[1..], descending);
      SortedTail(s, descending);
      InsertSorted(x, s[1..], descending);
      InsertAddsOne(x, s[1..], descending);
      forall l | l in multiset(rest) ensures Key(s[0], descending) <= Key(l, descending) {
        assert l in multiset(s[1..]) || l == x;
        if l != x {
          assert l in s[1..];
          assert l in s;
        }
      }
      ConsSorted(s[0], rest, descending);
    } else if s != [] {
      ConsSorted(x, s, descending);
    }
  }

  /** `x` goes in front of a sorted `s` whose first level comes strictly after
      it, so no level of `s` shares its price. */
  lemma InsertInFront(x: Level, s: seq<Level>, descending: bool, p: real)
    requires SortedByPrice(s, descending)
    requires s != [] && Key(x, descending) < Key(s[0], descending)
    ensures AtPrice(Insert(x, s, descending), p) == AtPrice(s, p) + AtPrice([x], p)
  {
    SortedTail(s, descending);
    NoneAtPrice(s, x.price);
    var own := if x.price == p then [x] else [];
    assert AtPrice([x], p) == own + AtPrice([], p);
    assert Insert(x, s, descending) == [x] + s;
    assert AtPrice([x] + s, p) == own + AtPrice(s, p) by {
      assert ([x] + s)[1..] == s;
    }
  }

  /** Inserting into a sorted sequence appends `x` to the levels at its price. */
  lemma {:induction false} InsertAppendsAtPrice(x: Level, s: seq<Level>, descending: bool, p: real)
    requires SortedByPrice(s, descending)
    ensures AtPrice(Insert(x, s, descending), p) == AtPrice(s, p) + AtPrice([x], p)
  {
    if s == [] {
      assert AtPrice([x], p) == (if x.price == p then [x] else []) + AtPrice([], p);
    } else if Key(x, descending) < Key(s[0], descending) {
      InsertInFront(x, s, descending, p);
    } else {
      var rest := Insert(x, s[1..], descending);
      SortedTail(s, descending);
      InsertAppendsAtPrice(x, s[1..], descending, p);
      var head := if s[0].price == p then [s[0]] else [];
      assert Insert(x, s, descending) == [s[0]] + rest;
      assert AtPrice([s[0]] + rest, p) == head + AtPrice(rest, p) by {
        assert ([s[0]] + rest)[1..] == rest;
      }
      assert AtPrice(s, p) == head + AtPrice(s[1..], p);
    }
  }

  /** The reference sort is a stable sort. */
  lemma {:induction false} SortByPriceIsStableSort(s: seq<Level>, descending: bool)
    ensures StableSortOf(SortByPrice(s, descending), s, descending)
    ensures multiset(SortByPrice(s, descending)) == multiset(s)
  {
    if s != [] {
      var init, last := s[..|s| - 1], s[|s| - 1];
      SortByPriceIsStableSort(init, descending);
      var sortedInit := SortByPrice(init, descending);
      InsertSorted(last, sortedInit, descending);
      InsertAddsOne(last, sortedInit, descending);
      assert s == init + [last];
      forall p ensures AtPrice(SortByPrice(s, descending), p) == AtPrice(s, p) {
        InsertAppendsAtPrice(last, sortedInit, descending, p);
        AtPriceConcat(init, [last], p);
      }
    }
  }

  /** Sorting an already sorted book changes nothing. */
  lemma SortIdempotent(s: seq<Level>, descending: bool)
    ensures SortByPrice(SortByPrice(s, descending), descending) == SortByPrice(s, descending)
  {
    var r := SortByPrice(s, descending);
    SortByPriceIsStableSort(s, descending);
    SortByPriceIsStableSort(r, descending);
    StableSortUnique(SortByPrice(r, descending), r, r, descending);
  }

  /** Ties in the aggregated book: at every price the Gemini levels come first,
      then the Coinbase levels, each in its exchange's order; and no level is
      lost or added. */
  lemma GeminiBeforeCoinbase(gemini: seq<Level>, coinbase: seq<Level>, descending: bool, p: real)
    ensures AtPrice(SortByPrice(gemini + coinbase, descending), p) == AtPrice(gemini, p) + AtPrice(coinbase, p)
    ensures multiset(SortByPrice(gemini + coinbase, descending)) == multiset(gemini) + multiset(coinbase)
    ensures |SortByPrice(gemini + coinbase, descending)| == |gemini| + |coinbase|
  {
    SortByPriceIsStableSort(gemini + coinbase, descending);
    AtPriceConcat(gemini, coinbase, p);
    StableSortIsPermutation(SortByPrice(gemini + coinbase, descending), gemini + coinbase, descending);
  }

  /** Exchanges two neighbours `s[j - 1]` and `s[j]`. */
  function SwapDown(s: seq<Level>, j: nat): seq<Level>
    requires 0 < j < |s|
  {
    s[j - 1 := s[j]][j := s[j - 1]]
  }

  /** Two levels at different prices contribute the same to `AtPrice` in either order. */
  lemma PairAtPrice(x: Level, y: Level, p: real)
    requires x.price != y.price
    ensures AtPrice([x, y], p) == AtPrice([y, x], p)
  {
    assert [x, y][1..] == [y] && [y, x][1..] == [x];
    assert AtPrice([x], p) == (if x.price == p then [x] else []) + AtPrice([], p);
    assert AtPrice([y], p) == (if y.price == p then [y] else []) + AtPrice([], p);
  }

  /** Exchanging two neighbours at different prices keeps the levels at price
      `p` in order. */
  lemma SwapKeepsClass(s: seq<Level>, j: nat, p: real)
    requires 0 < j < |s| && s[j - 1].price != s[j].price
    ensures AtPrice(SwapDown(s, j), p) == AtPrice(s, p)
  {
    var front, back := s[..j - 1], s[j + 1..];
    var xy, yx := [s[j - 1], s[j]], [s[j], s[j - 1]];
    assert s == front + xy + back;
    assert SwapDown(s, j) == front + yx + back;
    AtPriceConcat(front + xy, back, p);
    AtPriceConcat(front, xy, p);
    AtPriceConcat(front + yx, back, p);
    AtPriceConcat(front, yx, p);
    PairAtPrice(s[j - 1], s[j], p);
  }

  /** Exchanging two neighbours at different prices keeps the levels at each price in order. */
  lemma SwapKeepsClasses(s: seq<Level>, j: nat)
    requires 0 < j < |s| && s[j - 1].price != s[j].price
    ensures forall p :: AtPrice(SwapDown(s, j), p) == AtPrice(s, p)
  {
    forall p ensures AtPrice(SwapDown(s, j), p) == AtPrice(s, p) {
      SwapKeepsClass(s, j, p);
    }
  }

  /** Moves `a[i]` down past the levels before it that come strictly after it in
      price priority, so that the sorted prefix `a[..i]` grows to `a[..i + 1]`. */
  method InsertDown(a: array<Level>, i: nat, descending: bool)
    requires i < a.Length
    requires forall k, l :: 0 <= k < l < i ==> Key(a[k], descending) <= Key(a[l], descending)
    modifies a
    ensures forall k, l :: 0 <= k < l <= i ==> Key(a[k], descending) <= Key(a[l], descending)
    ensures forall p :: AtPrice(a[..], p) == AtPrice(old(a[..]), p)
  {
    var j := i;
    while 0 < j && Key(a[j], descending) < Key(a[j - 1], descending)
      invariant 0 <= j <= i
      invariant forall k, l :: 0 <= k < l <= i && k != j && l != j ==> Key(a[k], descending) <= Key(a[l], descending)
      invariant forall l :: j < l <= i ==> Key(a[j], descending) < Key(a[l], descending)
      invariant forall p :: AtPrice(a[..], p) == AtPrice(old(a[..]), p)
    {
      ghost var before := a[..];
      SwapKeepsClasses(before, j);
      a[j - 1], a[j] := a[j], a[j - 1];
      assert a[..] == SwapDown(before, j);
      j := j - 1;
    }
  }

  /** `list.sort(key=price, reverse=descending)` on `a`, as a stable insertion sort. */
  method SortInPlace(a: array<Level>, descending: bool)
    modifies a
    ensures a[..] == SortByPrice(old(a[..]), descending)
  {
    ghost var original := a[..];
    for i := 0 to a.Length
      invariant forall k, l :: 0 <= k < l < i ==> Key(a[k], descending) <= Key(a[l], descending)
      invariant forall p :: AtPrice(a[..], p) == AtPrice(original, p)
    {
      InsertDown(a, i, descending);
    }
    SortByPriceIsStableSort(original, descending);
    StableSortUnique(a[..], SortByPrice(original, descending), original, descending);
  }

  /** Lines 132-136 of the aggregator: concatenate Gemini's and Coinbase's lists
      and sort the bids best-first (highest price) and the asks best-first
      (lowest price). */
  method Aggregate(gemini: Book, coinbase: Book) returns (bids: array<Level>, asks: array<Level>)
    ensures fresh(bids) && fresh(asks)
    ensures bids[..] == SortByPrice(gemini.bids + coinbase.bids, true)
    ensures asks[..] == SortByPrice(gemini.asks + coinbase.asks, false)
  {
    var combinedBids := gemini.bids + coinbase.bids;
    var combinedAsks := gemini.asks + coinbase.asks;
    bids := new Level[|combinedBids|](i requires 0 <= i < |combinedBids| => combinedBids[i]);
    asks := new Level[|combinedAsks|](i requires 0 <= i < |combinedAsks| => combinedAsks[i]);
    assert bids[..] == combinedBids;
    assert asks[..] == combinedAsks;
    SortInPlace(bids, true);
    SortInPlace(asks, false);
  }
}
