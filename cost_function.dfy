/** The fitness of a pair of moving-average windows over a price series: the profit
    of trading on the crossings of the short and the long simple moving average.
    Prices are exact reals. */
module CostFunction {

  /** Sum of a series, accumulated left to right. */
  function Sum(s: seq<real>): real {
    if s == [] then 0.0 else Sum(s[..|s| - 1]) + s[|s| - 1]
  }

  /** Summing distributes over concatenation. */
  lemma {:induction false} SumAppend(a: seq<real>, b: seq<real>)
    ensures Sum(a + b) == Sum(a) + Sum(b)
  {
    if b == [] {
      assert a + b == a;
    } else {
      var c := b[..|b| - 1];
      assert (a + b)[..|a + b| - 1] == a + c;
      SumAppend(a, c);
    }
  }

  /** Arithmetic mean of a non-empty series. */
  function Mean(s: seq<real>): real
    requires s != []
  {
    Sum(s) / (|s| as real)
  }

  // ---------------------------------------------------------------------------
  // Moving averages
  // ---------------------------------------------------------------------------

  /** `rolling(window=length).mean().iloc[length - 1:]`: the mean of every full window,
      the `k`-th one starting at position `k`. */
  function RollingMeans(length: nat, records: seq<real>): (means: seq<real>)
    requires 1 <= length <= |records| + 1
    ensures |means| == |records| - length + 1
  {
    seq(|records| - length + 1, k requires 0 <= k <= |records| - length => Mean(records[k..k + length]))
  }

  /** `calculate_moving_average`: the rolling means, preceded by `length - 1` zeros where
      the window is not yet full. A window one longer than the series has no full
      position, so its average is all zeros. */
  function MovingAverage(length: nat, records: seq<real>): (ma: seq<real>)
    requires 1 <= length <= |records| + 1
    ensures |ma| == |records|
  {
    seq(length - 1, _ => 0.0) + RollingMeans(length, records)
  }

  /** The moving average has one value per price: zero until the window is full, then
      the mean of the `length` prices ending at that position. */
  lemma MovingAverageShape(length: nat, records: seq<real>)
    requires 1 <= length <= |records| + 1
    ensures |MovingAverage(length, records)| == |records|
    ensures forall i :: 0 <= i < length - 1 ==> MovingAverage(length, records)[i] == 0.0
    ensures forall i :: length - 1 <= i < |records| ==>
      MovingAverage(length, records)[i] == Mean(records[i - length + 1..i + 1])
  {
    var ma := MovingAverage(length, records);
    forall i | length - 1 <= i < |records|
      ensures ma[i] == Mean(records[i - length + 1..i + 1])
    {
      assert ma[i] == RollingMeans(length, records)[i - (length - 1)];
    }
  }

  /** A window one longer than the series never fills: its average is all zeros. */
  lemma WindowPastTheEnd(records: seq<real>)
    ensures MovingAverage(|records| + 1, records) == seq(|records|, i => 0.0)
  {
    MovingAverageShape(|records| + 1, records);
  }

  /** An independent formulation of the same average: the running total up to a position
      less the running total before its window, divided by the window length. */
  lemma MovingAverageByRunningTotals(length: nat, records: seq<real>, i: nat)
    requires 1 <= length <= |records| && length - 1 <= i < |records|
    ensures MovingAverage(length, records)[i] ==
      (Sum(records[..i + 1]) - Sum(records[..i + 1 - length])) / (length as real)
  {
    MovingAverageShape(length, records);
    var start := i + 1 - length;
    assert records[..i + 1] == records[..start] + records[start..i + 1];
    SumAppend(records[..start], records[start..i + 1]);
  }

  // ---------------------------------------------------------------------------
  // Crossings
  // ---------------------------------------------------------------------------

  /** `np.sign` of a real. */
  function Sign(x: real): (s: int)
    ensures -1 <= s <= 1 && (s == 0 <==> x == 0.0) && (s == 1 <==> x > 0.0)
  {
    if x > 0.0 then 1 else if x < 0.0 then -1 else 0
  }

  /** `np.sign` of an integer. */
  function IntSign(x: int): (s: int)
    ensures -1 <= s <= 1 && (s == 0 <==> x == 0) && (s == 1 <==> x > 0)
  {
    if x > 0 then 1 else if x < 0 then -1 else 0
  }

  /** `np.sign(mean_short - mean_long)`: 1 where the short average is above the long one,
      -1 where it is below, 0 where they agree. */
  function Trend(short: seq<real>, long: seq<real>): (trend: seq<int>)
    requires |short| == |long|
    ensures |trend| == |short|
    ensures forall i :: 0 <= i < |trend| ==>
      (trend[i] == 1 <==> short[i] > long[i]) && (trend[i] == -1 <==> short[i] < long[i]) &&
      (trend[i] == 0 <==> short[i] == long[i])
  {
    seq(|short|, i requires 0 <= i < |short| => Sign(short[i] - long[i]))
  }

  /** `np.insert(np.sign(sign[:-1] - sign[1:]), 0, 0)`: no signal at the first position;
      at every later position `i` the sign of `trend[i - 1] - trend[i]`, that is -1 (buy)
      where the trend rises, 1 (sell) where it falls, 0 where it stays. */
  function Signals(trend: seq<int>): (signals: seq<int>)
    ensures |signals| == if trend == [] then 1 else |trend|
    ensures signals[0] == 0
  {
    var n := if trend == [] then 1 else |trend|;
    seq(n, i requires 0 <= i < n => if i == 0 then 0 else IntSign(trend[i - 1] - trend[i]))
  }

  /** A buy (-1) is signalled exactly where the trend rises, a sell (1) exactly where it
      falls, and nothing where it stays. */
  lemma SignalsMarkCrossings(trend: seq<int>, i: nat)
    requires 1 <= i < |trend|
    ensures Signals(trend)[i] == -1 <==> trend[i - 1] < trend[i]
    ensures Signals(trend)[i] == 1 <==> trend[i - 1] > trend[i]
    ensures Signals(trend)[i] == 0 <==> trend[i - 1] == trend[i]
  {
    assert Signals(trend)[i] == IntSign(trend[i - 1] - trend[i]);
  }

  /** `np.where(signals == -1, -signals, 0) * records`: the price at every buy, zero elsewhere. */
  function BuyMask(signals: seq<int>, records: seq<real>): (prices: seq<real>)
    requires |signals| == |records|
    ensures |prices| == |records|
    ensures forall i :: 0 <= i < |records| ==> prices[i] == if signals[i] == -1 then records[i] else 0.0
  {
    seq(|records|, i requires 0 <= i < |records| => (if signals[i] == -1 then -signals[i] else 0) as real * records[i])
  }

  /** `np.where(signals == 1, signals, 0) * records`: the price at every sell, zero elsewhere. */
  function SellMask(signals: seq<int>, records: seq<real>): (prices: seq<real>)
    requires |signals| == |records|
    ensures |prices| == |records|
    ensures forall i :: 0 <= i < |records| ==> prices[i] == if signals[i] == 1 then records[i] else 0.0
  {
    seq(|records|, i requires 0 <= i < |records| => (if signals[i] == 1 then signals[i] else 0) as real * records[i])
  }

  /** `prices[prices != 0]`: the non-zero prices, in order. */
  function NonZero(prices: seq<real>): (kept: seq<real>)
    ensures |kept| <= |prices|
    ensures forall i :: 0 <= i < |kept| ==> kept[i] != 0.0
  {
    if prices == [] then []
    else
      var last := prices[|prices| - 1];
      NonZero(prices[..|prices| - 1]) + if last != 0.0 then [last] else []
  }

  /** A price is kept exactly when it occurs and is not zero. */
  lemma {:induction false} NonZeroMembers(prices: seq<real>, x: real)
    ensures x in NonZero(prices) <==> x in prices && x != 0.0
  {
    if prices != [] {
      var prefix := prices[..|prices| - 1];
      assert prices == prefix + [prices[|prices| - 1]];
      NonZeroMembers(prefix, x);
    }
  }

  /** The prices at the positions whose signal is `v`, in chronological order. */
  function SignalPrices(signals: seq<int>, records: seq<real>, v: int): (prices: seq<real>)
    requires |signals| == |records|
    ensures |prices| <= |records|
  {
    if records == [] then []
    else
      var n := |records| - 1;
      SignalPrices(signals[..n], records[..n], v) + if signals[n] == v then [records[n]] else []
  }

  /** The masked-and-filtered buy prices are the prices at the buy signals, in order,
      with the zero prices dropped. */
  lemma {:induction false} BuyPricesAreSignalPrices(signals: seq<int>, records: seq<real>)
    requires |signals| == |records|
    ensures NonZero(BuyMask(signals, records)) == NonZero(SignalPrices(signals, records, -1))
  {
    if records != [] {
      var n := |records| - 1;
      var masked := BuyMask(signals, records);
      var prefix := BuyMask(signals[..n], records[..n]);
      var earlier := SignalPrices(signals[..n], records[..n], -1);
      var tail := if signals[n] == -1 then [records[n]] else [];
      var kept := if masked[n] != 0.0 then [masked[n]] else [];
      assert masked[..n] == prefix by {
        forall k | 0 <= k < n
          ensures masked[k] == prefix[k]
        {
          assert signals[..n][k] == signals[k] && records[..n][k] == records[k];
        }
      }
      assert NonZero(masked) == NonZero(prefix) + kept;
      assert masked[n] == if signals[n] == -1 then records[n] else 0.0;
      BuyPricesAreSignalPrices(signals[..n], records[..n]);
      assert SignalPrices(signals, records, -1) == earlier + tail;
      NonZeroAppend(earlier, tail);
      assert NonZero(tail) == kept by {
        if signals[n] == -1 {
          assert tail[..0] == [];
        }
      }
    }
  }

  /** The masked-and-filtered sell prices are the prices at the sell signals, in order,
      with the zero prices dropped. */
  lemma {:induction false} SellPricesAreSignalPrices(signals: seq<int>, records: seq<real>)
    requires |signals| == |records|
    ensures NonZero(SellMask(signals, records)) == NonZero(SignalPrices(signals, records, 1))
  {
    if records != [] {
      var n := |records| - 1;
      var masked := SellMask(signals, records);
      var prefix := SellMask(signals[..n], records[..n]);
      var earlier := SignalPrices(signals[..n], records[..n], 1);
      var tail := if signals[n] == 1 then [records[n]] else [];
      var kept := if masked[n] != 0.0 then [masked[n]] else [];
      assert masked[..n] == prefix by {
        forall k | 0 <= k < n
          ensures masked[k] == prefix[k]
        {
          assert signals[..n][k] == signals[k] && records[..n][k] == records[k];
        }
      }
      assert NonZero(masked) == NonZero(prefix) + kept;
      assert masked[n] == if signals[n] == 1 then records[n] else 0.0;
      SellPricesAreSignalPrices(signals[..n], records[..n]);
      assert SignalPrices(signals, records, 1) == earlier + tail;
      NonZeroAppend(earlier, tail);
      assert NonZero(tail) == kept by {
        if signals[n] == 1 {
          assert tail[..0] == [];
        }
      }
    }
  }

  /** Filtering distributes over concatenation. */
  lemma {:induction false} NonZeroAppend(a: seq<real>, b: seq<real>)
    ensures NonZero(a + b) == NonZero(a) + NonZero(b)
  {
    if b == [] {
      assert a + b == a;
    } else {
      var c := b[..|b| - 1];
      assert (a + b)[..|a + b| - 1] == a + c;
      NonZeroAppend(a, c);
    }
  }

  // ---------------------------------------------------------------------------
  // Profit
  // ---------------------------------------------------------------------------

  /** `list(zip(buy_prices, sell_prices))`: the k-th buy with the k-th sell; surplus
      signals of either kind are dropped. */
  function Zip(buys: seq<real>, sells: seq<real>): (pairs: seq<(real, real)>)
    ensures |pairs| == if |buys| < |sells| then |buys| else |sells|
  {
    var m := if |buys| < |sells| then |buys| else |sells|;
    seq(m, k requires 0 <= k < m => (buys[k], sells[k]))
  }

  /** `pairs[1:]`. */
  function DropFirst(pairs: seq<(real, real)>): (rest: seq<(real, real)>)
    ensures |rest| == if pairs == [] then 0 else |pairs| - 1
  {
    if pairs == [] then [] else pairs[1..]
  }

  /** The gain of the trades: the sell price less the buy price, summed over the pairs. */
  function Profit(pairs: seq<(real, real)>): real {
    if pairs == [] then 0.0 else Profit(pairs[..|pairs| - 1]) + (pairs[|pairs| - 1].1 - pairs[|pairs| - 1].0)
  }

  /** The buy and sell prices of `cost_function`. On an empty series the signal array
      still holds its leading 0, and numpy broadcasts that one element against the empty
      price array, which leaves no prices. */
  function BuyPrices(lengthShort: nat, lengthLong: nat, records: seq<real>): seq<real>
    requires 1 <= lengthShort <= |records| + 1 && 1 <= lengthLong <= |records| + 1
  {
    if records == [] then []
    else
      var signals := Signals(Trend(MovingAverage(lengthShort, records), MovingAverage(lengthLong, records)));
      NonZero(BuyMask(signals, records))
  }

  function SellPrices(lengthShort: nat, lengthLong: nat, records: seq<real>): seq<real>
    requires 1 <= lengthShort <= |records| + 1 && 1 <= lengthLong <= |records| + 1
  {
    if records == [] then []
    else
      var signals := Signals(Trend(MovingAverage(lengthShort, records), MovingAverage(lengthLong, records)));
      NonZero(SellMask(signals, records))
  }

  /** `cost_function` as a value: the profit of every pair but the first. */
  function Fitness(lengthShort: nat, lengthLong: nat, records: seq<real>): real
    requires 1 <= lengthShort <= |records| + 1 && 1 <= lengthLong <= |records| + 1
  {
    Profit(DropFirst(Zip(BuyPrices(lengthShort, lengthLong, records), SellPrices(lengthShort, lengthLong, records))))
  }

  /** The accumulating loop of `cost_function` over the pairs it keeps. */
  method AddUpProfit(rest: seq<(real, real)>) returns (total: real)
    ensures total == Profit(rest)
  {
    total := 0.0;
    for k := 0 to |rest|
      invariant total == Profit(rest[..k])
    {
      assert rest[..k + 1][..k] == rest[..k];
      total := total + (rest[k].1 - rest[k].0);
    }
    assert rest[..|rest|] == rest;
  }

  /** `cost_function`: the signals, the prices, the pairs, and the accumulating loop. */
  method Cost(lengthShort: nat, lengthLong: nat, records: seq<real>) returns (total: real)
    requires 1 <= lengthShort <= |records| + 1 && 1 <= lengthLong <= |records| + 1
    ensures total == Fitness(lengthShort, lengthLong, records)
  {
    var meanShort := MovingAverage(lengthShort, records);
    var meanLong := MovingAverage(lengthLong, records);
    var signals := Signals(Trend(meanShort, meanLong));
    var buys: seq<real> := [];
    var sells: seq<real> := [];
    if records != [] {
      buys := NonZero(BuyMask(signals, records));
      sells := NonZero(SellMask(signals, records));
    }
    total := AddUpProfit(DropFirst(Zip(buys, sells)));
  }

  /** The fitness is the later sells less the later buys: Σ (sell[k] − buy[k]) over
      1 ≤ k < min(|buys|, |sells|), the first pair and the surplus signals ignored. */
  lemma {:induction false} ProfitIsSellsMinusBuys(buys: seq<real>, sells: seq<real>, m: nat)
    requires 1 <= m <= |buys| && m <= |sells|
    ensures Profit(DropFirst(Zip(buys[..m], sells[..m]))) == Sum(sells[1..m]) - Sum(buys[1..m])
  {
    var rest := DropFirst(Zip(buys[..m], sells[..m]));
    if m > 1 {
      ProfitIsSellsMinusBuys(buys, sells, m - 1);
      var shorter := DropFirst(Zip(buys[..m - 1], sells[..m - 1]));
      assert rest[..|rest| - 1] == shorter;
      assert rest[|rest| - 1] == (buys[m - 1], sells[m - 1]);
      assert sells[1..m] == sells[1..m - 1] + [sells[m - 1]];
      assert buys[1..m] == buys[1..m - 1] + [buys[m - 1]];
    } else {
      assert rest == [];
      assert sells[1..m] == [] && buys[1..m] == [];
    }
  }

  /** Pairing only looks at the first `min(|buys|, |sells|)` prices of each side. */
  lemma ZipTruncates(buys: seq<real>, sells: seq<real>)
    ensures var m := if |buys| < |sells| then |buys| else |sells|;
      Zip(buys, sells) == Zip(buys[..m], sells[..m])
  {
  }

  /** With fewer than two buys or fewer than two sells there is at most one pair, and
      nothing is left to trade once the first pair is dropped. */
  lemma FewerThanTwoPairs(buys: seq<real>, sells: seq<real>)
    requires |buys| < 2 || |sells| < 2
    ensures Profit(DropFirst(Zip(buys, sells))) == 0.0
  {
    assert DropFirst(Zip(buys, sells)) == [];
  }

  /** The fitness of a pair of windows is the later sells less the later buys, over the
      first `min(|buys|, |sells|)` signals; with no pair at all it is zero. */
  lemma FitnessIsSellsMinusBuys(lengthShort: nat, lengthLong: nat, records: seq<real>)
    requires 1 <= lengthShort <= |records| + 1 && 1 <= lengthLong <= |records| + 1
    ensures var buys := BuyPrices(lengthShort, lengthLong, records);
      var sells := SellPrices(lengthShort, lengthLong, records);
      var m := if |buys| < |sells| then |buys| else |sells|;
      Fitness(lengthShort, lengthLong, records)
        == if m == 0 then 0.0 else Sum(sells[1..m]) - Sum(buys[1..m])
  {
    var buys := BuyPrices(lengthShort, lengthLong, records);
    var sells := SellPrices(lengthShort, lengthLong, records);
    PairsOfPrices(buys, sells);
  }

  /** `FitnessIsSellsMinusBuys` stated over the two price lists alone. */
  lemma PairsOfPrices(buys: seq<real>, sells: seq<real>)
    ensures var m := if |buys| < |sells| then |buys| else |sells|;
      Profit(DropFirst(Zip(buys, sells)))
        == if m == 0 then 0.0 else Sum(sells[1..m]) - Sum(buys[1..m])
  {
    var m := if |buys| < |sells| then |buys| else |sells|;
    ZipTruncates(buys, sells);
    if m == 0 {
      FewerThanTwoPairs(buys, sells);
    } else {
      ProfitIsSellsMinusBuys(buys, sells, m);
      assert sells[..m][1..m] == sells[1..m] && buys[..m][1..m] == buys[1..m];
    }
  }

  /** A flat trend carries no signal at all. */
  lemma {:induction false} FlatTrendNoSignalPrices(signals: seq<int>, records: seq<real>, v: int)
    requires |signals| == |records| && v != 0
    requires forall i :: 0 <= i < |signals| ==> signals[i] == 0
    ensures SignalPrices(signals, records, v) == []
  {
    if records != [] {
      var n := |records| - 1;
      FlatTrendNoSignalPrices(signals[..n], records[..n], v);
    }
  }

  /** Equal windows give the same average twice, so the trend is flat, no signal fires
      and the fitness is zero. */
  lemma EqualWindows(length: nat, records: seq<real>)
    requires 1 <= length <= |records| + 1
    ensures BuyPrices(length, length, records) == [] && SellPrices(length, length, records) == []
    ensures Fitness(length, length, records) == 0.0
  {
    if records != [] {
      var ma := MovingAverage(length, records);
      var signals := Signals(Trend(ma, ma));
      assert forall i :: 0 <= i < |signals| ==> signals[i] == 0;
      FlatTrendNoSignalPrices(signals, records, -1);
      FlatTrendNoSignalPrices(signals, records, 1);
      BuyPricesAreSignalPrices(signals, records);
      SellPricesAreSignalPrices(signals, records);
    }
    assert NonZero([]) == [];
  }

  // ---------------------------------------------------------------------------
  // Worked example
  // ---------------------------------------------------------------------------

  /** The series of the worked example: a rise, a fall and a second rise. */
  ghost predicate IsExample(records: seq<real>) {
    |records| == 15 &&
    records[0] == 1.0 && records[1] == 1.0 && records[2] == 1.0 && records[3] == 2.0 && records[4] == 2.0 && records[5] == 2.0 && records[6] == 2.0 && records[7] == 1.0 && records[8] == 1.0 && records[9] == 1.0 && records[10] == 1.0 && records[11] == 3.0 && records[12] == 3.0 && records[13] == 3.0 && records[14] == 3.0
  }

  lemma SumOfOne(x: real)
    ensures Sum([x]) == x
  {
    assert [x][..0] == [];
  }

  lemma SumOfTwo(s: seq<real>)
    requires |s| == 2
    ensures Sum(s) == s[0] + s[1]
  {
    assert s == [s[0]] + [s[1]];
    SumAppend([s[0]], [s[1]]);
    SumOfOne(s[0]);
    SumOfOne(s[1]);
  }

  lemma SumOfFour(s: seq<real>)
    requires |s| == 4
    ensures Sum(s) == s[0] + s[1] + s[2] + s[3]
  {
    assert s == s[..2] + s[2..];
    SumAppend(s[..2], s[2..]);
    SumOfTwo(s[..2]);
    SumOfTwo(s[2..]);
  }

  /** The two-price average at position `i`. */
  lemma PairAverage(records: seq<real>, i: nat)
    requires 1 <= i < |records|
    ensures MovingAverage(2, records)[i] == (records[i - 1] + records[i]) / 2.0
  {
    assert MovingAverage(2, records)[i] == RollingMeans(2, records)[i - 1];
    SumOfTwo(records[i - 1..i + 1]);
  }

  /** The four-price average at position `i`. */
  lemma QuadAverage(records: seq<real>, i: nat)
    requires 3 <= i < |records|
    ensures MovingAverage(4, records)[i] == (records[i - 3] + records[i - 2] + records[i - 1] + records[i]) / 4.0
  {
    assert MovingAverage(4, records)[i] == RollingMeans(4, records)[i - 3];
    SumOfFour(records[i - 3..i + 1]);
  }

  /** Where the averages over windows 2 and 4 stand at a position past the first three. */
  lemma CrossingAt(records: seq<real>, i: nat)
    requires 3 <= i < |records|
    ensures Trend(MovingAverage(2, records), MovingAverage(4, records))[i] ==
      Sign((records[i - 1] + records[i]) / 2.0 - (records[i - 3] + records[i - 2] + records[i - 1] + records[i]) / 4.0)
  {
    PairAverage(records, i);
    QuadAverage(records, i);
  }

  /** Where the averages over windows 2 and 4 stand in the first three positions. */
  lemma EarlyCrossing(records: seq<real>, i: nat)
    requires i < 3 < |records|
    ensures Trend(MovingAverage(2, records), MovingAverage(4, records))[i] ==
      if i == 0 then 0 else Sign((records[i - 1] + records[i]) / 2.0)
  {
    MovingAverageShape(2, records);
    MovingAverageShape(4, records);
    if i > 0 {
      PairAverage(records, i);
    }
  }

  /** Dropping the zeros of one more price. */
  lemma NonZeroSnoc(prices: seq<real>, k: nat)
    requires k < |prices|
    ensures NonZero(prices[..k + 1]) == NonZero(prices[..k]) + if prices[k] != 0.0 then [prices[k]] else []
  {
    assert prices[..k + 1][..k] == prices[..k];
  }

  /** Where the short average of the example series is above, below or level with the long one. */
  lemma ExampleTrend(records: seq<real>)
    requires IsExample(records)
    ensures Trend(MovingAverage(2, records), MovingAverage(4, records)) == [0, 1, 1, 1, 1, 1, 0, -1, -1, -1, 0, 1, 1, 1, 0]
  {
    var trend := Trend(MovingAverage(2, records), MovingAverage(4, records));
    assert trend[0] == 0 by { EarlyCrossing(records, 0); }
    assert trend[1] == 1 by { EarlyCrossing(records, 1); }
    assert trend[2] == 1 by { EarlyCrossing(records, 2); }
    assert trend[3] == 1 by { CrossingAt(records, 3); }
    assert trend[4] == 1 by { CrossingAt(records, 4); }
    assert trend[5] == 1 by { CrossingAt(records, 5); }
    assert trend[6] == 0 by { CrossingAt(records, 6); }
    assert trend[7] == -1 by { CrossingAt(records, 7); }
    assert trend[8] == -1 by { CrossingAt(records, 8); }
    assert trend[9] == -1 by { CrossingAt(records, 9); }
    assert trend[10] == 0 by { CrossingAt(records, 10); }
    assert trend[11] == 1 by { CrossingAt(records, 11); }
    assert trend[12] == 1 by { CrossingAt(records, 12); }
    assert trend[13] == 1 by { CrossingAt(records, 13); }
    assert trend[14] == 0 by { CrossingAt(records, 14); }
  }

  /** The crossings marked on the trend of the example series. */
  lemma CrossingsOfExampleTrend(trend: seq<int>)
    requires trend == [0, 1, 1, 1, 1, 1, 0, -1, -1, -1, 0, 1, 1, 1, 0]
    ensures Signals(trend) == [0, -1, 0, 0, 0, 0, 1, 1, 0, 0, -1, -1, 0, 0, 1]
  {
    var signals := Signals(trend);
    assert signals[1] == -1;
    assert signals[2] == 0;
    assert signals[3] == 0;
    assert signals[4] == 0;
    assert signals[5] == 0;
    assert signals[6] == 1;
    assert signals[7] == 1;
    assert signals[8] == 0;
    assert signals[9] == 0;
    assert signals[10] == -1;
    assert signals[11] == -1;
    assert signals[12] == 0;
    assert signals[13] == 0;
    assert signals[14] == 1;
  }

  /** The crossings of the two averages of the example series. */
  lemma ExampleSignals(records: seq<real>)
    requires IsExample(records)
    ensures Signals(Trend(MovingAverage(2, records), MovingAverage(4, records))) == [0, -1, 0, 0, 0, 0, 1, 1, 0, 0, -1, -1, 0, 0, 1]
  {
    ExampleTrend(records);
    CrossingsOfExampleTrend(Trend(MovingAverage(2, records), MovingAverage(4, records)));
  }

  /** The buy prices picked out by the crossings of the example series. */
  lemma BuyMaskOfExample(signals: seq<int>, records: seq<real>)
    requires IsExample(records) && signals == [0, -1, 0, 0, 0, 0, 1, 1, 0, 0, -1, -1, 0, 0, 1]
    ensures NonZero(BuyMask(signals, records)) == [1.0, 1.0, 3.0]
  {
    var masked := BuyMask(signals, records);
    assert masked[0] == 0.0 by { assert signals[0] == 0 && records[0] == 1.0; }
    assert masked[1] == 1.0 by { assert signals[1] == -1 && records[1] == 1.0; }
    assert masked[2] == 0.0 by { assert signals[2] == 0 && records[2] == 1.0; }
    assert masked[3] == 0.0 by { assert signals[3] == 0 && records[3] == 2.0; }
    assert masked[4] == 0.0 by { assert signals[4] == 0 && records[4] == 2.0; }
    assert masked[5] == 0.0 by { assert signals[5] == 0 && records[5] == 2.0; }
    assert masked[6] == 0.0 by { assert signals[6] == 1 && records[6] == 2.0; }
    assert masked[7] == 0.0 by { assert signals[7] == 1 && records[7] == 1.0; }
    assert masked[8] == 0.0 by { assert signals[8] == 0 && records[8] == 1.0; }
    assert masked[9] == 0.0 by { assert signals[9] == 0 && records[9] == 1.0; }
    assert masked[10] == 1.0 by { assert signals[10] == -1 && records[10] == 1.0; }
    assert masked[11] == 3.0 by { assert signals[11] == -1 && records[11] == 3.0; }
    assert masked[12] == 0.0 by { assert signals[12] == 0 && records[12] == 3.0; }
    assert masked[13] == 0.0 by { assert signals[13] == 0 && records[13] == 3.0; }
    assert masked[14] == 0.0 by { assert signals[14] == 1 && records[14] == 3.0; }
    assert masked[..0] == [];
    assert NonZero(masked[..1]) == [] by { NonZeroSnoc(masked, 0); }
    assert NonZero(masked[..2]) == [1.0] by { NonZeroSnoc(masked, 1); }
    assert NonZero(masked[..3]) == [1.0] by { NonZeroSnoc(masked, 2); }
    assert NonZero(masked[..4]) == [1.0] by { NonZeroSnoc(masked, 3); }
    assert NonZero(masked[..5]) == [1.0] by { NonZeroSnoc(masked, 4); }
    assert NonZero(masked[..6]) == [1.0] by { NonZeroSnoc(masked, 5); }
    assert NonZero(masked[..7]) == [1.0] by { NonZeroSnoc(masked, 6); }
    assert NonZero(masked[..8]) == [1.0] by { NonZeroSnoc(masked, 7); }
    assert NonZero(masked[..9]) == [1.0] by { NonZeroSnoc(masked, 8); }
    assert NonZero(masked[..10]) == [1.0] by { NonZeroSnoc(masked, 9); }
    assert NonZero(masked[..11]) == [1.0, 1.0] by { NonZeroSnoc(masked, 10); }
    assert NonZero(masked[..12]) == [1.0, 1.0, 3.0] by { NonZeroSnoc(masked, 11); }
    assert NonZero(masked[..13]) == [1.0, 1.0, 3.0] by { NonZeroSnoc(masked, 12); }
    assert NonZero(masked[..14]) == [1.0, 1.0, 3.0] by { NonZeroSnoc(masked, 13); }
    assert NonZero(masked[..15]) == [1.0, 1.0, 3.0] by { NonZeroSnoc(masked, 14); }
    assert masked[..15] == masked;
  }

  /** The buy prices of the example series. */
  lemma ExampleBuys(records: seq<real>)
    requires IsExample(records)
    ensures BuyPrices(2, 4, records) == [1.0, 1.0, 3.0]
  {
    ExampleSignals(records);
    BuyMaskOfExample(Signals(Trend(MovingAverage(2, records), MovingAverage(4, records))), records);
  }

  /** The sell prices picked out by the crossings of the example series. */
  lemma SellMaskOfExample(signals: seq<int>, records: seq<real>)
    requires IsExample(records) && signals == [0, -1, 0, 0, 0, 0, 1, 1, 0, 0, -1, -1, 0, 0, 1]
    ensures NonZero(SellMask(signals, records)) == [2.0, 1.0, 3.0]
  {
    var masked := SellMask(signals, records);
    assert masked[0] == 0.0 by { assert signals[0] == 0 && records[0] == 1.0; }
    assert masked[1] == 0.0 by { assert signals[1] == -1 && records[1] == 1.0; }
    assert masked[2] == 0.0 by { assert signals[2] == 0 && records[2] == 1.0; }
    assert masked[3] == 0.0 by { assert signals[3] == 0 && records[3] == 2.0; }
    assert masked[4] == 0.0 by { assert signals[4] == 0 && records[4] == 2.0; }
    assert masked[5] == 0.0 by { assert signals[5] == 0 && records[5] == 2.0; }
    assert masked[6] == 2.0 by { assert signals[6] == 1 && records[6] == 2.0; }
    assert masked[7] == 1.0 by { assert signals[7] == 1 && records[7] == 1.0; }
    assert masked[8] == 0.0 by { assert signals[8] == 0 && records[8] == 1.0; }
    assert masked[9] == 0.0 by { assert signals[9] == 0 && records[9] == 1.0; }
    assert masked[10] == 0.0 by { assert signals[10] == -1 && records[10] == 1.0; }
    assert masked[11] == 0.0 by { assert signals[11] == -1 && records[11] == 3.0; }
    assert masked[12] == 0.0 by { assert signals[12] == 0 && records[12] == 3.0; }
    assert masked[13] == 0.0 by { assert signals[13] == 0 && records[13] == 3.0; }
    assert masked[14] == 3.0 by { assert signals[14] == 1 && records[14] == 3.0; }
    assert masked[..0] == [];
    assert NonZero(masked[..1]) == [] by { NonZeroSnoc(masked, 0); }
    assert NonZero(masked[..2]) == [] by { NonZeroSnoc(masked, 1); }
    assert NonZero(masked[..3]) == [] by { NonZeroSnoc(masked, 2); }
    assert NonZero(masked[..4]) == [] by { NonZeroSnoc(masked, 3); }
    assert NonZero(masked[..5]) == [] by { NonZeroSnoc(masked, 4); }
    assert NonZero(masked[..6]) == [] by { NonZeroSnoc(masked, 5); }
    assert NonZero(masked[..7]) == [2.0] by { NonZeroSnoc(masked, 6); }
    assert NonZero(masked[..8]) == [2.0, 1.0] by { NonZeroSnoc(masked, 7); }
    assert NonZero(masked[..9]) == [2.0, 1.0] by { NonZeroSnoc(masked, 8); }
    assert NonZero(masked[..10]) == [2.0, 1.0] by { NonZeroSnoc(masked, 9); }
    assert NonZero(masked[..11]) == [2.0, 1.0] by { NonZeroSnoc(masked, 10); }
    assert NonZero(masked[..12]) == [2.0, 1.0] by { NonZeroSnoc(masked, 11); }
    assert NonZero(masked[..13]) == [2.0, 1.0] by { NonZeroSnoc(masked, 12); }
    assert NonZero(masked[..14]) == [2.0, 1.0] by { NonZeroSnoc(masked, 13); }
    assert NonZero(masked[..15]) == [2.0, 1.0, 3.0] by { NonZeroSnoc(masked, 14); }
    assert masked[..15] == masked;
  }

  /** The sell prices of the example series. */
  lemma ExampleSells(records: seq<real>)
    requires IsExample(records)
    ensures SellPrices(2, 4, records) == [2.0, 1.0, 3.0]
  {
    ExampleSignals(records);
    SellMaskOfExample(Signals(Trend(MovingAverage(2, records), MovingAverage(4, records))), records);
  }

  /** Windows 2 and 4 over the example series: buys at 1, 1, 3, sells at 2, 1, 3, and
      after the first pair is dropped the trades break even. */
  lemma WorkedExample(records: seq<real>)
    requires IsExample(records)
    ensures BuyPrices(2, 4, records) == [1.0, 1.0, 3.0]
    ensures SellPrices(2, 4, records) == [2.0, 1.0, 3.0]
    ensures Fitness(2, 4, records) == 0.0
  {
    ExampleBuys(records);
    ExampleSells(records);
    var buys := BuyPrices(2, 4, records);
    var sells := SellPrices(2, 4, records);
    ProfitIsSellsMinusBuys(buys, sells, 3);
    assert buys[..3] == buys && sells[..3] == sells;
    SumOfTwo(buys[1..3]);
    SumOfTwo(sells[1..3]);
  }
}
