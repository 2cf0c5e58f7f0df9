/** The weighted draw of a shop item: prefix sums of the proportions of the eligible items, one random
    number, and a scan for the first prefix sum that reaches it. */
module RandomShop {
  import opened Common
  import opened Bits

  const I32: nat := 0x8000_0000

  datatype ItemInfo = ItemInfo(id: word, minLv: word, maxLv: word, proportion: word)

  /* A row of the shop item table. */
  datatype ShopItem = ShopItem(poolId: word, info: ItemInfo)

  /* A 32-bit pattern read as a signed number. */
  function ToInt32(x: word): int {
    if x < I32 then x else x - U32
  }

  // ----- The eligible items and the urn they stand for -----

  predicate Eligible(lv: word, item: ItemInfo) {
    item.minLv <= lv <= item.maxLv && item.proportion > 0
  }

  function EligibleIn(lv: word, items: seq<ItemInfo>): seq<ItemInfo> {
    if |items| == 0 then []
    else EligibleIn(lv, items[..|items| - 1]) + (if Eligible(lv, items[|items| - 1]) then [items[|items| - 1]] else [])
  }

  function PoolItems(pools: map<word, seq<ItemInfo>>, id: word): seq<ItemInfo> {
    if id in pools then pools[id] else []
  }

  /* The eligible items of the listed pools, in order. */
  function Entries(pools: map<word, seq<ItemInfo>>, lv: word, poolVec: seq<word>): seq<ItemInfo> {
    if |poolVec| == 0 then []
    else Entries(pools, lv, poolVec[..|poolVec| - 1]) + EligibleIn(lv, PoolItems(pools, poolVec[|poolVec| - 1]))
  }

  lemma {:induction false} EligibleInMeans(lv: word, items: seq<ItemInfo>, item: ItemInfo)
    ensures multiset(EligibleIn(lv, items))[item] == if Eligible(lv, item) then multiset(items)[item] else 0
  {
    if |items| == 0 {
    } else {
      var n := |items| - 1;
      EligibleInMeans(lv, items[..n], item);
      assert items == items[..n] + [items[n]];
    }
  }

  // ----- The entries, told by the listed pools -----

  /* The sum of f over the pools at all positions of the list; an unknown pool counts as empty. */
  ghost function OverPools(pools: map<word, seq<ItemInfo>>, poolVec: seq<word>, f: seq<ItemInfo> -> nat): nat {
    if |poolVec| == 0 then 0
    else (if poolVec[0] in pools then f(pools[poolVec[0]]) else 0) + OverPools(pools, poolVec[1..], f)
  }

  /* The sum of f over the items of a pool. */
  ghost function OverItems(items: seq<ItemInfo>, f: ItemInfo -> nat): nat {
    if |items| == 0 then 0 else f(items[0]) + OverItems(items[1..], f)
  }

  /** A pool is gone through in order, item by item. */
  lemma {:induction false} EligibleInOrder(lv: word, a: seq<ItemInfo>, b: seq<ItemInfo>, item: ItemInfo)
    ensures EligibleIn(lv, a + b) == EligibleIn(lv, a) + EligibleIn(lv, b)
    ensures EligibleIn(lv, [item]) == if item.minLv <= lv <= item.maxLv && item.proportion > 0 then [item] else []
    decreases |b|
  {
    assert [item][..0] == [];
    if |b| == 0 {
      assert a + b == a && EligibleIn(lv, a) + [] == EligibleIn(lv, a);
    } else {
      var n := |b| - 1;
      assert (a + b)[..|a| + n] == a + b[..n];
      EligibleInOrder(lv, a, b[..n], item);
    }
  }

  lemma {:induction false} EntriesAppend(pools: map<word, seq<ItemInfo>>, lv: word, a: seq<word>, b: seq<word>)
    ensures Entries(pools, lv, a + b) == Entries(pools, lv, a) + Entries(pools, lv, b)
    decreases |b|
  {
    hide EligibleIn;
    if |b| == 0 {
      assert a + b == a && Entries(pools, lv, a) + [] == Entries(pools, lv, a);
    } else {
      var n := |b| - 1;
      assert (a + b)[..|a| + n] == a + b[..n];
      EntriesAppend(pools, lv, a, b[..n]);
    }
  }

  lemma OnePool(pools: map<word, seq<ItemInfo>>, lv: word, id: word)
    ensures Entries(pools, lv, [id]) == EligibleIn(lv, PoolItems(pools, id))
  {
    hide EligibleIn;
    assert [id][..0] == [];
    assert [] + EligibleIn(lv, PoolItems(pools, id)) == EligibleIn(lv, PoolItems(pools, id));
  }

  /** An item is among the entries as often as the listed pools hold it, if the level lies in its range and
      its proportion is positive, and not at all otherwise. */
  lemma {:induction false} EntriesMean(pools: map<word, seq<ItemInfo>>, lv: word, poolVec: seq<word>, item: ItemInfo)
    ensures multiset(Entries(pools, lv, poolVec))[item]
            == if item.minLv <= lv <= item.maxLv && item.proportion > 0
               then OverPools(pools, poolVec, items => multiset(items)[item]) else 0
    decreases |poolVec|
  {
    hide EligibleIn;
    if |poolVec| == 0 {
    } else {
      assert [poolVec[0]] + poolVec[1..] == poolVec;
      EntriesAppend(pools, lv, [poolVec[0]], poolVec[1..]);
      OnePool(pools, lv, poolVec[0]);
      EligibleInMeans(lv, PoolItems(pools, poolVec[0]), item);
      EntriesMean(pools, lv, poolVec[1..], item);
    }
  }

  function Total(es: seq<ItemInfo>): nat {
    if |es| == 0 then 0 else Total(es[..|es| - 1]) + es[|es| - 1].proportion
  }

  /* The proportions of the entries with a given id. */
  function Weight(es: seq<ItemInfo>, id: int): nat {
    if |es| == 0 then 0
    else Weight(es[..|es| - 1], id) + (if es[|es| - 1].id == id then es[|es| - 1].proportion else 0)
  }

  function Copies(id: int, n: nat): (s: seq<int>)
    ensures |s| == n && forall i :: 0 <= i < n ==> s[i] == id
  {
    if n == 0 then [] else [id] + Copies(id, n - 1)
  }

  /* An urn with as many balls per entry as its proportion. */
  function Urn(es: seq<ItemInfo>): (u: seq<int>)
    ensures |u| == Total(es)
  {
    if |es| == 0 then [] else Urn(es[..|es| - 1]) + Copies(es[|es| - 1].id, es[|es| - 1].proportion)
  }

  lemma {:induction false} CopiesCount(id: int, n: nat, x: int)
    ensures multiset(Copies(id, n))[x] == if x == id then n else 0
  {
    if n == 0 {
    } else {
      CopiesCount(id, n - 1, x);
    }
  }

  /** An id is in the urn as often as its weight. */
  lemma {:induction false} UrnCount(es: seq<ItemInfo>, id: int)
    ensures multiset(Urn(es))[id] == Weight(es, id)
  {
    if |es| == 0 {
    } else {
      var n := |es| - 1;
      UrnCount(es[..n], id);
      CopiesCount(es[n].id, es[n].proportion, id);
    }
  }

  // ----- The table of prefix sums and the scan -----

  /* id and prefix sum, the latter on 32 bits */
  type Rate = (word, word)

  function Rates(es: seq<ItemInfo>): (rs: seq<Rate>)
    ensures |rs| == |es|
  {
    if |es| == 0 then [] else Rates(es[..|es| - 1]) + [(es[|es| - 1].id, Total(es) % U32)]
  }

  /* The first id whose prefix sum reaches the draw, or 0. */
  function Scan(rs: seq<Rate>, draw: int): word {
    if |rs| == 0 then 0 else if draw <= ToInt32(rs[0].1) then rs[0].0 else Scan(rs[1..], draw)
  }

  /* What rand_r returns: 0 .. RAND_MAX. */
  type raw = r: nat | r < I32

  /* randBetween, for the number r that rand_r returned. */
  function RandBetween(min: int, max: int, r: raw): int {
    if min == max then min
    else if min > max then -1
    else min + (max - min + 1) * r / I32
  }

  class RandomShopConfig {
    var shopPools: map<word, seq<ItemInfo>>

    method AddPoolItem(item: Option<ShopItem>)
      modifies this
      ensures forall id :: PoolItems(shopPools, id) ==
                PoolItems(old(shopPools), id)
                + (if item.Some? && item.value.poolId == id then [item.value.info] else [])
    {
      if item.Some? {
        var id := item.value.poolId;
        shopPools := shopPools[id := PoolItems(shopPools, id) + [item.value.info]];
      }
    }

    /* The two nested loops of get_random_item. */
    method BuildRates(lv: word, poolVec: seq<word>) returns (rateVec: seq<Rate>, rate: word)
      ensures var es := Entries(shopPools, lv, poolVec);
              rateVec == Rates(es) && rate == (1 + Total(es)) % U32
    {
      hide Rates, Total;
      rate, rateVec := 1, [];
      ghost var es: seq<ItemInfo> := [];
      NoRates();
      var p := 0;
      while p < |poolVec|
        invariant p <= |poolVec| && es == Entries(shopPools, lv, poolVec[..p])
        invariant rateVec == Rates(es) && rate == (1 + Total(es)) % U32
      {
        var items := PoolItems(shopPools, poolVec[p]);
        ghost var before := es;
        var i := 0;
        while i < |items|
          invariant i <= |items| && es == before + EligibleIn(lv, items[..i])
          invariant rateVec == Rates(es) && rate == (1 + Total(es)) % U32
        {
          var item := items[i];
          assert items[..i + 1][..i] == items[..i];
          if item.minLv <= lv && lv <= item.maxLv && item.proportion > 0 {
            PrefixSum(es, item);
            rateVec := rateVec + [(item.id, (rate + item.proportion - 1) % U32)];
            rate := (rate + item.proportion) % U32;
            es := es + [item];
          }
          i := i + 1;
        }
        assert items[..|items|] == items && poolVec[..p + 1][..p] == poolVec[..p];
        p := p + 1;
      }
      assert poolVec[..|poolVec|] == poolVec;
    }

    method GetRandomItem(lv: word, poolVec: seq<word>, r: raw) returns (id: word)
      ensures id == Outcome(Entries(shopPools, lv, poolVec), r)
      ensures var all := OverPools(shopPools, poolVec, items => Open(items, lv));
              (0 < all < 0x8000_0000 ==> Listed(shopPools, lv, poolVec, id)) && (all == 0 ==> id == 0)
    {
      OutcomeTold(shopPools, lv, poolVec, r);
      hide Listed, OverPools, Open;
      if poolVec == [] {
        return 0;
      }
      var rateVec, rate := BuildRates(lv, poolVec);
      ghost var es := Entries(shopPools, lv, poolVec);
      if rateVec == [] {
        return 0;
      }
      hide RandBetween, ToInt32, Rates, Total, Entries;
      LowerByOne(Total(es));
      var rateIndex := RandBetween(1, ToInt32((rate - 1) % U32), r);
      if rateIndex == -1 {
        return 0;
      }
      var k := 0;
      while k < |rateVec|
        invariant k <= |rateVec| && Scan(rateVec[k..], rateIndex) == Scan(rateVec, rateIndex)
      {
        assert rateVec[k..][1..] == rateVec[k + 1..];
        if rateIndex <= ToInt32(rateVec[k].1) {
          return rateVec[k].0;
        }
        k := k + 1;
      }
      return 0;
    }
  }

  /* What the code returns for given entries and randomness. */
  function Outcome(es: seq<ItemInfo>, r: raw): word {
    if |es| == 0 then 0
    else
      var draw := RandBetween(1, ToInt32(Total(es) % U32), r);
      if draw == -1 then 0 else Scan(Rates(es), draw)
  }

  lemma PrefixSum(es: seq<ItemInfo>, item: ItemInfo)
    ensures var t := Total(es);
            && Total(es + [item]) == t + item.proportion
            && ((1 + t) % U32 + item.proportion - 1) % U32 == (t + item.proportion) % U32
            && ((1 + t) % U32 + item.proportion) % U32 == (1 + (t + item.proportion)) % U32
    ensures Rates(es + [item]) == Rates(es) + [(item.id, Total(es + [item]) % U32)]
  {
    assert (es + [item])[..|es|] == es;
  }

  lemma NoRates()
    ensures Rates([]) == [] && Total([]) == 0
  {
  }

  lemma LowerByOne(t: nat)
    ensures ((1 + t) % U32 - 1) % U32 == t % U32
  {
  }

  // ----- The draw is fair exactly below 2^31 -----

  lemma {:induction false} ScanAppend(rs: seq<Rate>, r: Rate, draw: int)
    ensures (forall i :: 0 <= i < |rs| ==> draw > ToInt32(rs[i].1))
            ==> Scan(rs + [r], draw) == if draw <= ToInt32(r.1) then r.0 else 0
    ensures (exists i :: 0 <= i < |rs| && draw <= ToInt32(rs[i].1)) ==> Scan(rs + [r], draw) == Scan(rs, draw)
  {
    if |rs| > 0 {
      assert (rs + [r])[1..] == rs[1..] + [r];
      ScanAppend(rs[1..], r, draw);
      if draw > ToInt32(rs[0].1) && exists i :: 0 <= i < |rs| && draw <= ToInt32(rs[i].1) {
        var i :| 0 <= i < |rs| && draw <= ToInt32(rs[i].1);
        assert draw <= ToInt32(rs[1..][i - 1].1);
      }
    } else {
      assert (rs + [r])[1..] == [];
    }
  }

  lemma {:induction false} RatesGrow(es: seq<ItemInfo>)
    requires Total(es) < I32
    ensures forall i :: 0 <= i < |es| ==> ToInt32(Rates(es)[i].1) <= Total(es)
    ensures |es| > 0 ==> ToInt32(Rates(es)[|es| - 1].1) == Total(es)
  {
    if |es| == 0 {
    } else {
      RatesGrow(es[..|es| - 1]);
    }
  }

  /** Below 2^31 the scan picks the ball at the drawn position of the urn; its fall-through is unreachable. */
  lemma {:induction false} ScanIsUrn(es: seq<ItemInfo>, draw: int)
    requires 1 <= draw <= Total(es) < I32
    ensures Scan(Rates(es), draw) == Urn(es)[draw - 1]
    decreases |es|
  {
    var n := |es| - 1;
    var before, last := es[..n], (es[n].id, Total(es) % U32);
    assert Urn(es) == Urn(before) + Copies(es[n].id, es[n].proportion);
    assert Rates(es) == Rates(before) + [last] && ToInt32(last.1) == Total(es);
    RatesGrow(before);
    hide Rates, Scan, ToInt32, Urn;
    ScanAppend(Rates(before), last, draw);
    if draw <= Total(before) {
      assert |before| > 0 by { NoRates(); }
      ScanIsUrn(before, draw);
      assert draw <= ToInt32(Rates(before)[|before| - 1].1);
    }
  }

  /* How many numbers can be drawn. */
  function DrawCount(es: seq<ItemInfo>): nat {
    var max := ToInt32(Total(es) % U32);
    if max < 1 then 0 else max
  }

  function Results(es: seq<ItemInfo>): (r: seq<int>)
    ensures |r| == DrawCount(es)
  {
    seq(DrawCount(es), d => Scan(Rates(es), d + 1))
  }

  /** Over all draws, each id is returned exactly as often as its weight if and only if the total weight is
      below 2^31. */
  lemma FairIff(es: seq<ItemInfo>)
    ensures (forall id: int :: multiset(Results(es))[id] == Weight(es, id)) <==> Total(es) < I32
  {
    hide Weight;
    forall id: int
      ensures multiset(Urn(es))[id] == Weight(es, id)
    {
      UrnCount(es, id);
    }
    if Total(es) < I32 {
      ResultsAreUrn(es);
    } else if forall id: int :: multiset(Results(es))[id] == Weight(es, id) {
      NoSmaller(Results(es), Urn(es));
      assert false;
    }
  }

  lemma {:induction false} NoSmaller(a: seq<int>, b: seq<int>)
    requires forall x: int :: multiset(a)[x] >= multiset(b)[x]
    ensures |a| >= |b|
    decreases |b|
  {
    if |b| == 0 {
    } else {
      var n := |b| - 1;
      var x := b[n];
      assert b == b[..n] + [x] && x in multiset(b);
      assert multiset(a)[x] >= multiset(b)[x];
      var c := Without(a, x);
      forall y: int
        ensures multiset(c)[y] >= multiset(b[..n])[y]
      {
        assert multiset(a)[y] >= multiset(b)[y];
      }
      NoSmaller(c, b[..n]);
    }
  }

  lemma Without(a: seq<int>, x: int) returns (c: seq<int>)
    requires x in multiset(a)
    ensures multiset(a) == multiset(c) + multiset{x} && |a| == |c| + 1
  {
    var j :| 0 <= j < |a| && a[j] == x;
    c := a[..j] + a[j + 1..];
    assert a == a[..j] + [x] + a[j + 1..];
  }

  lemma ResultsAreUrn(es: seq<ItemInfo>)
    requires Total(es) < I32
    ensures Results(es) == Urn(es)
  {
    hide Scan, Rates, Urn, Total;
    forall i | 0 <= i < Total(es)
      ensures Results(es)[i] == Urn(es)[i]
    {
      ScanIsUrn(es, i + 1);
    }
  }

  // ----- How often a number is drawn -----

  lemma Monotone(n: nat, a: int, b: int)
    requires a <= b
    ensures n * a <= n * b
  {
  }

  lemma RandBetweenRange(min: int, max: int, r: raw)
    requires min <= max
    ensures min <= RandBetween(min, max, r) <= max
  {
    Monotone(max - min + 1, r, I32 - 1);
    Monotone(max - min + 1, 0, r);
  }

  function CeilDiv(a: nat, n: nat): nat
    requires n > 0
  {
    (a + n - 1) / n
  }

  lemma CeilLe(a: nat, n: nat, r: nat)
    requires n > 0
    ensures CeilDiv(a, n) <= r <==> a <= n * r
  {
    var q := CeilDiv(a, n);
    assert a + n - 1 == n * q + (a + n - 1) % n;
    if q <= r {
      Monotone(n, q, r);
    } else {
      Monotone(n, r + 1, q);
      assert n * (r + 1) == n * r + n;
    }
  }

  /* The numbers of the random source for which draw is drawn. */
  function Hits(min: int, max: int, draw: int): set<int> {
    set r | 0 <= r < I32 && RandBetween(min, max, r) == draw
  }

  /* The first of those for the d-th of n numbers. */
  function From(n: nat, d: nat): nat
    requires n > 0
  {
    CeilDiv(d * I32, n)
  }

  function Interval(lo: nat, hi: nat): (s: set<int>)
    requires lo <= hi
    ensures |s| == hi - lo && forall r :: r in s <==> lo <= r < hi
  {
    if lo == hi then {} else Interval(lo, hi - 1) + {hi - 1}
  }

  lemma DrawnWhen(min: int, max: int, d: nat, r: raw)
    requires d <= max - min
    ensures var n := max - min + 1; RandBetween(min, max, r) == min + d <==> From(n, d) <= r < From(n, d + 1)
  {
    var n := max - min + 1;
    CeilLe(d * I32, n, r);
    CeilLe((d + 1) * I32, n, r);
  }

  lemma FromEnds(n: nat, d: nat)
    requires n > 0 && d <= n
    ensures From(n, d) <= I32 && From(n, 0) == 0 && From(n, n) == I32
  {
    hide CeilDiv;
    CeilLe(d * I32, n, I32);
    Monotone(I32, d, n);
    CeilLe(0, n, 0);
    CeilLe(n * I32, n, I32);
    CeilLe(n * I32, n, I32 - 1);
    assert n * (I32 - 1) == n * I32 - n;
  }

  lemma FromWidth(n: nat, d: nat)
    requires n > 0 && d < n
    ensures From(n, d) <= From(n, d + 1)
    ensures I32 / n <= From(n, d + 1) - From(n, d) <= I32 / n + 1
  {
    hide CeilDiv;
    var f, g, w := From(n, d), From(n, d + 1), I32 / n;
    Division(n);
    assert (d + 1) * I32 == d * I32 + I32;
    CeilLe(d * I32, n, f);
    CeilLe((d + 1) * I32, n, g);
    CeilLe(d * I32, n, g);
    assert (d + 1) * I32 >= I32;
    assert n * (g - w) == n * g - n * w && n * (f + w + 1) == n * f + n * w + n;
    Cancel(n, w, g);
    CeilLe(d * I32, n, g - w);
    CeilLe((d + 1) * I32, n, f + w + 1);
  }

  lemma Cancel(n: nat, a: nat, b: nat)
    requires n > 0 && n * a <= n * b
    ensures a <= b
  {
    if b < a {
      Monotone(n, b + 1, a);
    }
  }

  lemma Division(n: nat)
    requires n > 0
    ensures n * (I32 / n) <= I32 < n * (I32 / n) + n
  {
  }

  /** Each number of the range is drawn for 2^31 / n of the 2^31 values of the random source, rounded
      down or up. */
  lemma HitsBounds(min: int, max: int, draw: int)
    requires min <= draw <= max
    ensures var n := max - min + 1; I32 / n <= |Hits(min, max, draw)| <= I32 / n + 1
  {
    HitsCount(min, max, draw - min);
    FromWidth(max - min + 1, draw - min);
  }

  lemma HitsCount(min: int, max: int, d: nat)
    requires d <= max - min
    ensures var n := max - min + 1; |Hits(min, max, min + d)| == From(n, d + 1) - From(n, d)
  {
    hide From, RandBetween;
    var n := max - min + 1;
    FromEnds(n, d + 1);
    FromWidth(n, d);
    var hits, interval := Hits(min, max, min + d), Interval(From(n, d), From(n, d + 1));
    forall r
      ensures r in hits <==> r in interval
    {
      if 0 <= r < I32 {
        DrawnWhen(min, max, d, r);
      }
    }
    assert hits == interval;
  }

  /** Every number of a range can be drawn if and only if there are at most 2^31 of them. */
  lemma OntoIff(min: int, max: int)
    requires min <= max
    ensures (forall draw :: min <= draw <= max ==> Hits(min, max, draw) != {}) <==> max - min + 1 <= I32
  {
    var n := max - min + 1;
    if n <= I32 {
      forall draw | min <= draw <= max ensures Hits(min, max, draw) != {} {
        HitsBounds(min, max, draw);
        AtLeastOne(n);
      }
    } else {
      HitsCount(min, max, n - 1);
      FromEnds(n, n);
      FromEnds(n, n - 1);
      CeilLe((n - 1) * I32, n, I32 - 1);
      assert n * (I32 - 1) == n * I32 - n && (n - 1) * I32 == n * I32 - I32;
      assert Hits(min, max, max) == {};
    }
  }

  lemma AtLeastOne(n: nat)
    requires 0 < n <= I32
    ensures I32 / n >= 1
  {
    Division(n);
  }

  /** All numbers of a range are equally likely if and only if their number divides 2^31. */
  lemma UniformIff(min: int, max: int)
    requires min <= max
    ensures (forall a, b :: min <= a <= max && min <= b <= max ==> |Hits(min, max, a)| == |Hits(min, max, b)|)
            <==> I32 % (max - min + 1) == 0
  {
    hide Hits, From;
    var n := max - min + 1;
    FromEnds(n, 0);
    if I32 % n == 0 {
      forall a | min <= a <= max ensures |Hits(min, max, a)| == I32 / n {
        HitsCount(min, max, a - min);
        FromMultiple(n, a - min);
        FromMultiple(n, a - min + 1);
        assert (a - min + 1) * (I32 / n) == (a - min) * (I32 / n) + I32 / n;
      }
    } else if forall a, b :: min <= a <= max && min <= b <= max ==> |Hits(min, max, a)| == |Hits(min, max, b)| {
      EqualWidths(min, max, n);
      var w := |Hits(min, max, min)|;
      MultipleOf(n, w);
      assert false;
    }
  }

  lemma MultipleOf(n: nat, w: nat)
    requires n > 0 && n * w == I32
    ensures I32 % n == 0
  {
    DivModUnique(I32, n, w, 0);
  }

  lemma FromMultiple(n: nat, d: nat)
    requires n > 0 && I32 % n == 0
    ensures From(n, d) == d * (I32 / n)
  {
    var w := I32 / n;
    assert d * I32 == n * (d * w) by {
      assert I32 == n * w;
      assert d * (n * w) == n * (d * w);
    }
    CeilLe(d * I32, n, d * w);
    if d * w > 0 {
      CeilLe(d * I32, n, d * w - 1);
      assert n * (d * w - 1) == n * (d * w) - n;
    }
  }

  lemma {:induction false} EqualWidths(min: int, max: int, d: nat)
    requires min <= max && d <= max - min + 1
    requires forall a, b :: min <= a <= max && min <= b <= max ==> |Hits(min, max, a)| == |Hits(min, max, b)|
    ensures From(max - min + 1, d) == d * |Hits(min, max, min)|
  {
    hide Hits, From;
    var n, w := max - min + 1, |Hits(min, max, min)|;
    if d == 0 {
      FromEnds(n, 0);
    } else {
      EqualWidths(min, max, d - 1);
      HitsCount(min, max, d - 1);
      assert |Hits(min, max, min + (d - 1))| == w;
      assert d * w == (d - 1) * w + w;
    }
  }

  /** What a call returns: 0 when nothing is eligible, and otherwise, below 2^31, an id of the urn at a position
      in 1..total, which is always the id of an eligible item. */
  lemma OutcomeIsDraw(es: seq<ItemInfo>, r: raw)
    requires 0 < Total(es) < I32
    ensures var draw := RandBetween(1, Total(es), r);
            1 <= draw <= Total(es) && Outcome(es, r) == Urn(es)[draw - 1] && Weight(es, Outcome(es, r)) > 0
  {
    hide RandBetween, Scan, Rates, Urn, Total, Weight;
    RandBetweenRange(1, Total(es), r);
    var draw := RandBetween(1, Total(es), r);
    assert |es| > 0 by { NoRates(); }
    ScanIsUrn(es, draw);
    UrnCount(es, Urn(es)[draw - 1]);
    assert Urn(es)[draw - 1] in multiset(Urn(es));
  }

  // ----- How often an item is drawn -----

  /* The values of the random source for which a call returns id. */
  function Wins(es: seq<ItemInfo>, id: int): set<int> {
    set r | 0 <= r < I32 && Outcome(es, r) == id
  }

  /* ... by drawing one of the first k balls. */
  function WinsUpTo(es: seq<ItemInfo>, id: int, k: nat): set<int> {
    set r | 0 <= r < I32 && Outcome(es, r) == id && RandBetween(1, Total(es), r) <= k
  }

  lemma WinsStep(es: seq<ItemInfo>, id: int, k: nat)
    requires 0 < k <= Total(es) < I32
    ensures |WinsUpTo(es, id, k)|
            == |WinsUpTo(es, id, k - 1)| + (if Urn(es)[k - 1] == id then |Hits(1, Total(es), k)| else 0)
  {
    hide Outcome, RandBetween, Urn, Total, Weight;
    var before, now, hits := WinsUpTo(es, id, k - 1), WinsUpTo(es, id, k), Hits(1, Total(es), k);
    forall r: raw
      ensures r in now <==> r in before || (r in hits && Urn(es)[k - 1] == id)
    {
      OutcomeIsDraw(es, r);
    }
    if Urn(es)[k - 1] == id {
      assert now == before + hits && before !! hits;
    } else {
      assert now == before;
    }
  }

  lemma {:induction false} WinsCount(es: seq<ItemInfo>, id: int, k: nat)
    requires k <= Total(es) < I32 && Total(es) > 0
    ensures var m, w := multiset(Urn(es)[..k])[id], I32 / Total(es);
            && m * w <= |WinsUpTo(es, id, k)| <= m * (w + 1)
            && (I32 % Total(es) == 0 ==> |WinsUpTo(es, id, k)| == m * w)
  {
    hide WinsUpTo, Urn, Total, Hits;
    if k == 0 {
      NoWins(es, id);
    } else {
      var u, w := Urn(es), I32 / Total(es);
      WinsCount(es, id, k - 1);
      WinsStep(es, id, k);
      HitsBounds(1, Total(es), k);
      if I32 % Total(es) == 0 {
        ExactHits(Total(es), k);
      }
      assert u[..k] == u[..k - 1] + [u[k - 1]];
      OneMore(multiset(u[..k - 1])[id], w);
    }
  }

  lemma OneMore(m: nat, w: nat)
    ensures (m + 1) * w == m * w + w && (m + 1) * (w + 1) == m * (w + 1) + (w + 1)
  {
  }

  lemma NoWins(es: seq<ItemInfo>, id: int)
    requires 0 < Total(es) < I32
    ensures WinsUpTo(es, id, 0) == {}
  {
    hide Outcome, RandBetween;
    forall r: raw
      ensures r !in WinsUpTo(es, id, 0)
    {
      RandBetweenRange(1, Total(es), r);
    }
  }

  lemma ExactHits(n: nat, k: nat)
    requires 0 < k <= n && I32 % n == 0
    ensures |Hits(1, n, k)| == I32 / n
  {
    hide Hits, From;
    HitsCount(1, n, k - 1);
    FromMultiple(n, k - 1);
    FromMultiple(n, k);
    assert k * (I32 / n) == (k - 1) * (I32 / n) + I32 / n;
  }

  /** Of the 2^31 values of the random source, an id wins for its weight times 2^31 / total, where for every
      unit of weight the quotient is rounded down or up; when the total divides 2^31 that is exact. */
  lemma WinsBounds(es: seq<ItemInfo>, id: int)
    requires 0 < Total(es) < I32
    ensures Weight(es, id) * (I32 / Total(es)) <= |Wins(es, id)| <= Weight(es, id) * (I32 / Total(es) + 1)
    ensures I32 % Total(es) == 0 ==> |Wins(es, id)| == Weight(es, id) * (I32 / Total(es))
  {
    hide Outcome, RandBetween, Urn, Total, Weight;
    var n := Total(es);
    WinsCount(es, id, n);
    UrnCount(es, id);
    assert Urn(es)[..n] == Urn(es);
    assert Wins(es, id) == WinsUpTo(es, id, n) by {
      forall r: raw ensures r in Wins(es, id) <==> r in WinsUpTo(es, id, n) {
        RandBetweenRange(1, n, r);
      }
    }
  }

  // ----- The draw, told by the listed pools -----

  /* The proportions of the items of a pool that are open to the level, all of them or those with one id. */
  ghost function Open(items: seq<ItemInfo>, lv: word): nat {
    OverItems(items, (it: ItemInfo) => if it.minLv <= lv <= it.maxLv then it.proportion else 0)
  }

  ghost function OpenFor(items: seq<ItemInfo>, lv: word, id: int): nat {
    OverItems(items, (it: ItemInfo) => if it.minLv <= lv <= it.maxLv && it.id == id then it.proportion else 0)
  }

  lemma {:induction false} OverItemsSnoc(items: seq<ItemInfo>, last: ItemInfo, f: ItemInfo -> nat)
    ensures OverItems(items + [last], f) == OverItems(items, f) + f(last)
    decreases |items|
  {
    if |items| == 0 {
      assert [] + [last] == [last] && [last][1..] == [];
    } else {
      assert (items + [last])[1..] == items[1..] + [last];
      OverItemsSnoc(items[1..], last, f);
    }
  }

  lemma {:induction false} TotalAppend(a: seq<ItemInfo>, b: seq<ItemInfo>, id: int)
    ensures Total(a + b) == Total(a) + Total(b) && Weight(a + b, id) == Weight(a, id) + Weight(b, id)
    decreases |b|
  {
    if |b| == 0 {
      assert a + b == a;
    } else {
      var n := |b| - 1;
      assert (a + b)[..|a| + n] == a + b[..n];
      TotalAppend(a, b[..n], id);
    }
  }

  lemma {:induction false} PoolTotal(lv: word, items: seq<ItemInfo>, id: int)
    ensures Total(EligibleIn(lv, items)) == Open(items, lv)
    ensures Weight(EligibleIn(lv, items), id) == OpenFor(items, lv, id)
  {
    if |items| == 0 {
    } else {
      var n := |items| - 1;
      var last := if Eligible(lv, items[n]) then [items[n]] else [];
      PoolTotal(lv, items[..n], id);
      TotalAppend(EligibleIn(lv, items[..n]), last, id);
      OneTotal(items[n], id);
      assert items == items[..n] + [items[n]];
      OverItemsSnoc(items[..n], items[n], (it: ItemInfo) => if it.minLv <= lv <= it.maxLv then it.proportion else 0);
      OverItemsSnoc(items[..n], items[n],
                    (it: ItemInfo) => if it.minLv <= lv <= it.maxLv && it.id == id then it.proportion else 0);
    }
  }

  lemma OneTotal(item: ItemInfo, id: int)
    ensures Total([item]) == item.proportion && Weight([item], id) == if item.id == id then item.proportion else 0
  {
    assert [item][..0] == [];
  }

  /** The total and the weight of an id, summed over the listed pools. */
  lemma {:induction false} SumsMean(pools: map<word, seq<ItemInfo>>, lv: word, poolVec: seq<word>, id: int)
    ensures Total(Entries(pools, lv, poolVec)) == OverPools(pools, poolVec, items => Open(items, lv))
    ensures Weight(Entries(pools, lv, poolVec), id) == OverPools(pools, poolVec, items => OpenFor(items, lv, id))
    decreases |poolVec|
  {
    hide EligibleIn, Open, OpenFor;
    if |poolVec| == 0 {
    } else {
      assert [poolVec[0]] + poolVec[1..] == poolVec;
      EntriesAppend(pools, lv, [poolVec[0]], poolVec[1..]);
      OnePool(pools, lv, poolVec[0]);
      PoolTotal(lv, PoolItems(pools, poolVec[0]), id);
      NothingOpen(lv, id);
      TotalAppend(Entries(pools, lv, [poolVec[0]]), Entries(pools, lv, poolVec[1..]), id);
      SumsMean(pools, lv, poolVec[1..], id);
    }
  }

  lemma NothingOpen(lv: word, id: int)
    ensures Open([], lv) == 0 && OpenFor([], lv, id) == 0
  {
  }

  /** Of the 2^31 values of the random source, an id wins for its share of the proportions in the listed pools. */
  lemma DrawTold(pools: map<word, seq<ItemInfo>>, lv: word, poolVec: seq<word>, id: int)
    requires 0 < OverPools(pools, poolVec, items => Open(items, lv)) < 0x8000_0000
    ensures var all := OverPools(pools, poolVec, items => Open(items, lv));
            var own := OverPools(pools, poolVec, items => OpenFor(items, lv, id));
            var wins := |Wins(Entries(pools, lv, poolVec), id)|;
            && own * (0x8000_0000 / all) <= wins <= own * (0x8000_0000 / all + 1)
            && (0x8000_0000 % all == 0 ==> wins == own * (0x8000_0000 / all))
  {
    hide Wins, Entries, Open, OpenFor, OverPools, Total, Weight;
    SumsMean(pools, lv, poolVec, id);
    WinsBounds(Entries(pools, lv, poolVec), id);
  }

  /* What counts as found: an item of a listed pool, open to the level, with a positive proportion. */
  ghost predicate Listed(pools: map<word, seq<ItemInfo>>, lv: word, poolVec: seq<word>, id: int) {
    exists p, item :: 0 <= p < |poolVec| && poolVec[p] in pools && item in pools[poolVec[p]]
                      && item.minLv <= lv <= item.maxLv && item.proportion > 0 && item.id == id
  }

  lemma {:induction false} InSomePool(pools: map<word, seq<ItemInfo>>, poolVec: seq<word>, item: ItemInfo)
    returns (p: nat)
    requires OverPools(pools, poolVec, items => multiset(items)[item]) > 0
    ensures p < |poolVec| && poolVec[p] in pools && item in pools[poolVec[p]]
  {
    if poolVec[0] in pools && item in pools[poolVec[0]] {
      p := 0;
    } else {
      var q := InSomePool(pools, poolVec[1..], item);
      p := q + 1;
    }
  }

  lemma {:induction false} SomeEntry(es: seq<ItemInfo>, id: int) returns (item: ItemInfo)
    requires Weight(es, id) > 0
    ensures item in es && item.id == id
  {
    var n := |es| - 1;
    if es[n].id == id {
      item := es[n];
    } else {
      item := SomeEntry(es[..n], id);
    }
  }

  /** What a call returns: an item of the listed pools that is open to the level, or 0 if they hold none. */
  lemma OutcomeTold(pools: map<word, seq<ItemInfo>>, lv: word, poolVec: seq<word>, r: raw)
    ensures var id := Outcome(Entries(pools, lv, poolVec), r);
            var all := OverPools(pools, poolVec, items => Open(items, lv));
            (0 < all < 0x8000_0000 ==> Listed(pools, lv, poolVec, id)) && (all == 0 ==> id == 0)
  {
    hide Outcome, Entries, Open, OverPools, Total, Weight;
    var es := Entries(pools, lv, poolVec);
    SumsMean(pools, lv, poolVec, 0);
    if 0 < Total(es) < I32 {
      OutcomeIsDraw(es, r);
      var item := SomeEntry(es, Outcome(es, r));
      EntriesMean(pools, lv, poolVec, item);
      assert multiset(es)[item] > 0;
      var p := InSomePool(pools, poolVec, item);
    } else if Total(es) == 0 {
      NothingDrawn(es, r);
    }
  }

  lemma NothingDrawn(es: seq<ItemInfo>, r: raw)
    requires Total(es) == 0
    ensures Outcome(es, r) == 0
  {
    hide Rates;
  }
}
