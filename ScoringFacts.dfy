/** What the scoring rules promise, as lemmas over the rule functions. */
module ScoringFacts {
  import opened Wrappers
  import opened Strings
  import opened Decimals
  import opened Strconv
  import opened Clock
  import opened Scoring
  import GoMath

  /** The two total rules together: nothing for a total that does not
      parse; 75 for a whole number, which is always a multiple of a
      quarter; 25 for a multiple of a quarter that is not whole; else 0. */
  lemma TotalRulesCases(total: string)
    ensures ParseFloat(total).None? ==> RoundDollarPoints(total) + QuarterPoints(total) == 0
    ensures ParseFloat(total).Some? ==>
      var v := Value(ParseFloat(total).value);
      RoundDollarPoints(total) + QuarterPoints(total)
        == if v == GoMath.Floor(v) as real then 75
           else if GoMath.Mod(v, 0.25) == 0.0 then 25
           else 0
  {
    if ParseFloat(total).Some? {
      var t := ParseFloat(total).value;
      WholeIffFloor(t);
      QuarterIffMod(t);
      if IsWhole(t) {
        WholeIsQuarterMultiple(t);
      }
    }
  }

  /** The two total rules on the decimal a total parses to: 75 for a whole
      number, 25 for a multiple of a quarter that is not whole, else 0. */
  lemma TotalRulesOfDecimal(total: string, d: Decimal)
    requires ParseFloat(total) == Some(d)
    ensures RoundDollarPoints(total) + QuarterPoints(total)
         == if IsWhole(d) then 75 else if IsQuarterMultiple(d) then 25 else 0
  {
    if IsWhole(d) {
      WholeIsQuarterMultiple(d);
    }
  }

  /** The item rule adds up over concatenated item lists. */
  lemma {:induction false} ItemsPointsAppend(a: seq<Item>, b: seq<Item>)
    ensures ItemsPoints(a + b) == ItemsPoints(a) + ItemsPoints(b)
  {
    if b == [] {
      assert a + b == a;
    } else {
      var init := b[..|b| - 1];
      assert (a + b)[..|a + b| - 1] == a + init;
      ItemsPointsAppend(a, init);
    }
  }

  /** Reordering the items does not change what the item rule adds up to. */
  lemma {:induction false} ItemsPointsPermutation(a: seq<Item>, b: seq<Item>)
    requires multiset(a) == multiset(b)
    ensures ItemsPoints(a) == ItemsPoints(b)
    decreases |a|
  {
    if a == [] {
      assert |b| == |multiset(b)| == 0;
    } else {
      var x := a[|a| - 1];
      var init := a[..|a| - 1];
      assert a == init + [x];
      assert multiset(init) == multiset(a) - multiset{x};
      assert x in multiset(b);
      var k :| 0 <= k < |b| && b[k] == x;
      var rest := RemoveItem(b, k);
      ItemsPointsPermutation(init, rest);
      ItemsPointsAppend(init, [x]);
    }
  }

  /** `b` without its `k`-th item: one copy fewer of that item, and the
      item rule adds up to that much less. */
  lemma RemoveItem(b: seq<Item>, k: nat) returns (rest: seq<Item>)
    requires k < |b|
    ensures rest == b[..k] + b[k + 1..]
    ensures multiset(rest) == multiset(b) - multiset{b[k]}
    ensures ItemsPoints(b) == ItemsPoints(rest) + ItemPoints(b[k])
  {
    rest := b[..k] + b[k + 1..];
    assert b == b[..k] + [b[k]] + b[k + 1..];
    assert multiset(b) == multiset(b[..k]) + multiset{b[k]} + multiset(b[k + 1..]);
    ItemsPointsAppend(b[..k] + [b[k]], b[k + 1..]);
    ItemsPointsAppend(b[..k], [b[k]]);
    ItemsPointsAppend(b[..k], b[k + 1..]);
    assert [b[k]][..0] == [];
  }

  /** Permuting the items of a receipt leaves its score unchanged: the pair
      rule reads only their number and the item rule is a sum. */
  lemma PointsIgnoreItemOrder(r: Receipt, items: seq<Item>)
    requires multiset(items) == multiset(r.items)
    ensures Points(r.(items := items)) == Points(r)
  {
    ItemsPointsPermutation(items, r.items);
    assert |items| == |multiset(items)| == |multiset(r.items)| == |r.items|;
  }

  /** With no negative price the score is never negative. (It can be
      negative otherwise: see NegativePriceGivesNegativeScore.) */
  lemma PointsNonNegative(r: Receipt)
    requires forall i | 0 <= i < |r.items| :: PriceNonNegative(r.items[i].price)
    ensures Points(r) >= 0
  {
    ItemsPointsNonNegative(r.items);
  }


  /** More items never earn fewer pair points. */
  lemma PairPointsMonotone(a: seq<Item>, b: seq<Item>)
    requires |a| <= |b|
    ensures PairPoints(a) <= PairPoints(b)
  {
    assert |a| / 2 <= |b| / 2;
  }

  /** A description of nothing but spaces trims to the empty text, whose
      length 0 is divisible by three, so the item earns the price rule. */
  lemma BlankDescriptionQualifies(item: Item)
    requires AllSpace(item.shortDescription)
    ensures ParseFloat(item.price).None? ==> ItemPoints(item) == 0
    ensures ParseFloat(item.price).Some? ==> ItemPoints(item) == CeilFifth(ParseFloat(item.price).value)
  {
    TrimSpaceTrims(item.shortDescription);
    if ParseFloat(item.price).Some? {
      CeilFifthIsCeil(ParseFloat(item.price).value);
    }
  }

  /** A date whose day reads at all has exactly two `-`. The day field is
      split off at every `-`, so it cannot carry a minus sign either: the
      day is never negative. */
  lemma DayOfMonthNonNegative(date: string)
    ensures DayOfMonth(date).Some? ==> multiset(date)['-'] == 2
    ensures DayOfMonth(date).Some? ==> DayOfMonth(date).value >= 0
  {
    var parts := Split(date, '-');
    SplitSpec(date, '-');
    if |parts| == 3 && Atoi(parts[2]).Some? {
      assert '-' !in parts[2];
    }
  }

  /** A date of three `-`-free fields earns the day bonus exactly when its
      last field reads as a positive odd number. */
  lemma DayPointsOfFields(date: string, year: string, month: string, day: string)
    requires date == year + "-" + month + "-" + day
    requires '-' !in year && '-' !in month && '-' !in day
    ensures DayPoints(date)
         == if Atoi(day).Some? && Atoi(day).value > 0 && Atoi(day).value % 2 == 1 then 6 else 0
  {
    var parts := [year, month, day];
    assert parts[1..] == [month, day];
    assert parts[1..][1..] == [day];
    assert Join(parts, '-') == year + "-" + month + "-" + day;
    SplitJoin(parts, '-');
  }

  /** The time bonus goes exactly to the `HH:MM` spellings of the times from
      14:00 up to, not including, 16:00. */
  lemma TimeRuleWindow(time: string)
    ensures TimePoints(time) == 10 <==>
      exists t :: Valid(t) && 14 <= t.hour < 16 && time == FormatClock(t)
  {
    if TimePoints(time) == 10 {
      var t := ParseClock(time).value;
      ParseClockOnlyFormats(time);
      assert time == FormatClock(t);
    }
    forall t | Valid(t) && 14 <= t.hour < 16 && time == FormatClock(t)
      ensures TimePoints(time) == 10
    {
      ParseFormatClock(t);
    }
  }
}
