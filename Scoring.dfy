/** Receipt scoring: the `Receipt` and `Item` records and `calculatePoints`.
    Each of the seven rules is a function of the fields it reads; `Points`
    is their sum, and `CalculatePoints` is the accumulating loop of the
    source, proved to compute that sum. A field that does not parse makes
    its rule contribute nothing and never stops the scoring. */
module Scoring {
  import opened Wrappers
  import opened Strings
  import opened Decimals
  import opened Strconv
  import opened Clock
  import GoMath

  datatype Item = Item(shortDescription: string, price: string)

  /** A submitted receipt. `id` and `points` are filled in after scoring
      and are not read by it. */
  datatype Receipt = Receipt(
    id: string,
    retailer: string,
    purchaseDate: string,
    purchaseTime: string,
    total: string,
    items: seq<Item>,
    points: int)

  /** One point per ASCII letter or digit of the retailer name. */
  function RetailerPoints(retailer: string): (p: nat)
    ensures p <= |retailer|
  {
    AlnumCount(retailer)
  }

  /** The retailer rule counts the matches of `[a-zA-Z0-9]`. */
  lemma RetailerPointsCountsMatches(retailer: string)
    ensures RetailerPoints(retailer) == |AlnumPositions(retailer)|
  {
    AlnumCountIsMatchCount(retailer);
  }

  /** Fifty points when the total parses to a whole number. */
  function RoundDollarPoints(total: string): (p: nat)
    ensures p == 0 || p == 50
    ensures ParseFloat(total).None? ==> p == 0
  {
    match ParseFloat(total)
    case None => 0
    case Some(t) => if IsWhole(t) then 50 else 0
  }

  /** The round-dollar rule is Go's `total == math.Floor(total)` on the
      exact value. */
  lemma RoundDollarPointsIsFloorTest(total: string)
    ensures ParseFloat(total).Some? ==>
      var v := Value(ParseFloat(total).value);
      RoundDollarPoints(total) == if v == GoMath.Floor(v) as real then 50 else 0
  {
    if ParseFloat(total).Some? {
      WholeIffFloor(ParseFloat(total).value);
    }
  }

  /** Twenty-five points when the total parses to a multiple of a quarter. */
  function QuarterPoints(total: string): (p: nat)
    ensures p == 0 || p == 25
    ensures ParseFloat(total).None? ==> p == 0
  {
    match ParseFloat(total)
    case None => 0
    case Some(t) => if IsQuarterMultiple(t) then 25 else 0
  }

  /** The quarter rule is Go's `math.Mod(total, 0.25) == 0` on the exact
      value. */
  lemma QuarterPointsIsModTest(total: string)
    ensures ParseFloat(total).Some? ==>
      var v := Value(ParseFloat(total).value);
      QuarterPoints(total) == if GoMath.Mod(v, 0.25) == 0.0 then 25 else 0
  {
    if ParseFloat(total).Some? {
      QuarterIffMod(ParseFloat(total).value);
    }
  }

  /** Five points per complete pair of items: `p` is five times the
      largest `k` with `2 * k <= |items|`. */
  function PairPoints(items: seq<Item>): (p: nat)
    ensures p % 5 == 0 && 2 * p <= 5 * |items| < 2 * p + 10
  {
    (|items| / 2) * 5
  }

  /** An item whose trimmed description has a length divisible by three
      earns a fifth of its price, rounded up, when the price parses. */
  function ItemPoints(item: Item): (p: int)
    ensures |TrimSpace(item.shortDescription)| % 3 != 0 ==> p == 0
    ensures ParseFloat(item.price).None? ==> p == 0
  {
    if |TrimSpace(item.shortDescription)| % 3 == 0 then
      match ParseFloat(item.price)
      case None => 0
      case Some(d) => CeilFifth(d)
    else 0
  }

  /** The item rule is Go's `int(math.Ceil(price * 0.2))` on the exact
      value, for a qualifying description. */
  lemma ItemPointsIsCeilTest(item: Item)
    ensures var price := ParseFloat(item.price);
      |TrimSpace(item.shortDescription)| % 3 == 0 && price.Some? ==>
      ItemPoints(item) == GoMath.Ceil(Value(price.value) * 0.2)
  {
    if ParseFloat(item.price).Some? {
      CeilFifthIsCeil(ParseFloat(item.price).value);
    }
  }

  /** A price that does not parse, or parses to a number that is not negative. */
  predicate PriceNonNegative(price: string) {
    ParseFloat(price).None? || ParseFloat(price).value.mant >= 0
  }

  /** An item whose price is not negative adds nothing negative. */
  lemma ItemPointsNonNegative(item: Item)
    ensures PriceNonNegative(item.price) ==> ItemPoints(item) >= 0
  {
    if PriceNonNegative(item.price) && ParseFloat(item.price).Some? {
      CeilFifthNonNegative(ParseFloat(item.price).value);
    }
  }

  /** The item rule summed over the items, in order. */
  function ItemsPoints(items: seq<Item>): int {
    if items == [] then 0
    else ItemsPoints(items[..|items| - 1]) + ItemPoints(items[|items| - 1])
  }

  /** No negative price, no negative sum. */
  lemma {:induction false} ItemsPointsNonNegative(items: seq<Item>)
    requires forall i | 0 <= i < |items| :: PriceNonNegative(items[i].price)
    ensures ItemsPoints(items) >= 0
  {
    if items != [] {
      var init := items[..|items| - 1];
      assert forall i | 0 <= i < |init| :: init[i] == items[i];
      ItemsPointsNonNegative(init);
      ItemPointsNonNegative(items[|items| - 1]);
    }
  }


  /** Extending a prefix by one item adds that item's points. */
  lemma ItemsPointsPrefix(items: seq<Item>, i: nat)
    requires i < |items|
    ensures ItemsPoints(items[..i + 1]) == ItemsPoints(items[..i]) + ItemPoints(items[i])
  {
    assert items[..i + 1][..i] == items[..i];
  }

  /** The day of month: the third of exactly three `-`-separated fields,
      read by `Atoi`. */
  function DayOfMonth(date: string): Option<int> {
    var parts := Split(date, '-');
    if |parts| == 3 then Atoi(parts[2]) else None
  }

  /** Six points for an odd day of month. Go's `day % 2 == 1` holds only
      for positive odd days, since its remainder takes the sign of `day`;
      a day that reads is never negative, though (`DayOfMonthNonNegative`). */
  function DayPoints(date: string): (p: nat)
    ensures p == 0 || p == 6
    ensures p == 6 <==> DayOfMonth(date).Some? && GoMath.Rem(DayOfMonth(date).value, 2) == 1
  {
    match DayOfMonth(date)
    case None => 0
    case Some(day) => GoMath.RemTwoIsOne(day); if day > 0 && day % 2 == 1 then 6 else 0
  }

  /** Ten points when the purchase time parses with an hour in [14, 16). */
  function TimePoints(time: string): (p: nat)
    ensures p == 0 || p == 10
  {
    match ParseClock(time)
    case None => 0
    case Some(t) => if 14 <= t.hour < 16 then 10 else 0
  }

  /** The score of a receipt: the sum of the seven rules. */
  function Points(r: Receipt): int {
    RetailerPoints(r.retailer)
    + RoundDollarPoints(r.total) + QuarterPoints(r.total)
    + PairPoints(r.items) + ItemsPoints(r.items)
    + DayPoints(r.purchaseDate)
    + TimePoints(r.purchaseTime)
  }

  /** The two total rules of `calculatePoints` as written: nothing when the
      total does not parse, else 50 when it equals its floor and 25 when it
      leaves no remainder modulo 0.25. */
  method TotalBonus(totalText: string) returns (bonus: int)
    ensures bonus == RoundDollarPoints(totalText) + QuarterPoints(totalText)
  {
    RoundDollarPointsIsFloorTest(totalText);
    QuarterPointsIsModTest(totalText);
    bonus := 0;
    var total := ParseFloat(totalText);
    if total.Some? {
      var t := Value(total.value);
      if t == GoMath.Floor(t) as real {
        bonus := bonus + 50;
      }
      if GoMath.Mod(t, 0.25) == 0.0 {
        bonus := bonus + 25;
      }
    }
  }

  /** The body of the item loop of `calculatePoints` as written. */
  method ItemBonus(item: Item) returns (bonus: int)
    ensures bonus == ItemPoints(item)
  {
    ItemPointsIsCeilTest(item);
    bonus := 0;
    var trimmed := TrimSpace(item.shortDescription);
    if |trimmed| % 3 == 0 {
      var price := ParseFloat(item.price);
      if price.Some? {
        bonus := GoMath.Ceil(Value(price.value) * 0.2);
      }
    }
  }

  /** The day rule of `calculatePoints` as written: six points when the
      date splits on `-` into exactly three fields and `day % 2 == 1` for
      the third one read by `Atoi`. */
  method DayBonus(date: string) returns (bonus: int)
    ensures bonus == DayPoints(date)
  {
    bonus := 0;
    var dateParts := Split(date, '-');
    if |dateParts| == 3 {
      var day := Atoi(dateParts[2]);
      if day.Some? && GoMath.Rem(day.value, 2) == 1 {
        bonus := bonus + 6;
      }
    }
  }

  /** The time rule of `calculatePoints` as written: ten points when the
      time parses with the layout `15:04` and its hour is in [14, 16). */
  method TimeBonus(time: string) returns (bonus: int)
    ensures bonus == TimePoints(time)
  {
    bonus := 0;
    var purchaseTime := ParseClock(time);
    if purchaseTime.Some? {
      if purchaseTime.value.hour >= 14 && purchaseTime.value.hour < 16 {
        bonus := bonus + 10;
      }
    }
  }

  /** `calculatePoints`: one accumulator, updated rule by rule in the order
      of the source, with the loop over the items. The rules that read
      parsed fields are the methods above, each the block of the source it
      names; the float64 arithmetic is done on the exact values. */
  method CalculatePoints(receipt: Receipt) returns (points: int)
    ensures points == Points(receipt)
  {
    points := 0;

    points := points + AlnumCount(receipt.retailer);

    var totalBonus := TotalBonus(receipt.total);
    points := points + totalBonus;

    points := points + (|receipt.items| / 2) * 5;

    ghost var beforeItems := points;
    for i := 0 to |receipt.items|
      invariant points == beforeItems + ItemsPoints(receipt.items[..i])
    {
      var itemBonus := ItemBonus(receipt.items[i]);
      points := points + itemBonus;
      ItemsPointsPrefix(receipt.items, i);
    }
    assert receipt.items[..|receipt.items|] == receipt.items;

    var dayBonus := DayBonus(receipt.purchaseDate);
    points := points + dayBonus;

    var timeBonus := TimeBonus(receipt.purchaseTime);
    points := points + timeBonus;
  }
}
