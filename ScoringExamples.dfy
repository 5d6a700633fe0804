/** The scoring rules on concrete fields. Each literal is read by a lemma of
    its own, and each fact about a decimal is settled in one, so that the
    lemmas about the rules only combine what those established. */
module ScoringExamples {
  import opened Wrappers
  import opened Digits
  import opened Strings
  import opened Decimals
  import opened Strconv
  import opened Clock
  import opened Scoring
  import opened ScoringFacts

  // Retailer names

  lemma RetailerTarget()
    ensures RetailerPoints("Target") == 6
  {
  }

  lemma CountMAndM()
    ensures AlnumCount("M&M ") == 2
  {
  }

  lemma CountCorner()
    ensures AlnumCount("Corner") == 6
  {
  }

  lemma CountMarket()
    ensures AlnumCount(" Market") == 6
  {
    assert AlnumCount("Market") == 6;
    AlnumCountAppend(" ", "Market");
    assert " " + "Market" == " Market";
  }

  lemma CountMAndMCorner()
    ensures AlnumCount("M&M Corner") == 8
  {
    CountMAndM();
    CountCorner();
    AlnumCountAppend("M&M ", "Corner");
    assert "M&M " + "Corner" == "M&M Corner";
  }

  /** The ampersand and the spaces do not count. */
  lemma RetailerMAndMCornerMarket()
    ensures RetailerPoints("M&M Corner Market") == 14
  {
    CountMAndMCorner();
    CountMarket();
    AlnumCountAppend("M&M Corner", " Market");
    assert "M&M Corner" + " Market" == "M&M Corner Market";
  }

  // Totals

  lemma ScanNineDollars()
    ensures ScanMantissa("9.00") == Mantissa("900", 2, "")
  {
  }

  lemma ValueNineHundred()
    ensures DigitsValue("900") == 900
  {
    assert "900"[..2] == "90";
  }

  lemma ParseNineDollars()
    ensures ParseFloat("9.00") == Some(Decimal(900, 2))
  {
    ScanNineDollars();
    ValueNineHundred();
    ParseWithoutExponent("9.00", "900", 2);
  }

  lemma NineDollarsIsWhole()
    ensures IsWhole(Decimal(900, 2))
  {
  }

  lemma TotalNineDollars()
    ensures RoundDollarPoints("9.00") + QuarterPoints("9.00") == 75
  {
    ParseNineDollars();
    NineDollarsIsWhole();
    TotalRulesOfDecimal("9.00", Decimal(900, 2));
  }

  lemma ScanThirtyFiveDollars()
    ensures ScanMantissa("35.00") == Mantissa("3500", 2, "")
  {
    SpanDigitsOfDigits("35", ".00");
    assert "35" + ".00" == "35.00";
    assert "35.00"[2..] == ".00";
    SpanDigitsOfDigits("00", "");
    assert "00" + "" == "00";
  }

  lemma ValueThirtyFiveHundred()
    ensures DigitsValue("3500") == 3500
  {
    assert "3500"[..3] == "350";
    assert "350"[..2] == "35";
  }

  lemma ParseThirtyFiveDollars()
    ensures ParseFloat("35.00") == Some(Decimal(3500, 2))
  {
    ScanThirtyFiveDollars();
    ValueThirtyFiveHundred();
    ParseWithoutExponent("35.00", "3500", 2);
  }

  lemma ThirtyFiveDollarsIsWhole()
    ensures IsWhole(Decimal(3500, 2))
  {
  }

  lemma TotalThirtyFiveDollars()
    ensures RoundDollarPoints("35.00") + QuarterPoints("35.00") == 75
  {
    ParseThirtyFiveDollars();
    ThirtyFiveDollarsIsWhole();
    TotalRulesOfDecimal("35.00", Decimal(3500, 2));
  }

  lemma ScanNineTwentyFive()
    ensures ScanMantissa("9.25") == Mantissa("925", 2, "")
  {
  }

  lemma ValueNineTwentyFive()
    ensures DigitsValue("925") == 925
  {
    assert "925"[..2] == "92";
  }

  lemma ParseNineTwentyFive()
    ensures ParseFloat("9.25") == Some(Decimal(925, 2))
  {
    ScanNineTwentyFive();
    ValueNineTwentyFive();
    ParseWithoutExponent("9.25", "925", 2);
  }

  lemma NineTwentyFiveIsQuarterMultiple()
    ensures !IsWhole(Decimal(925, 2)) && IsQuarterMultiple(Decimal(925, 2))
  {
  }

  lemma TotalNineTwentyFive()
    ensures RoundDollarPoints("9.25") + QuarterPoints("9.25") == 25
  {
    ParseNineTwentyFive();
    NineTwentyFiveIsQuarterMultiple();
    TotalRulesOfDecimal("9.25", Decimal(925, 2));
  }

  lemma ScanNineTen()
    ensures ScanMantissa("9.10") == Mantissa("910", 2, "")
  {
  }

  lemma ValueNineTen()
    ensures DigitsValue("910") == 910
  {
    assert "910"[..2] == "91";
  }

  lemma ParseNineTen()
    ensures ParseFloat("9.10") == Some(Decimal(910, 2))
  {
    ScanNineTen();
    ValueNineTen();
    ParseWithoutExponent("9.10", "910", 2);
  }

  lemma NineTenIsNeither()
    ensures !IsWhole(Decimal(910, 2)) && !IsQuarterMultiple(Decimal(910, 2))
  {
  }

  lemma TotalNineTen()
    ensures RoundDollarPoints("9.10") + QuarterPoints("9.10") == 0
  {
    ParseNineTen();
    NineTenIsNeither();
    TotalRulesOfDecimal("9.10", Decimal(910, 2));
  }

  lemma ParseNotANumber()
    ensures ParseFloat("nine") == None
  {
    assert ScanMantissa("nine") == Mantissa("", 0, "nine");
  }

  /** A total that does not parse earns nothing, and scoring goes on. */
  lemma TotalNotANumber()
    ensures RoundDollarPoints("nine") + QuarterPoints("nine") == 0
  {
    ParseNotANumber();
  }

  // Items

  /** Two and three items both make one pair; four make two. */
  lemma PairPointsOfCounts(items: seq<Item>)
    ensures |items| == 2 || |items| == 3 ==> PairPoints(items) == 5
    ensures |items| == 4 ==> PairPoints(items) == 10
  {
  }

  lemma TrimCheesePizza()
    ensures |TrimSpace("Emils Cheese Pizza")| == 18
  {
    TrimSpaceUnchanged("Emils Cheese Pizza");
  }

  lemma ScanTwelveTwentyFive()
    ensures ScanMantissa("12.25") == Mantissa("1225", 2, "")
  {
    SpanDigitsOfDigits("12", ".25");
    assert "12" + ".25" == "12.25";
    assert "12.25"[2..] == ".25";
    SpanDigitsOfDigits("25", "");
    assert "25" + "" == "25";
  }

  lemma ValueTwelveTwentyFive()
    ensures DigitsValue("1225") == 1225
  {
    assert "1225"[..3] == "122";
    assert "122"[..2] == "12";
  }

  lemma ParseTwelveTwentyFive()
    ensures ParseFloat("12.25") == Some(Decimal(1225, 2))
  {
    ScanTwelveTwentyFive();
    ValueTwelveTwentyFive();
    ParseWithoutExponent("12.25", "1225", 2);
  }

  /** 12.25 * 0.2 is 2.45, which rounds up to 3. */
  lemma CeilFifthOfTwelveTwentyFive()
    ensures CeilFifth(Decimal(1225, 2)) == 3
  {
  }

  lemma ItemCheesePizza()
    ensures ItemPoints(Item("Emils Cheese Pizza", "12.25")) == 3
  {
    TrimCheesePizza();
    ParseTwelveTwentyFive();
    CeilFifthOfTwelveTwentyFive();
  }

  /** A price that does not parse adds nothing, even for a qualifying
      description, and scoring goes on. */
  lemma ItemMalformedPrice()
    ensures ItemPoints(Item("Pizza!", "free")) == 0
  {
    assert ScanMantissa("free") == Mantissa("", 0, "free");
  }

  // Purchase dates

  lemma AtoiZeroOne()
    ensures Atoi("01") == Some(1)
  {
    assert DigitsValue("01") == 1 by {
      assert "01"[..1] == "0";
    }
  }

  lemma AtoiZeroTwo()
    ensures Atoi("02") == Some(2)
  {
    assert DigitsValue("02") == 2 by {
      assert "02"[..1] == "0";
    }
  }

  lemma FirstIsOdd()
    ensures var day := Atoi("01"); day.Some? && day.value > 0 && day.value % 2 == 1
  {
    AtoiZeroOne();
  }

  lemma SecondIsEven()
    ensures var day := Atoi("02"); day.Some? && day.value % 2 == 0
  {
    AtoiZeroTwo();
  }

  lemma DayFirstOfJanuary()
    ensures DayPoints("2022-01-01") == 6
  {
    FirstIsOdd();
    DayPointsOfFields("2022-01-01", "2022", "01", "01");
  }

  lemma DaySecondOfJanuary()
    ensures DayPoints("2022-01-02") == 0
  {
    SecondIsEven();
    DayPointsOfFields("2022-01-02", "2022", "01", "02");
  }

  // Purchase times

  lemma TimeFourteenThirtyThree()
    ensures TimePoints("14:33") == 10
  {
    assert ParseClock("14:33") == Some(HourMinute(14, 33));
  }

  lemma TimeThirteenFiftyNine()
    ensures TimePoints("13:59") == 0
  {
    assert ParseClock("13:59") == Some(HourMinute(13, 59));
  }

  lemma TimeSixteenHundred()
    ensures TimePoints("16:00") == 0
  {
    assert ParseClock("16:00") == Some(HourMinute(16, 0));
  }

  // A receipt with a negative price

  lemma ParseMinusHundred()
    ensures ParseFloat("-100") == Some(Decimal(-100, 0))
  {
    assert Unsigned("-100") == "100";
    assert ScanMantissa("100") == Mantissa("100", 0, "");
    assert DigitsValue("100") == 100 by {
      assert "100"[..2] == "10";
    }
    ParseWithoutExponent("-100", "100", 0);
  }

  lemma CeilFifthOfMinusHundred()
    ensures CeilFifth(Decimal(-100, 0)) == -20
  {
  }

  lemma ItemMinusHundred()
    ensures ItemPoints(Item("", "-100")) == -20
  {
    ParseMinusHundred();
    CeilFifthOfMinusHundred();
    BlankDescriptionQualifies(Item("", "-100"));
  }

  lemma ItemsMinusHundred()
    ensures ItemsPoints([Item("", "-100")]) == -20
  {
    ItemMinusHundred();
    ItemsPointsAppend([], [Item("", "-100")]);
    assert [] + [Item("", "-100")] == [Item("", "-100")];
  }

  lemma EmptyFieldsScoreNothing()
    ensures RetailerPoints("") == 0
    ensures RoundDollarPoints("") + QuarterPoints("") == 0
    ensures DayPoints("") == 0 && TimePoints("") == 0
  {
    assert Split("", '-') == [""];
  }

  /** A receipt whose other fields all score nothing scores what its items do. */
  lemma OnlyItemsScore(r: Receipt)
    requires RetailerPoints(r.retailer) == 0
    requires RoundDollarPoints(r.total) + QuarterPoints(r.total) == 0
    requires DayPoints(r.purchaseDate) == 0 && TimePoints(r.purchaseTime) == 0
    requires PairPoints(r.items) == 0
    ensures Points(r) == ItemsPoints(r.items)
  {
  }

  /** Scores can go below zero: one item with an empty description and a
      price of -100, and every other field empty, scores -20. */
  lemma NegativePriceGivesNegativeScore()
    ensures Points(Receipt("", "", "", "", "", [Item("", "-100")], 0)) == -20
  {
    ItemsMinusHundred();
    EmptyFieldsScoreNothing();
    OnlyItemsScore(Receipt("", "", "", "", "", [Item("", "-100")], 0));
  }
}
