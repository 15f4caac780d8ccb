/** Display dates of sample dates. Each piece of the format is evaluated in a lemma of its own. */
module DateExamples {
  import opened Decimal
  import opened Dates

  lemma Digits2021()
    ensures NatToString(2021) == "2021"
  {
    assert NatToString(2) == "2";
    assert NatToString(20) == "20";
    assert NatToString(202) == "202";
  }

  lemma Year2021()
    ensures YearText(2021) == "2021"
  {
    Digits2021();
  }

  lemma January()
    ensures MonthName(1) == "January"
  {
  }

  lemma March()
    ensures MonthName(3) == "March"
  {
  }

  lemma May()
    ensures MonthName(5) == "May"
  {
  }

  lemma Day(day: nat, text: string)
    requires day < 10 && text == [DigitChar(day)]
    ensures DayText(day) == text
  {
  }

  lemma JoinMarch()
    ensures "March" + " " + "3" + ", " + "2021" == "March 3, 2021"
  {
  }

  lemma JoinMay()
    ensures "May" + " " + "1" + ", " + "2021" == "May 1, 2021"
  {
  }

  lemma JoinJanuary()
    ensures "January" + " " + "9" + ", " + "0987" == "January 9, 0987"
  {
  }

  /** (2021, 3, 3) is shown as "March 3, 2021". */
  lemma FormatExampleMarch()
    ensures Format(Date(2021, 3, 3)) == "March 3, 2021"
  {
    Year2021();
    March();
    Day(3, "3");
    JoinMarch();
  }

  /** (2021, 5, 1) is shown as "May 1, 2021". */
  lemma FormatExampleMay()
    ensures Format(Date(2021, 5, 1)) == "May 1, 2021"
  {
    Year2021();
    May();
    Day(1, "1");
    JoinMay();
  }

  lemma Digits987()
    ensures NatToString(987) == "987"
  {
    assert NatToString(9) == "9";
    assert NatToString(98) == "98";
  }

  lemma Pad987()
    ensures ZeroPad("987", 4) == "0987"
  {
    assert ZeroPad("987", 4) == "0" + "987";
  }

  lemma Year987()
    ensures YearText(987) == "0987"
  {
    Digits987();
    Pad987();
  }

  /** A year with fewer than four digits is zero-filled; the day is never zero-filled. */
  lemma FormatExamplePadded()
    ensures Format(Date(987, 1, 9)) == "January 9, 0987"
  {
    Year987();
    January();
    Day(9, "9");
    JoinJanuary();
  }
}
