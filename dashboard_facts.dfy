/**
 * What the callbacks give on the dashboard's own table: the answers a
 * user sees for particular selections.
 */
module DashboardFacts {
  import opened Wrappers
  import opened Text
  import opened Sequences
  import opened WorldCupData
  import opened Dashboard

  lemma WinnerNamesOfTable()
    ensures WinnerNames(WcData()) == WinnerNameColumn
  {
  }

  const WinnerNameColumn: seq<string> := ["Uruguay", "Italy", "Italy", "Uruguay", "Germany", "Brazil", "Brazil", "England", "Brazil", "Germany", "Argentina", "Italy", "Argentina", "Germany", "Brazil", "France", "Brazil", "Italy", "Spain", "Germany", "France", "Argentina"]

  lemma BrazilInColumn()
    ensures multiset(WinnerNameColumn)["Brazil"] == 5
  {
  }

  lemma UruguayInColumn()
    ensures multiset(WinnerNameColumn)["Uruguay"] == 2
  {
  }

  lemma ArgentinaInColumn()
    ensures multiset(WinnerNameColumn)["Argentina"] == 3
  {
  }

  lemma EnglandInColumn()
    ensures multiset(WinnerNameColumn)["England"] == 1
  {
  }

  lemma NetherlandsNotInColumn()
    ensures "Netherlands" !in WinnerNameColumn
  {
  }

  lemma CountsFromColumn(rows: seq<Row>)
    requires WinnerNames(rows) == WinnerNameColumn
    ensures CountWins(rows, "Brazil") == 5
    ensures CountWins(rows, "Uruguay") == 2
    ensures CountWins(rows, "Argentina") == 3
    ensures CountWins(rows, "England") == 1
    ensures CountWins(rows, "Netherlands") == 0
  {
    EnglandInColumn();
    BrazilInColumn();
    UruguayInColumn();
    ArgentinaInColumn();
    NetherlandsNotInColumn();
  }

  /** The counts a user sees for some selections; the Netherlands, three times runner-up, never won. */
  lemma WinCountsOfTable()
    ensures CountWins(WcData(), "Brazil") == 5
    ensures CountWins(WcData(), "Uruguay") == 2
    ensures CountWins(WcData(), "Argentina") == 3
    ensures CountWins(WcData(), "England") == 1
    ensures CountWins(WcData(), "Netherlands") == 0
  {
    WinnerNamesOfTable();
    CountsFromColumn(WcData());
  }

  lemma SmallCountsWritten()
    ensures NatToString(0) == "0" && NatToString(1) == "1" && NatToString(3) == "3"
  {
  }

  lemma ArgentinaSentence()
    ensures WinSentence("Argentina", 3) == "Argentina has won the World Cup 3 times."
  {
    SmallCountsWritten();
  }

  lemma EnglandSentence()
    ensures WinSentence("England", 1) == "England has won the World Cup 1 time."
  {
    SmallCountsWritten();
  }

  lemma NetherlandsSentence()
    ensures WinSentence("Netherlands", 0) == "Netherlands has won the World Cup 0 times."
  {
    SmallCountsWritten();
  }

  lemma TextsFromCounts(rows: seq<Row>)
    requires CountWins(rows, "Argentina") == 3
    requires CountWins(rows, "England") == 1
    requires CountWins(rows, "Netherlands") == 0
    ensures DisplayCountryWins(rows, None) == ""
    ensures DisplayCountryWins(rows, Some("")) == ""
    ensures DisplayCountryWins(rows, Some("Argentina")) == "Argentina has won the World Cup 3 times."
    ensures DisplayCountryWins(rows, Some("England")) == "England has won the World Cup 1 time."
    ensures DisplayCountryWins(rows, Some("Netherlands")) == "Netherlands has won the World Cup 0 times."
  {
    ArgentinaSentence();
    EnglandSentence();
    NetherlandsSentence();
  }

  /** The sentences a user sees: plural for three and for zero, singular for one. */
  lemma WinTextsOfTable()
    ensures DisplayCountryWins(WcData(), None) == ""
    ensures DisplayCountryWins(WcData(), Some("Argentina")) == "Argentina has won the World Cup 3 times."
    ensures DisplayCountryWins(WcData(), Some("England")) == "England has won the World Cup 1 time."
    ensures DisplayCountryWins(WcData(), Some("Netherlands")) == "Netherlands has won the World Cup 0 times."
  {
    WinCountsOfTable();
    TextsFromCounts(WcData());
  }

  lemma YearsOfTable()
    ensures YearsOf(WcData()) == YearColumn
  {
  }

  lemma YearsWritten()
    ensures IntToString(1930) == "1930" && IntToString(1999) == "1999"
  {
  }

  lemma TitlesWritten()
    ensures YearTitle(1930) == "World Cup Finalists - 1930"
    ensures NoDataTitle(1999) == "No data for 1999"
  {
    YearsWritten();
  }

  /** The map for 1930 shows Uruguay beating Argentina. */
  lemma Figure1930()
    ensures UpdateChoropleth(WcData(), "year", 1930)
      == Choropleth("World Cup Finalists - 1930", [Region("URY", "Winner"), Region("ARG", "Runner Up")])
  {
    TitlesWritten();
    var rows := WcData();
    assert rows[0].year == 1930 && rows[0].winner == "URY" && rows[0].runnerUp == "ARG";
    FinalistsOfListedYear(rows, "year", 0);
  }

  /** There was no final in 1999, so its map is the placeholder. */
  lemma Figure1999()
    ensures UpdateChoropleth(WcData(), "year", 1999) == Placeholder("No data for 1999")
  {
    TitlesWritten();
    var rows := WcData();
    YearsOfTable();
    assert 1999 !in YearColumn;
    assert forall i :: 0 <= i < |rows| ==> rows[i].year == YearsOf(rows)[i];
    UnlistedYear(rows, "year", 1999);
  }

  const CountryOptionNames: seq<string> :=
    ["Argentina", "Brazil", "England", "France", "Germany", "Italy", "Spain", "Uruguay"]

  /** The eight names start with eight different letters, in alphabetical order. */
  lemma CountryOptionNamesSorted()
    ensures Sorted(CountryOptionNames) && Distinct(CountryOptionNames)
  {
    var s := CountryOptionNames;
    var initials := "ABEFGISU";
    assert forall i :: 0 <= i < |s| ==> |s[i]| > 0 && s[i][0] == initials[i];
    forall i, j | 0 <= i < j < |s| ensures StrLe(s[i], s[j]) && s[i] != s[j] {
      assert initials[i] < initials[j];
    }
  }

  lemma ColumnHoldsOptionNames(x: string)
    ensures x in WinnerNameColumn <==> x in CountryOptionNames
  {
  }

  lemma OptionsHoldOptionNames(rows: seq<Row>)
    requires WinnerNames(rows) == WinnerNameColumn
    ensures forall x :: x in CountryOptions(rows) <==> x in CountryOptionNames
  {
    var names := CountryOptions(rows);
    forall x ensures x in names <==> x in CountryOptionNames {
      ColumnHoldsOptionNames(x);
      if x in names {
        var k :| 0 <= k < |names| && names[k] == x;
      }
      if x in WinnerNames(rows) {
        var i :| 0 <= i < |rows| && WinnerNames(rows)[i] == x;
      }
    }
  }

  lemma OptionsFromColumn(rows: seq<Row>)
    requires WinnerNames(rows) == WinnerNameColumn
    ensures CountryOptions(rows) == CountryOptionNames
  {
    var names := CountryOptions(rows);
    OptionsHoldOptionNames(rows);
    CountryOptionNamesSorted();
    DistinctSameValues(names, CountryOptionNames);
    SortedUnique(names, CountryOptionNames);
  }

  /** The year dropdown lists all 22 years in table order; the country dropdown the eight winners, sorted. */
  lemma OptionsOfTable()
    ensures YearOptions(WcData()) == YearColumn
    ensures CountryOptions(WcData()) == CountryOptionNames
  {
    YearOptionsOfUniqueYears(WcData());
    YearsOfTable();
    WinnerNamesOfTable();
    OptionsFromColumn(WcData());
  }
}
