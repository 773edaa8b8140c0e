/**
 * The three callbacks of the World Cup finals dashboard and the option
 * lists of its two dropdowns, each a pure function of its inputs and of
 * the table.  The map figure is abstracted to its title and the list of
 * (country code, result) regions it colours.
 */
module Dashboard {
  import opened Wrappers
  import opened Text
  import opened Sequences
  import opened WorldCupData

  // ---------------------------------------------------------------------
  // Mode radio -> style of the year dropdown's container.
  // ---------------------------------------------------------------------

  /** The container style for a mode: shown exactly when the mode is `"year"`. */
  function ToggleDropdownVisibility(mode: string): (style: map<string, string>)
    ensures "display" in style
    ensures style["display"] == "block" <==> mode == "year"
    ensures style["display"] == "none" <==> mode != "year"
    ensures mode == "year" ==> style.Keys == {"width", "margin-bottom", "display"}
    ensures mode != "year" ==> style.Keys == {"display"}
  {
    if mode == "year" then map["width" := "45%", "margin-bottom" := "30px", "display" := "block"]
    else map["display" := "none"]
  }

  // ---------------------------------------------------------------------
  // Country dropdown -> win-count sentence.
  // ---------------------------------------------------------------------

  /** The "Winner Full" column. */
  function WinnerNames(rows: seq<Row>): (names: seq<string>)
    ensures |names| == |rows|
    ensures forall i :: 0 <= i < |rows| ==> names[i] == rows[i].winnerFull
  {
    seq(|rows|, i requires 0 <= i < |rows| => rows[i].winnerFull)
  }

  /**
   * The number of rows whose winner name is `country`: how often the
   * name occurs in the "Winner Full" column, and zero exactly when no
   * row names it (an unknown name included).
   */
  function CountWins(rows: seq<Row>, country: string): (n: nat)
    ensures n == multiset(WinnerNames(rows))[country]
    ensures n > 0 <==> exists i :: 0 <= i < |rows| && rows[i].winnerFull == country
    decreases |rows|
  {
    if |rows| == 0 then 0
    else
      assert WinnerNames(rows) == [rows[0].winnerFull] + WinnerNames(rows[1..]);
      (if rows[0].winnerFull == country then 1 else 0) + CountWins(rows[1..], country)
  }

  /** The words between the country's name and its count. */
  const WinPhrase: string := " has won the World Cup "

  /**
   * The sentence for a country that has won `n` times: the name, the
   * phrase, the count written in decimal (it reads back as `n`), then
   * "time" with an `s` unless `n` is one.
   */
  function WinSentence(country: string, n: nat): (msg: string)
    ensures var p, d := |country| + |WinPhrase|, |NatToString(n)|;
      && p + d < |msg|
      && msg[..p] == country + WinPhrase
      && IsDigits(msg[p..p + d]) && ParseDigits(msg[p..p + d]) == n
      && msg[p + d..] == (if n != 1 then " times." else " time.")
  {
    var msg := country + WinPhrase + NatToString(n) + " time" + (if n != 1 then "s" else "") + ".";
    ParseNatToString(n);
    assert msg == (country + WinPhrase) + NatToString(n) + (if n != 1 then " times." else " time.");
    msg
  }

  /**
   * The text under the country dropdown: empty when nothing (or the
   * empty string) is selected, otherwise the sentence for that name's
   * win count.
   */
  function DisplayCountryWins(rows: seq<Row>, country: Option<string>): (msg: string)
    ensures msg == "" <==> country == None || country == Some("")
    ensures country.Some? && country.value != "" ==>
      msg == WinSentence(country.value, CountWins(rows, country.value))
  {
    match country
    case None => ""
    case Some(c) => if c == "" then "" else WinSentence(c, CountWins(rows, c))
  }

  /** The sentence starts with the country's name and ends in "times." unless the count is one. */
  lemma WinSentencePlural(country: string, n: nat)
    ensures var msg := WinSentence(country, n);
      && |msg| > |country| + 2
      && msg[..|country|] == country
      && msg[|msg| - 1] == '.'
      && (msg[|msg| - 2] == 's' <==> n != 1)
  {
    var msg := WinSentence(country, n);
    if n == 1 {
      assert msg == country + WinPhrase + NatToString(n) + " time" + ".";
    } else {
      assert msg == country + WinPhrase + NatToString(n) + " time" + "s" + ".";
    }
  }

  /** The sentence determines the count: different counts never read the same. */
  lemma WinSentenceInjective(country: string, a: nat, b: nat)
    requires WinSentence(country, a) == WinSentence(country, b)
    ensures a == b
  {
    var p := |country| + |WinPhrase|;
    WinSentenceDigits(country, a);
    WinSentenceDigits(country, b);
    var m, d := WinSentence(country, a), |NatToString(a)|;
    assert d == |NatToString(b)|;
    assert ParseDigits(m[p..p + d]) == a;
    assert ParseDigits(m[p..p + d]) == b;
  }

  /** The count's digits in the sentence are exactly the run of digits after the phrase. */
  lemma WinSentenceDigits(country: string, n: nat)
    ensures DigitRunFrom(WinSentence(country, n), |country| + |WinPhrase|) == |NatToString(n)|
  {
    var m, p, d := WinSentence(country, n), |country| + |WinPhrase|, |NatToString(n)|;
    assert m[p + d] == m[p + d..][0] == ' ';
    assert forall k :: p <= k < p + d ==> m[k] == m[p..p + d][k - p];
    DigitRunIs(m, p, d);
  }

  // ---------------------------------------------------------------------
  // Mode radio and year dropdown -> map figure.
  // ---------------------------------------------------------------------

  /** A coloured region: a three-letter country code and the result it is coloured by. */
  datatype Region = Region(country: string, result: string)

  /** The map, abstracted to its title and its regions; or the empty map shown for an unknown year. */
  datatype Figure = Choropleth(title: string, regions: seq<Region>) | Placeholder(title: string)

  const AllTimeTitle: string := "All-Time World Cup Winners"

  const YearTitlePrefix: string := "World Cup Finalists - "
  const NoDataPrefix: string := "No data for "

  /** The title of one year's map: the fixed prefix, then the year as `str` writes it. */
  function YearTitle(year: int): (title: string)
    ensures |YearTitlePrefix| < |title| && title[..|YearTitlePrefix|] == YearTitlePrefix
    ensures IsCanonicalIntText(title[|YearTitlePrefix|..]) && ParseInt(title[|YearTitlePrefix|..]) == year
  {
    var title := YearTitlePrefix + IntToString(year);
    assert title[|YearTitlePrefix|..] == IntToString(year);
    ParseIntToString(year);
    title
  }

  /** The placeholder's title for a year with no final: the fixed prefix, then the year as `str` writes it. */
  function NoDataTitle(year: int): (title: string)
    ensures |NoDataPrefix| < |title| && title[..|NoDataPrefix|] == NoDataPrefix
    ensures IsCanonicalIntText(title[|NoDataPrefix|..]) && ParseInt(title[|NoDataPrefix|..]) == year
  {
    var title := NoDataPrefix + IntToString(year);
    assert title[|NoDataPrefix|..] == IntToString(year);
    ParseIntToString(year);
    title
  }

  /** The "Winner" column. */
  function WinnerCodes(rows: seq<Row>): (codes: seq<string>)
    ensures |codes| == |rows|
    ensures forall i :: 0 <= i < |rows| ==> codes[i] == rows[i].winner
  {
    seq(|rows|, i requires 0 <= i < |rows| => rows[i].winner)
  }

  /** The country codes a list of regions colours, in order. */
  function Countries(regions: seq<Region>): (codes: seq<string>)
    ensures |codes| == |regions|
    ensures forall k :: 0 <= k < |regions| ==> codes[k] == regions[k].country
  {
    seq(|regions|, k requires 0 <= k < |regions| => regions[k].country)
  }

  /**
   * The all-time regions: every code that ever won, once each, in order
   * of its first title, all labelled "Past Winner".
   */
  function AllTimeWinners(rows: seq<Row>): (regions: seq<Region>)
    ensures forall k :: 0 <= k < |regions| ==> regions[k].result == "Past Winner"
    ensures Distinct(Countries(regions))
    ensures forall i :: 0 <= i < |rows| ==> rows[i].winner in Countries(regions)
    ensures forall k :: 0 <= k < |regions| ==> regions[k].country in WinnerCodes(rows)
    ensures forall k, l :: 0 <= k < l < |regions| ==>
      FirstIndex(WinnerCodes(rows), regions[k].country) < FirstIndex(WinnerCodes(rows), regions[l].country)
  {
    var codes := Dedup(WinnerCodes(rows));
    var regions := seq(|codes|, k requires 0 <= k < |codes| => Region(codes[k], "Past Winner"));
    assert Countries(regions) == codes;
    assert forall k, l :: 0 <= k < l < |regions| ==>
      FirstIndex(WinnerCodes(rows), regions[k].country) < FirstIndex(WinnerCodes(rows), regions[l].country) by {
      forall k, l | 0 <= k < l < |regions|
        ensures FirstIndex(WinnerCodes(rows), regions[k].country) < FirstIndex(WinnerCodes(rows), regions[l].country)
      {
        DedupKeepsFirstOccurrenceOrder(WinnerCodes(rows), k, l);
      }
    }
    regions
  }

  /** The rows of one year: only and all of them, starting with the table's first row of that year. */
  function RowsOfYear(rows: seq<Row>, year: int): (sel: seq<Row>)
    ensures forall k :: 0 <= k < |sel| ==> sel[k].year == year && sel[k] in rows
    ensures forall i :: 0 <= i < |rows| && rows[i].year == year ==> rows[i] in sel
    ensures |sel| > 0 ==> exists i :: 0 <= i < |rows| && rows[i] == sel[0] && ExactlyFirstOfYear(rows, year, i)
    decreases |rows|
  {
    if |rows| == 0 then []
    else
      var rest := RowsOfYear(rows[1..], year);
      if rows[0].year == year then
        assert ExactlyFirstOfYear(rows, year, 0);
        [rows[0]] + rest
      else
        assert |rest| > 0 ==> exists i :: 0 <= i < |rows| && rows[i] == rest[0] && ExactlyFirstOfYear(rows, year, i) by {
          if |rest| > 0 {
            var i :| 0 <= i < |rows| - 1 && rows[1..][i] == rest[0] && ExactlyFirstOfYear(rows[1..], year, i);
            assert ExactlyFirstOfYear(rows, year, i + 1);
          }
        }
        rest
  }

  /** Row `i` is the first row of the table for `year`. */
  ghost predicate ExactlyFirstOfYear(rows: seq<Row>, year: int, i: int) {
    0 <= i < |rows| && rows[i].year == year && forall j :: 0 <= j < i ==> rows[j].year != year
  }

  /**
   * The figure for one year: the placeholder exactly when no row has that
   * year; otherwise the first such row's winner and runner-up, in that order.
   */
  function YearFigure(rows: seq<Row>, year: int): (fig: Figure)
    ensures fig.Placeholder? <==> forall i :: 0 <= i < |rows| ==> rows[i].year != year
    ensures fig.Placeholder? ==> fig.title == NoDataTitle(year)
    ensures fig.Choropleth? ==> fig.title == YearTitle(year) && exists i ::
      && ExactlyFirstOfYear(rows, year, i)
      && fig.regions == [Region(rows[i].winner, "Winner"), Region(rows[i].runnerUp, "Runner Up")]
  {
    var selected := RowsOfYear(rows, year);
    if |selected| == 0 then Placeholder(NoDataTitle(year))
    else Choropleth(YearTitle(year), [Region(selected[0].winner, "Winner"), Region(selected[0].runnerUp, "Runner Up")])
  }

  /**
   * The map callback: mode `"all"` draws the all-time winners, and any
   * other mode value draws the selected year.
   */
  function UpdateChoropleth(rows: seq<Row>, mode: string, year: int): (fig: Figure)
    ensures fig.title == AllTimeTitle <==> mode == "all"
    ensures mode == "all" ==> fig == Choropleth(AllTimeTitle, AllTimeWinners(rows))
    ensures mode != "all" ==> fig == YearFigure(rows, year)
  {
    TitlesIdentifyFigure(year, year);
    if mode == "all" then Choropleth(AllTimeTitle, AllTimeWinners(rows)) else YearFigure(rows, year)
  }

  /** Mode values other than `"all"` and `"year"` hide the year dropdown yet still draw a year. */
  lemma ModeDispatchAsymmetry(rows: seq<Row>, mode: string, year: int)
    requires mode != "all" && mode != "year"
    ensures ToggleDropdownVisibility(mode)["display"] == "none"
    ensures UpdateChoropleth(rows, mode, year) == YearFigure(rows, year)
  {
  }

  /** With one final per year, a listed year draws exactly that final's two teams. */
  lemma {:induction false} FinalistsOfListedYear(rows: seq<Row>, mode: string, i: nat)
    requires UniqueYears(rows) && i < |rows| && mode != "all"
    ensures UpdateChoropleth(rows, mode, rows[i].year)
      == Choropleth(YearTitle(rows[i].year), [Region(rows[i].winner, "Winner"), Region(rows[i].runnerUp, "Runner Up")])
  {
    var fig := UpdateChoropleth(rows, mode, rows[i].year);
    assert fig.Choropleth?;
    var k :| ExactlyFirstOfYear(rows, rows[i].year, k)
      && fig.regions == [Region(rows[k].winner, "Winner"), Region(rows[k].runnerUp, "Runner Up")];
    assert k == i;
  }

  /** An unlisted year draws the "No data" placeholder. */
  lemma UnlistedYear(rows: seq<Row>, mode: string, year: int)
    requires mode != "all" && forall i :: 0 <= i < |rows| ==> rows[i].year != year
    ensures UpdateChoropleth(rows, mode, year) == Placeholder(NoDataTitle(year))
  {
  }

  /** The title tells the figures apart: the all-time map, and per year the finalists or the placeholder. */
  lemma TitlesIdentifyFigure(y1: int, y2: int)
    ensures AllTimeTitle != YearTitle(y1) && AllTimeTitle != NoDataTitle(y1) && YearTitle(y1) != NoDataTitle(y2)
    ensures YearTitle(y1) == YearTitle(y2) ==> y1 == y2
    ensures NoDataTitle(y1) == NoDataTitle(y2) ==> y1 == y2
  {
    assert AllTimeTitle[0] == 'A' && YearTitle(y1)[0] == 'W' && NoDataTitle(y1)[0] == 'N';
    assert NoDataTitle(y2)[0] == 'N';
    var p, q := YearTitlePrefix, NoDataPrefix;
    if YearTitle(y1) == YearTitle(y2) {
      assert YearTitle(y1)[|p|..] == IntToString(y1);
      assert YearTitle(y2)[|p|..] == IntToString(y2);
      IntToStringInjective(y1, y2);
    }
    if NoDataTitle(y1) == NoDataTitle(y2) {
      assert NoDataTitle(y1)[|q|..] == IntToString(y1);
      assert NoDataTitle(y2)[|q|..] == IntToString(y2);
      IntToStringInjective(y1, y2);
    }
  }

  // ---------------------------------------------------------------------
  // Dropdown option lists.
  // ---------------------------------------------------------------------

  /** The "Year" column. */
  function YearsOf(rows: seq<Row>): (years: seq<int>)
    ensures |years| == |rows|
    ensures forall i :: 0 <= i < |rows| ==> years[i] == rows[i].year
  {
    seq(|rows|, i requires 0 <= i < |rows| => rows[i].year)
  }

  /**
   * The year dropdown's options: each year of the table once, in order of
   * first appearance.
   */
  function YearOptions(rows: seq<Row>): (years: seq<int>)
    ensures Distinct(years)
    ensures forall i :: 0 <= i < |rows| ==> rows[i].year in years
    ensures forall k :: 0 <= k < |years| ==> years[k] in YearsOf(rows)
    ensures forall k, l :: 0 <= k < l < |years| ==> FirstIndex(YearsOf(rows), years[k]) < FirstIndex(YearsOf(rows), years[l])
  {
    var years := Dedup(YearsOf(rows));
    assert forall k, l :: 0 <= k < l < |years| ==> FirstIndex(YearsOf(rows), years[k]) < FirstIndex(YearsOf(rows), years[l]) by {
      forall k, l | 0 <= k < l < |years| ensures FirstIndex(YearsOf(rows), years[k]) < FirstIndex(YearsOf(rows), years[l]) {
        DedupKeepsFirstOccurrenceOrder(YearsOf(rows), k, l);
      }
    }
    years
  }

  /** When no year repeats, the options are the whole "Year" column in table order. */
  lemma YearOptionsOfUniqueYears(rows: seq<Row>)
    requires UniqueYears(rows)
    ensures YearOptions(rows) == YearsOf(rows)
  {
    DedupOfDistinct(YearsOf(rows));
  }

  /**
   * The country dropdown's options: the winner names, sorted as Python
   * sorts strings, each exactly once.
   */
  function CountryOptions(rows: seq<Row>): (names: seq<string>)
    ensures Sorted(names)
    ensures Distinct(names)
    ensures forall i :: 0 <= i < |rows| ==> rows[i].winnerFull in names
    ensures forall k :: 0 <= k < |names| ==> names[k] in WinnerNames(rows)
  {
    var unique := Dedup(WinnerNames(rows));
    var names := Sort(unique);
    PermutationKeepsDistinct(unique, names);
    forall i | 0 <= i < |rows| ensures rows[i].winnerFull in names {
      assert WinnerNames(rows)[i] in unique;
      assert rows[i].winnerFull in multiset(unique);
    }
    forall k | 0 <= k < |names| ensures names[k] in WinnerNames(rows) {
      assert names[k] in multiset(names);
      assert names[k] in unique;
      var m :| 0 <= m < |unique| && unique[m] == names[k];
    }
    names
  }

  /** A name is offered exactly when it has won at least once. */
  lemma CountryOptionsAreWinners(rows: seq<Row>, country: string)
    ensures country in CountryOptions(rows) <==> CountWins(rows, country) >= 1
  {
    var names := CountryOptions(rows);
    if country in names {
      var k :| 0 <= k < |names| && names[k] == country;
      assert country in WinnerNames(rows);
    }
  }

  /** The win counts of a list of names, added up. */
  function TotalWins(rows: seq<Row>, names: seq<string>): nat
    decreases |names|
  {
    if |names| == 0 then 0 else CountWins(rows, names[0]) + TotalWins(rows, names[1..])
  }

  /** Peeling the first row off the table takes one from each name's count that matches it. */
  lemma {:induction false} TotalWinsFirstRow(rows: seq<Row>, names: seq<string>)
    requires |rows| > 0
    ensures TotalWins(rows, names) == multiset(names)[rows[0].winnerFull] + TotalWins(rows[1..], names)
    decreases |names|
  {
    if |names| > 0 {
      assert names == [names[0]] + names[1..];
      TotalWinsFirstRow(rows, names[1..]);
    }
  }

  /** Over names without repeats that cover every winner, the counts add up to the number of rows. */
  lemma {:induction false} TotalWinsCoversRows(rows: seq<Row>, names: seq<string>)
    requires Distinct(names)
    requires forall i :: 0 <= i < |rows| ==> rows[i].winnerFull in names
    ensures TotalWins(rows, names) == |rows|
    decreases |rows|
  {
    if |rows| == 0 {
      TotalWinsEmpty(rows, names);
    } else {
      TotalWinsFirstRow(rows, names);
      DistinctOccursAtMostOnce(names, rows[0].winnerFull);
      assert rows[0].winnerFull in multiset(names);
      assert forall i :: 0 <= i < |rows| - 1 ==> rows[1..][i] == rows[i + 1];
      TotalWinsCoversRows(rows[1..], names);
    }
  }

  /** Base case of `TotalWinsCoversRows`: with no rows, every name's count is 0. */
  lemma {:induction false} TotalWinsEmpty(rows: seq<Row>, names: seq<string>)
    requires |rows| == 0
    ensures TotalWins(rows, names) == 0
    decreases |names|
  {
    if |names| > 0 { TotalWinsEmpty(rows, names[1..]); }
  }

  /** Every final is counted once among the country options' win counts. */
  lemma OptionWinsAddUp(rows: seq<Row>)
    ensures TotalWins(rows, CountryOptions(rows)) == |rows|
  {
    TotalWinsCoversRows(rows, CountryOptions(rows));
  }
}
