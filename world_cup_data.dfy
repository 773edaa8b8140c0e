/**
 * The static table of World Cup finals the dashboard shows: three
 * parallel columns (winner code, runner-up code, year), a lookup from
 * three-letter code to country name, and the two name columns derived
 * from it.
 */
module WorldCupData {

  /** One row of the table as first built: the two finalists' codes and the year. */
  datatype Final = Final(winner: string, runnerUp: string, year: int)

  /** A row once the "Winner Full" and "Runner Up Full" columns have been added. */
  datatype Row = Row(winner: string, runnerUp: string, year: int, winnerFull: string, runnerUpFull: string)

  const WinnerColumn: seq<string> :=
    ["URY", "ITA", "ITA", "URY", "DEU", "BRA", "BRA", "GBR", "BRA", "DEU", "ARG",
     "ITA", "ARG", "DEU", "BRA", "FRA", "BRA", "ITA", "ESP", "DEU", "FRA", "ARG"]

  const RunnerUpColumn: seq<string> :=
    ["ARG", "CZE", "HUN", "BRA", "HUN", "SWE", "CZE", "DEU", "ITA", "NLD", "NLD",
     "DEU", "DEU", "ARG", "ITA", "BRA", "DEU", "FRA", "NLD", "ARG", "CRO", "FRA"]

  const YearColumn: seq<int> :=
    [1930, 1934, 1938, 1950, 1954, 1958, 1962, 1966, 1970, 1974, 1978,
     1982, 1986, 1990, 1994, 1998, 2002, 2006, 2010, 2014, 2018, 2022]

  const CodeToCountry: map<string, string> := map[
    "URY" := "Uruguay",
    "ITA" := "Italy",
    "DEU" := "Germany",
    "BRA" := "Brazil",
    "GBR" := "England",
    "ARG" := "Argentina",
    "CZE" := "Czechoslovakia",
    "HUN" := "Hungary",
    "SWE" := "Sweden",
    "NLD" := "Netherlands",
    "FRA" := "France",
    "ESP" := "Spain",
    "CRO" := "Croatia"
  ]

  /** Builds the table from its columns, row `i` taking element `i` of each. */
  function Frame(winners: seq<string>, runnersUp: seq<string>, years: seq<int>): (t: seq<Final>)
    requires |winners| == |runnersUp| == |years|
    ensures |t| == |years|
    ensures forall i :: 0 <= i < |t| ==> t[i].winner == winners[i] && t[i].runnerUp == runnersUp[i] && t[i].year == years[i]
  {
    seq(|years|, i requires 0 <= i < |years| => Final(winners[i], runnersUp[i], years[i]))
  }

  /** Closed world: every code in the table has a country name. */
  ghost predicate ClosedWorld(finals: seq<Final>, names: map<string, string>) {
    forall i :: 0 <= i < |finals| ==> finals[i].winner in names && finals[i].runnerUp in names
  }

  /** No two rows share a year. */
  ghost predicate UniqueYears(rows: seq<Row>) {
    forall i, j :: 0 <= i < j < |rows| ==> rows[i].year != rows[j].year
  }

  /** Adds the two name columns by looking each code up; every other column is kept. */
  function WithFullNames(finals: seq<Final>, names: map<string, string>): (rows: seq<Row>)
    requires ClosedWorld(finals, names)
    ensures |rows| == |finals|
    ensures forall i :: 0 <= i < |rows| ==>
      && rows[i].winner == finals[i].winner
      && rows[i].runnerUp == finals[i].runnerUp
      && rows[i].year == finals[i].year
      && rows[i].winnerFull == names[finals[i].winner]
      && rows[i].runnerUpFull == names[finals[i].runnerUp]
  {
    seq(|finals|, i requires 0 <= i < |finals| =>
      Row(finals[i].winner, finals[i].runnerUp, finals[i].year,
          names[finals[i].winner], names[finals[i].runnerUp]))
  }

  /** The static table satisfies the closed-world invariant, with one final per year. */
  lemma DatasetInvariant()
    ensures |Frame(WinnerColumn, RunnerUpColumn, YearColumn)| == 22
    ensures ClosedWorld(Frame(WinnerColumn, RunnerUpColumn, YearColumn), CodeToCountry)
    ensures forall i, j :: 0 <= i < j < |YearColumn| ==> YearColumn[i] < YearColumn[j]
  {
  }

  /** The table with its name columns, as the dashboard's callbacks see it. */
  function WcData(): (rows: seq<Row>)
    ensures |rows| == 22
    ensures UniqueYears(rows)
  {
    DatasetInvariant();
    WithFullNames(Frame(WinnerColumn, RunnerUpColumn, YearColumn), CodeToCountry)
  }
}
