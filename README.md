# World Cup finals map — a Dafny model

The system is a one-page Dash dashboard (`Assignment7.py`) over a static table
of the 22 FIFA World Cup finals from 1930 to 2022. Each final is a row of
three things: the winner's three-letter code, the runner-up's code and the year.
A code-to-name table adds the winner's and the runner-up's country names.
The page has three callbacks:

- the mode radio ("all" or "year") shows or hides the year dropdown;
- the country dropdown drives a sentence saying how often that country has won;
- the mode and the year drive the world map.

The map shows either every past winner or one year's two finalists.

This project models that logic as pure Dafny functions over the table. The map
figure is abstracted to its title plus the list of (country code, result)
regions it colours, or to a placeholder that carries only a title.

- `wrappers.dfy` (`Wrappers`): `Option`, the value a Dash dropdown holds
  (`None` when nothing is selected).
- `text.dfy` (`Text`): Python's `str()` of an `int`, as the f-strings use it,
  and Python's code-point ordering of `str` with the `sorted()` built on it.
- `sequences.dfy` (`Sequences`): pandas' `drop_duplicates()` / `unique()`.
  Both keep each value's first occurrence, in table order.
- `world_cup_data.dfy` (`WorldCupData`): the three columns, the code-to-name
  map, the derived name columns and the closed-world invariant.
- `dashboard.dfy` (`Dashboard`): the three callbacks and the option lists of
  the two dropdowns. Each function takes the table as a parameter, so its
  properties hold for any table.
- `dashboard_facts.dfy` (`DashboardFacts`): what the callbacks give on the
  dashboard's own table, `WcData()`.

Three behaviours of the code are worth stating on their own:

- Uruguay has two titles in the table, 1930 and 1950.
  `DashboardFacts.WinCountsOfTable` proves `CountWins(WcData(), "Uruguay") == 2`.
- The mode is a free string. The year dropdown is shown only for exactly
  `"year"`, and the all-time map is drawn only for exactly `"all"`. Any other
  value hides the dropdown and still draws a year (`Dashboard.ModeDispatchAsymmetry`).
- The all-time map is coloured by its "Country" column, which holds codes, so the
  `"Past Winner"` key of its colour map never matches. Colours are not modelled
  (see below).

## Model

| member | source | states |
|---|---|---|
| `WorldCupData.Frame` | Assignment7.py:9-13 | the table has one row per column position; row `i` holds element `i` of the Winner, Runner Up and Year columns |
| `WorldCupData.WithFullNames` | Assignment7.py:31-32 | under the closed-world invariant, adding the two name columns keeps every row's codes and year and gives each row the looked-up names of its two codes |
| `WorldCupData.DatasetInvariant` | Assignment7.py:9-29 | the table has 22 rows; every winner and runner-up code has a name (closed world); the years strictly increase, so no year repeats |
| `WorldCupData.WcData` | Assignment7.py:9-32 | the table the callbacks see has 22 rows, no two with the same year |
| `Dashboard.ToggleDropdownVisibility` | Assignment7.py:88-91 | the style always sets `display`; it is `block` exactly when the mode is `"year"` and `none` for every other mode; the shown style also sets width and margin, the hidden one nothing else |
| `Dashboard.CountWins` | Assignment7.py:101 | the count is the number of occurrences of the name in the "Winner Full" column; it is positive exactly when some row has that winner name, so a name that never won, or is unknown, gives 0 |
| `Dashboard.DisplayCountryWins` | Assignment7.py:98-103 | the text is empty exactly when no country or the empty string is selected; otherwise it is the win sentence for that name's count |
| `Dashboard.WinSentence` | Assignment7.py:103 | the sentence is the country name and " has won the World Cup ", then the count's digits, which read back as the count, then " times." or, for a count of 1, " time." |
| `Dashboard.WinSentencePlural` | Assignment7.py:103 | the sentence begins with the country name and ends in `.`; the letter before the full stop is `s` exactly when the count is not 1, so 0 reads "times" |
| `Dashboard.WinSentenceInjective` | Assignment7.py:103 | two sentences for the same country are equal only if their counts are equal |
| `Dashboard.YearTitle` | Assignment7.py:169 | the finalists title is "World Cup Finalists - " followed by the year as `str()` writes it: no leading zero (except for 0) and no `-0`, and it reads back as the year |
| `Dashboard.NoDataTitle` | Assignment7.py:149 | the placeholder title is "No data for " followed by the year as `str()` writes it: no leading zero (except for 0) and no `-0`, and it reads back as the year |
| `Dashboard.AllTimeWinners` | Assignment7.py:112-115 | every region is labelled "Past Winner"; no code appears twice; every row's winner code appears; every region's code is some row's winner; codes come in order of each country's first title |
| `Dashboard.RowsOfYear` | Assignment7.py:147 | the selection holds only rows of that year and every row of that year; its first element is the table's first row of that year |
| `Dashboard.YearFigure` | Assignment7.py:146-154 | the figure is the placeholder exactly when no row has the year, titled `No data for <year>`; otherwise it is titled `World Cup Finalists - <year>` and holds exactly the first matching row's winner as "Winner" followed by its runner-up as "Runner Up" |
| `Dashboard.UpdateChoropleth` | Assignment7.py:111-169 | the title is the all-time title exactly when the mode is `"all"`; mode `"all"` draws the all-time winners, and any other mode value draws the year figure |
| `Dashboard.ModeDispatchAsymmetry` | Assignment7.py:88-112 | a mode value that is neither `"all"` nor `"year"` hides the year dropdown, yet the map still takes the year path |
| `Dashboard.FinalistsOfListedYear` | Assignment7.py:147-169 | when no year repeats, a non-"all" mode with any row's year draws exactly that row's winner and runner-up under that year's title |
| `Dashboard.UnlistedYear` | Assignment7.py:147-149 | a year that matches no row draws the placeholder titled `No data for <year>` |
| `Dashboard.TitlesIdentifyFigure` | Assignment7.py:128-169 | the all-time, finalists and placeholder titles never coincide, and each year title determines its year |
| `Dashboard.YearOptions` | Assignment7.py:57 | the year options repeat no year, hold every year of the table and nothing else, in order of first appearance |
| `Dashboard.YearOptionsOfUniqueYears` | Assignment7.py:57 | when no year repeats, the options are the Year column itself |
| `Dashboard.CountryOptions` | Assignment7.py:69 | the country options are sorted by Python's string order and repeat no name; they hold every winner name and nothing else |
| `Dashboard.CountryOptionsAreWinners` | Assignment7.py:69 | a name is offered exactly when its win count is at least 1 |
| `Dashboard.TotalWinsCoversRows` | Assignment7.py:101 | over names without repeats that cover every winner, the win counts add up to the number of rows |
| `Dashboard.OptionWinsAddUp` | Assignment7.py:69 | the win counts of the country options add up to the number of finals |
| `Text.NatToString` | Assignment7.py:103 | `str()` of a count is a non-empty string of digits with no leading zero; 0 is written `"0"` |
| `Text.ParseNatToString` | Assignment7.py:103 | reading a formatted count back gives the count |
| `Text.IntToString` | Assignment7.py:149 | `str()` of a year is non-empty and is digits, possibly after one minus sign; it starts with `-` exactly when the year is negative, and otherwise it is all digits; it starts with `0` only for 0, and a negative year's digits do not start with `0` |
| `Text.ParseIntToString` | Assignment7.py:149 | reading the written year back gives the year; a year that is not negative is its digits, and a negative year is a minus sign followed by the digits of its magnitude |
| `Text.IntToStringOfCanonical` | Assignment7.py:149 | text in `str()`'s form for an `int` (no leading zero, no `-0`) is exactly the text of the number it reads back as, so such text determines the year and nothing else can stand for it |
| `Text.IntToStringInjective` | Assignment7.py:169 | different years are written differently |
| `Text.StrLe` | Assignment7.py:69 | Python's `<=` on `str`: it holds exactly when the first string is a prefix of the second, or has the smaller code point at the first position where they differ |
| `Text.Sort` | Assignment7.py:69 | `sorted()` returns an ordered rearrangement of its input |
| `Text.SortedUnique` | Assignment7.py:69 | two sorted rearrangements of the same names are equal, so the option order is fully determined |
| `Sequences.Dedup` | Assignment7.py:113 | the result repeats nothing, holds every input value and only input values, and is no longer than the input |
| `Sequences.DedupKeepsFirstOccurrenceOrder` | Assignment7.py:113 | the result's values come in the order of their first occurrence in the input |
| `Sequences.DedupOfDistinct` | Assignment7.py:57 | removing duplicates from a column with none gives the column back |
| `DashboardFacts.WinCountsOfTable` | Assignment7.py:101 | on the table: Brazil 5, Uruguay 2, Argentina 3, England 1 and Netherlands 0 wins |
| `DashboardFacts.WinTextsOfTable` | Assignment7.py:98-103 | on the table: no selection gives `""`; Argentina "3 times."; England "1 time."; Netherlands "0 times." |
| `DashboardFacts.Figure1930` | Assignment7.py:151-169 | the 1930 map is titled "World Cup Finalists - 1930" and shows URY as Winner and ARG as Runner Up |
| `DashboardFacts.Figure1999` | Assignment7.py:147-149 | the 1999 map is the placeholder "No data for 1999" |
| `DashboardFacts.OptionsOfTable` | Assignment7.py:57-69 | the year options are the 22 years in table order, so the first is the default 1930 of line 58; the country options are the eight winners, sorted |

## Left out

- Dash app construction, page layout, label text and CSS style dictionaries (Assignment7.py:35-80) are UI declarations, not logic. The year dropdown's default value (line 58) appears only as the first year option.
- `app.run_server` (Assignment7.py:188-189) is HTTP serving.
- The `@app.callback` wiring and Dash's reactive dispatch are framework code. Each callback is modelled as a plain function of its inputs and of the table.
- Plotly figure construction is a foreign library: colours, `color_discrete_map`, width and height, title position and font, legend placement, and resolving ISO 3166-1 alpha-3 codes to map geometry (Assignment7.py:117-145, 156-185). A figure is only its title and its regions. The placeholder `px.choropleth(title=...)` is only its title.
- Because colours are left out, the model does not capture that the all-time map colours by country code instead of by "Past Winner".
- The NaN that pandas' `.map` gives for a code missing from the name table is not modelled. `WorldCupData.WithFullNames` requires the closed-world invariant instead, and `WorldCupData.DatasetInvariant` proves it holds of the table.
- DataFrame mechanics (boolean masks, `.shape`, `.values[0]`, `.empty`) are modelled as operations on sequences of rows.
- Inputs that the dropdowns never produce are not modelled: a year that is not an integer, and a country value that is neither unset nor a string. An unset or empty country is modelled as `None` or `Some("")`.
